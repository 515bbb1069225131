/** How kavl nodes in memory represent a tree, or a tree cut open along a search path. */
module KavlMemory {
  import opened BitKeys
  import opened AvlTree
  import opened AvlSearch

  ghost function Nodes(t: Tree): set<Node> {
    if t.Leaf? then {} else {t.at} + Nodes(t.l) + Nodes(t.r)
  }

  ghost predicate Distinct(t: Tree) {
    t.Bin? ==>
      && Distinct(t.l) && Distinct(t.r) && Nodes(t.l) !! Nodes(t.r)
      && t.at !in Nodes(t.l) && t.at !in Nodes(t.r)
  }

  lemma {:induction false} NodesAreInorder(t: Tree)
    ensures Nodes(t) == set n | n in Inorder(t)
  {
    if t.Bin? {
      NodesAreInorder(t.l);
      NodesAreInorder(t.r);
    }
  }

  ghost predicate NoDuplicates(s: seq<Node>) {
    forall i, j | 0 <= i < j < |s| :: s[i] != s[j]
  }

  lemma NoDuplicatesParts(a: seq<Node>, m: Node, b: seq<Node>)
    requires NoDuplicates(a + [m] + b)
    ensures NoDuplicates(a) && NoDuplicates(b) && m !in a && m !in b && forall n | n in a :: n !in b
  {
    var s, k := a + [m] + b, |a|;
    assert forall i | 0 <= i < k :: a[i] == s[i];
    assert forall i | 0 <= i < |b| :: b[i] == s[k + 1 + i];
    assert s[k] == m;
  }

  lemma {:induction false} NoDuplicatesDistinct(t: Tree)
    requires NoDuplicates(Inorder(t))
    ensures Distinct(t)
  {
    if t.Bin? {
      NoDuplicatesParts(Inorder(t.l), t.at, Inorder(t.r));
      NoDuplicatesDistinct(t.l);
      NoDuplicatesDistinct(t.r);
      NodesAreInorder(t.l);
      NodesAreInorder(t.r);
    }
  }

  lemma {:induction false} DistinctNoDuplicates(t: Tree)
    requires Distinct(t)
    ensures NoDuplicates(Inorder(t))
  {
    if t.Bin? {
      DistinctNoDuplicates(t.l);
      DistinctNoDuplicates(t.r);
      NodesAreInorder(t.l);
      NodesAreInorder(t.r);
      var s, k := Inorder(t), |Inorder(t.l)|;
      forall i, j | 0 <= i < j < |s| ensures s[i] != s[j] {
        if i < k {
          assert s[i] == Inorder(t.l)[i] && s[i] in Nodes(t.l);
          if j < k { assert s[j] == Inorder(t.l)[j]; }
        }
        if j > k {
          assert s[j] == Inorder(t.r)[j - k - 1] && s[j] in Nodes(t.r);
          if i > k { assert s[i] == Inorder(t.r)[i - k - 1]; }
        }
      }
    }
  }

  /** Trees with the same in-order sequence have the same nodes and are alike free of sharing. */
  lemma {:induction false} SameInorder(t: Tree, u: Tree)
    requires Inorder(t) == Inorder(u)
    ensures Nodes(t) == Nodes(u) && (Distinct(t) ==> Distinct(u))
  {
    NodesAreInorder(t);
    NodesAreInorder(u);
    if Distinct(t) {
      DistinctNoDuplicates(t);
      NoDuplicatesDistinct(u);
    }
  }

  /** Strictly increasing keys belong to different nodes. */
  lemma SortedNoDuplicates(s: seq<Node>)
    requires Sorted(s)
    ensures NoDuplicates(s)
  {
    forall i, j | 0 <= i < j < |s| ensures s[i] != s[j] {
      assert Before(Bits(s[i].key), Bits(s[j].key));
    }
  }

  lemma {:induction false} SortedDistinct(t: Tree)
    requires Sorted(Inorder(t))
    ensures Distinct(t)
  {
    SortedNoDuplicates(Inorder(t));
    NoDuplicatesDistinct(t);
  }

  ghost function Ptr(t: Tree): Node? {
    if t.Leaf? then null else t.at
  }

  /** Memory holds the tree. */
  ghost predicate Rep(t: Tree)
    reads Nodes(t)
  {
    t.Bin? ==>
      && t.at.p0 == Ptr(t.l) && t.at.p1 == Ptr(t.r) && t.at.balance == t.bal && t.at.size == t.size
      && Rep(t.l) && Rep(t.r)
  }

  twostate lemma {:induction false} RepUnchanged(new t: Tree)
    requires old(allocated(t)) && old(Rep(t)) && old(allocated(Nodes(t))) && unchanged(Nodes(t))
    ensures Rep(t)
  {
  }

  lemma KidsDistinct(t: Tree, dir: bool)
    requires t.Bin? && Distinct(t)
    ensures var c, sib := Kid(t, dir), Kid(t, !dir);
      && Distinct(c) && Distinct(sib) && Nodes(c) !! Nodes(sib)
      && t.at !in Nodes(c) && t.at !in Nodes(sib) && Nodes(t) == {t.at} + Nodes(c) + Nodes(sib)
  {
  }

  lemma KidsRep(t: Tree, dir: bool)
    requires t.Bin? && Rep(t)
    ensures Rep(Kid(t, dir)) && Rep(Kid(t, !dir))
    ensures t.at.P(dir) == Ptr(Kid(t, dir)) && t.at.P(!dir) == Ptr(Kid(t, !dir))
    ensures t.at.balance == t.bal && t.at.size == t.size
  {
  }

  lemma MakeRep(t: Tree, dir: bool)
    requires t.Bin? && Rep(Kid(t, dir)) && Rep(Kid(t, !dir))
    requires t.at.P(dir) == Ptr(Kid(t, dir)) && t.at.P(!dir) == Ptr(Kid(t, !dir))
    requires t.at.balance == t.bal && t.at.size == t.size
    ensures Rep(t)
  {
  }

  /** kavl_size_child */
  function SizeChild(q: Node, dir: bool): int
    reads q, q.p0, q.p1
  {
    var c := q.P(dir);
    if c == null then 0 else c.size
  }

  lemma {:induction false} SizeChildOk(t: Tree, dir: bool)
    requires t.Bin? && Rep(t)
    ensures SizeChild(t.at, dir) == Size(Kid(t, dir))
  {
    KidsRep(t, dir);
  }

  ghost function FrameNodes(f: Frame): set<Node> {
    {f.at} + Nodes(f.sib)
  }

  /** Memory holds the frame, whose open side points to q. */
  ghost predicate FrameRep(f: Frame, q: Node?)
    reads FrameNodes(f)
  {
    && f.at.P(f.dir) == q && f.at.P(!f.dir) == Ptr(f.sib) && f.at.balance == f.bal && f.at.size == f.size
    && Rep(f.sib)
  }

  // ----- paths: frames from the root down -----

  ghost function PathNodes(c: seq<Frame>): set<Node> {
    set i, n | 0 <= i < |c| && n in FrameNodes(c[i]) :: n
  }

  ghost function Below(c: seq<Frame>, i: nat, q: Node?): Node?
    requires i < |c|
  {
    if i + 1 < |c| then c[i + 1].at else q
  }

  ghost predicate PathRep(c: seq<Frame>, q: Node?)
    reads PathNodes(c)
  {
    forall i {:trigger Below(c, i, q)} | 0 <= i < |c| :: FrameRep(c[i], Below(c, i, q))
  }

  twostate lemma PathRepUnchanged(new c: seq<Frame>, new q: Node?)
    requires old(allocated(c)) && old(allocated(q)) && old(PathRep(c, q)) && old(allocated(PathNodes(c))) &&
             unchanged(PathNodes(c))
    ensures PathRep(c, q)
  {
    forall j | 0 <= j < |c| ensures FrameRep(c[j], Below(c, j, q)) {
      assert old(FrameRep(c[j], Below(c, j, q)));
      assert FrameNodes(c[j]) <= PathNodes(c);
      RepUnchanged(c[j].sib);
    }
  }

  /** The frames are well formed and share no node. */
  ghost predicate Apart(c: seq<Frame>) {
    && (forall i | 0 <= i < |c| :: Distinct(c[i].sib) && c[i].at !in Nodes(c[i].sib))
    && (forall i, j | 0 <= i < j < |c| :: FrameNodes(c[i]) !! FrameNodes(c[j]))
  }

  /** The tree with t at the end of the path. */
  ghost function Plug(c: seq<Frame>, t: Tree): Tree {
    if c == [] then t else Plug(c[..|c| - 1], Fill(c[|c| - 1], t))
  }

  lemma {:induction false} PlugPtr(c: seq<Frame>, t: Tree)
    ensures Ptr(Plug(c, t)) == if c == [] then Ptr(t) else c[0].at
  {
    if c != [] { PlugPtr(c[..|c| - 1], Fill(c[|c| - 1], t)); }
  }

  lemma {:induction false} PlugRep(c: seq<Frame>, t: Tree)
    requires PathRep(c, Ptr(t)) && Rep(t)
    ensures Rep(Plug(c, t))
    ensures Ptr(Plug(c, t)) == if c == [] then Ptr(t) else c[0].at
  {
    if c != [] {
      var n := |c| - 1;
      assert FrameRep(c[n], Below(c, n, Ptr(t)));
      forall i | 0 <= i < n ensures FrameRep(c[..n][i], Below(c[..n], i, c[n].at)) {
        assert FrameRep(c[i], Below(c, i, Ptr(t)));
      }
      PlugRep(c[..n], Fill(c[n], t));
    }
  }

  lemma PathNodesPush(c: seq<Frame>, f: Frame)
    ensures PathNodes(c + [f]) == PathNodes(c) + FrameNodes(f)
  {
    var d := c + [f];
    forall n | n in PathNodes(c) ensures n in PathNodes(d) {
      var i :| 0 <= i < |c| && n in FrameNodes(c[i]);
      assert d[i] == c[i];
    }
    forall n | n in FrameNodes(f) ensures n in PathNodes(d) {
      assert d[|c|] == f;
    }
  }

  lemma {:induction false} PlugDistinct(c: seq<Frame>, t: Tree)
    requires Apart(c) && Distinct(t) && PathNodes(c) !! Nodes(t)
    ensures Distinct(Plug(c, t)) && Nodes(Plug(c, t)) == PathNodes(c) + Nodes(t)
  {
    if c != [] {
      var n := |c| - 1;
      assert c == c[..n] + [c[n]];
      PathNodesPush(c[..n], c[n]);
      assert PathNodes(c[..n]) !! FrameNodes(c[n]);
      PlugDistinct(c[..n], Fill(c[n], t));
    }
  }

  lemma {:induction false} PlugSplit(c: seq<Frame>, k: nat, t: Tree)
    requires k <= |c|
    ensures Plug(c, t) == Plug(c[..k], Plug(c[k..], t))
    decreases |c|
  {
    if k < |c| {
      var n := |c| - 1;
      PlugSplit(c[..n], k, Fill(c[n], t));
      assert c[..n][..k] == c[..k] && c[k..][..n - k] == c[..n][k..];
    } else {
      assert c[..k] == c && c[k..] == [];
    }
  }

  /** Cutting a represented path in two. */
  lemma PathRepSplit(c: seq<Frame>, k: nat, q: Node?)
    requires PathRep(c, q) && k < |c|
    ensures PathRep(c[..k], c[k].at) && PathRep(c[k..], q)
  {
    forall i | 0 <= i < k ensures FrameRep(c[..k][i], Below(c[..k], i, c[k].at)) {
      assert FrameRep(c[i], Below(c, i, q));
    }
    forall i | 0 <= i < |c| - k ensures FrameRep(c[k..][i], Below(c[k..], i, q)) {
      assert FrameRep(c[k + i], Below(c, k + i, q));
    }
  }

  lemma ApartSplit(c: seq<Frame>, k: nat)
    requires Apart(c) && k <= |c|
    ensures Apart(c[..k]) && Apart(c[k..]) && PathNodes(c[..k]) !! PathNodes(c[k..])
    ensures PathNodes(c[..k]) + PathNodes(c[k..]) == PathNodes(c)
  {
    var a, b := c[..k], c[k..];
    assert forall i | 0 <= i < |a| :: a[i] == c[i];
    assert forall i | 0 <= i < |b| :: b[i] == c[k + i];
    forall n | n in PathNodes(c) ensures n in PathNodes(a) + PathNodes(b) {
      var i :| 0 <= i < |c| && n in FrameNodes(c[i]);
      if i < k { assert a[i] == c[i]; } else { assert b[i - k] == c[i]; }
    }
  }

  lemma PathRepAppend(a: seq<Frame>, f: Frame, q: Node?)
    requires PathRep(a, f.at) && FrameRep(f, q)
    ensures PathRep(a + [f], q)
  {
    var d := a + [f];
    forall i | 0 <= i < |d| ensures FrameRep(d[i], Below(d, i, q)) {
      if i < |a| { assert FrameRep(a[i], Below(a, i, f.at)); }
    }
  }

  lemma PathRepConcat(a: seq<Frame>, b: seq<Frame>, q: Node?)
    requires b != [] && PathRep(a, b[0].at) && PathRep(b, q)
    ensures PathRep(a + b, q)
  {
    var d := a + b;
    forall i | 0 <= i < |d| ensures FrameRep(d[i], Below(d, i, q)) {
      if i < |a| {
        assert FrameRep(a[i], Below(a, i, b[0].at));
      } else {
        assert FrameRep(b[i - |a|], Below(b, i - |a|, q));
      }
    }
  }

  lemma ApartAppend(a: seq<Frame>, f: Frame)
    requires Apart(a) && Distinct(f.sib) && f.at !in Nodes(f.sib) && PathNodes(a) !! FrameNodes(f)
    ensures Apart(a + [f])
  {
    forall i | 0 <= i < |a| ensures FrameNodes(a[i]) !! FrameNodes(f) {
      assert FrameNodes(a[i]) <= PathNodes(a);
    }
  }

  lemma {:induction false} ApartConcat(a: seq<Frame>, b: seq<Frame>)
    requires Apart(a) && Apart(b) && PathNodes(a) !! PathNodes(b)
    ensures Apart(a + b) && PathNodes(a + b) == PathNodes(a) + PathNodes(b)
  {
    if b == [] {
      assert a + b == a;
    } else {
      var n := |b| - 1;
      assert b == b[..n] + [b[n]] && a + b == (a + b[..n]) + [b[n]];
      ApartSplit(b, n);
      PathNodesPush(b[..n], b[n]);
      ApartConcat(a, b[..n]);
      PathNodesPush(a + b[..n], b[n]);
      assert FrameNodes(b[n]) !! PathNodes(b[..n]) by { assert b[n..] == [b[n]]; assert b[n..][0] == b[n]; }
      ApartAppend(a + b[..n], b[n]);
    }
  }

  /** However a tree without sharing is cut open, the pieces do not share either. */
  lemma {:induction false} ApartAny(c: seq<Frame>, t: Tree)
    requires Distinct(Plug(c, t))
    ensures Apart(c) && Distinct(t) && PathNodes(c) !! Nodes(t) && PathNodes(c) + Nodes(t) == Nodes(Plug(c, t))
    decreases |c|
  {
    if c != [] {
      var n := |c| - 1;
      ApartAny(c[..n], Fill(c[n], t));
      KidsDistinct(Fill(c[n], t), c[n].dir);
      assert c == c[..n] + [c[n]];
      ApartAppend(c[..n], c[n]);
      PathNodesPush(c[..n], c[n]);
    }
  }
}
