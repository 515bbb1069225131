/** The parts kavl_insert and kavl_erase share: rotations, and loops over the path arrays. */
module KavlSteps {
  import opened BitKeys
  import opened AvlTree
  import opened KavlMemory
  import opened AvlPaths

  const KAVL_MAX_DEPTH := 64

  // ----- rotations -----

  /** kavl_rotate1: what it does to the fields of the two nodes involved. */
  method Relink1(p: Node, dir: bool, ghost q0: Node) returns (q: Node)
    requires p.P(!dir) == q0 && p != q0
    modifies p, q0
    ensures q == q0
    ensures q.P(dir) == p && q.P(!dir) == old(q0.P(!dir)) && q.size == old(p.size) && q.balance == old(q0.balance)
    ensures p.P(dir) == old(p.P(dir)) && p.P(!dir) == old(q0.P(dir)) && p.balance == old(p.balance)
    ensures p.size == old(p.size) - (old(q0.size) - old(SizeChild(q0, dir)))
  {
    q := p.P(!dir);
    var sizeP := p.size;
    p.size := p.size - (q.size - SizeChild(q, dir));
    q.size := sizeP;
    p.SetP(!dir, q.P(dir));
    q.SetP(dir, p);
  }

  /** kavl_rotate1 and the new balance factors its callers give to the two nodes. */
  method RotateOnce(p: Node, dir: bool, pb: int, qb: int, ghost t: Tree) returns (q: Node)
    requires t.Bin? && t.at == p && Kid(t, !dir).Bin? && Rep(t) && Distinct(t)
    modifies p, Kid(t, !dir).at
    ensures Rep(Rotate1With(t, dir, pb, qb)) && q == Rotate1With(t, dir, pb, qb).at
  {
    ghost var a, tq := Kid(t, dir), Kid(t, !dir);
    ghost var b, c := Kid(tq, dir), Kid(tq, !dir);
    KidsDistinct(t, dir);
    KidsDistinct(tq, dir);
    KidsRep(t, dir);
    KidsRep(tq, dir);
    SizeChildOk(tq, dir);
    q := Relink1(p, dir, tq.at);
    q.balance, p.balance := qb, pb;
    RepUnchanged(a);
    RepUnchanged(b);
    RepUnchanged(c);
    ghost var t' := Rotate1With(t, dir, pb, qb);
    MakeRep(Kid(t', dir), dir);
    MakeRep(t', dir);
  }

  /** kavl_rotate2: what it does to the fields of the three nodes involved. */
  method Relink2(p: Node, dir: bool, ghost q0: Node, ghost r0: Node) returns (r: Node)
    requires p.P(!dir) == q0 && q0.P(dir) == r0 && p != q0 && p != r0 && q0 != r0
    modifies p, q0, r0
    ensures r == r0
    ensures r.P(dir) == p && r.P(!dir) == q0 && r.size == old(p.size) && r.balance == 0
    ensures p.P(dir) == old(p.P(dir)) && p.P(!dir) == old(r0.P(dir))
    ensures p.size == old(p.size) - (old(q0.size) - old(SizeChild(r0, dir)))
    ensures q0.P(dir) == old(r0.P(!dir)) && q0.P(!dir) == old(q0.P(!dir))
    ensures q0.size == old(q0.size) - (old(SizeChild(r0, dir)) + 1)
    ensures var b1 := if dir then -1 else 1;
      && q0.balance == (if old(r0.balance) == b1 || old(r0.balance) == 0 then 0 else b1)
      && p.balance == (if old(r0.balance) == b1 then -b1 else 0)
  {
    var q := p.P(!dir);
    r := q.P(dir);
    var sizeXDir := SizeChild(r, dir);
    r.size := p.size;
    p.size := p.size - (q.size - sizeXDir);
    q.size := q.size - (sizeXDir + 1);
    p.SetP(!dir, r.P(dir));
    r.SetP(dir, p);
    q.SetP(dir, r.P(!dir));
    r.SetP(!dir, q);
    var b1 := if dir then -1 else 1;
    if r.balance == b1 {
      q.balance, p.balance := 0, -b1;
    } else if r.balance == 0 {
      q.balance, p.balance := 0, 0;
    } else {
      q.balance, p.balance := b1, 0;
    }
    r.balance := 0;
  }

  method RotateTwice(p: Node, dir: bool, ghost t: Tree) returns (r: Node)
    requires CanRotate2(t, dir) && t.at == p && Rep(t) && Distinct(t)
    modifies p, Kid(t, !dir).at, Kid(Kid(t, !dir), dir).at
    ensures Rep(Rotate2(t, dir)) && r == Rotate2(t, dir).at
  {
    ghost var a, tq := Kid(t, dir), Kid(t, !dir);
    ghost var tr, d := Kid(tq, dir), Kid(tq, !dir);
    ghost var b, c := Kid(tr, dir), Kid(tr, !dir);
    KidsDistinct(t, dir);
    KidsDistinct(tq, dir);
    KidsDistinct(tr, dir);
    KidsRep(t, dir);
    KidsRep(tq, dir);
    KidsRep(tr, dir);
    SizeChildOk(tr, dir);
    r := Relink2(p, dir, tq.at, tr.at);
    RepUnchanged(a);
    RepUnchanged(b);
    RepUnchanged(c);
    RepUnchanged(d);
    ghost var t' := Rotate2(t, dir);
    MakeRep(Kid(t', dir), dir);
    MakeRep(Kid(t', !dir), dir);
    MakeRep(t', dir);
  }

  // ----- paths as the code stores them -----

  ghost function PathOf(c: seq<Frame>): seq<Node> {
    if c == [] then [] else PathOf(c[..|c| - 1]) + [c[|c| - 1].at]
  }

  ghost function SidesOf(c: seq<Frame>): seq<bool> {
    if c == [] then [] else SidesOf(c[..|c| - 1]) + [c[|c| - 1].dir]
  }

  lemma {:induction false} PathOfOk(c: seq<Frame>)
    ensures |PathOf(c)| == |c| && OnPath(PathOf(c), c)
  {
    if c != [] { PathOfOk(c[..|c| - 1]); }
  }

  lemma {:induction false} SidesOfOk(c: seq<Frame>)
    ensures |SidesOf(c)| == |c| && forall i | 0 <= i < |c| :: SidesOf(c)[i] == c[i].dir
  {
    if c != [] { SidesOfOk(c[..|c| - 1]); }
  }

  lemma {:induction false} PushOk(c: seq<Frame>, f: Frame)
    ensures PathOf(c + [f]) == PathOf(c) + [f.at] && SidesOf(c + [f]) == SidesOf(c) + [f.dir]
  {
    assert (c + [f])[..|c|] == c;
  }

  lemma {:induction false} NodesOfConcat(a: seq<Frame>, b: seq<Frame>)
    ensures PathOf(a + b) == PathOf(a) + PathOf(b)
  {
    if b == [] {
      assert a + b == a;
    } else {
      var n := |b| - 1;
      NodesOfConcat(a, b[..n]);
      assert a + b == (a + b[..n]) + [b[n]];
      PushOk(a + b[..n], b[n]);
    }
  }

  lemma {:induction false} SidesOfConcat(a: seq<Frame>, b: seq<Frame>)
    ensures SidesOf(a + b) == SidesOf(a) + SidesOf(b)
  {
    if b == [] {
      assert a + b == a;
    } else {
      var n := |b| - 1;
      SidesOfConcat(a, b[..n]);
      assert a + b == (a + b[..n]) + [b[n]];
      PushOk(a + b[..n], b[n]);
    }
  }

  lemma {:induction false} PathOfConcat(a: seq<Frame>, b: seq<Frame>)
    ensures PathOf(a + b) == PathOf(a) + PathOf(b) && SidesOf(a + b) == SidesOf(a) + SidesOf(b)
  {
    NodesOfConcat(a, b);
    SidesOfConcat(a, b);
  }

  lemma {:induction false} PathOfCons(f: Frame, c: seq<Frame>)
    ensures PathOf([f] + c) == [f.at] + PathOf(c) && SidesOf([f] + c) == [f.dir] + SidesOf(c)
  {
    PathOfConcat([f], c);
    assert PathOf([f]) == [f.at] && SidesOf([f]) == [f.dir];
  }

  ghost predicate OnPath(ps: seq<Node>, c: seq<Frame>) {
    |ps| <= |c| && forall i | 0 <= i < |ps| :: ps[i] == c[i].at
  }

  ghost function At(c: seq<Frame>, i: nat, q: Node): Node
    requires i <= |c|
  {
    if i < |c| then c[i].at else q
  }

  ghost function Ats(c: seq<Frame>): set<Node> {
    set i | 0 <= i < |c| :: c[i].at
  }

  /** The paths differ at most in balance factors and sizes. */
  ghost predicate SameShape(c: seq<Frame>, d: seq<Frame>) {
    |c| == |d| && forall i | 0 <= i < |c| :: d[i].at == c[i].at && d[i].dir == c[i].dir && d[i].sib == c[i].sib
  }

  lemma AtsInPath(c: seq<Frame>)
    ensures Ats(c) <= PathNodes(c)
  {
    forall i | 0 <= i < |c| ensures c[i].at in PathNodes(c) { assert c[i].at in FrameNodes(c[i]); }
  }

  lemma SameShapeApart(c: seq<Frame>, d: seq<Frame>)
    requires SameShape(c, d)
    ensures Apart(c) ==> Apart(d)
    ensures PathNodes(c) == PathNodes(d) && Ats(c) == Ats(d)
  {
    assert forall i | 0 <= i < |c| :: FrameNodes(d[i]) == FrameNodes(c[i]);
  }

  lemma {:induction false} SameShapePath(c: seq<Frame>, d: seq<Frame>)
    requires SameShape(c, d)
    ensures PathOf(c) == PathOf(d) && SidesOf(c) == SidesOf(d)
  {
    if c != [] { SameShapePath(c[..|c| - 1], d[..|d| - 1]); }
  }

  // ----- changing memory along a path -----

  /** Changing balance or size of one node on the path leaves the rest represented. */
  twostate lemma UpdateAt(new c: seq<Frame>, i: nat, new f: Frame, new q: Node?)
    requires old(allocated(c)) && old(allocated(q)) && old(allocated(PathNodes(c)))
    requires i < |c| && Apart(c) && old(PathRep(c, q))
    requires f.at == c[i].at && f.dir == c[i].dir && f.sib == c[i].sib
    requires unchanged(PathNodes(c) - {f.at}) && f.at.p0 == old(f.at.p0) && f.at.p1 == old(f.at.p1)
    requires f.at.balance == f.bal && f.at.size == f.size
    ensures PathRep(c[i := f], q)
  {
    var d := c[i := f];
    forall j | 0 <= j < |d| ensures FrameRep(d[j], Below(d, j, q)) {
      assert old(FrameRep(c[j], Below(c, j, q)));
      assert Below(d, j, q) == Below(c, j, q);
      assert FrameNodes(c[j]) <= PathNodes(c) && (i == j || f.at !in FrameNodes(c[j]));
      RepUnchanged(c[j].sib);
    }
  }

  /** The open end of the path now points to q. */
  twostate lemma RelinkEnd(new c: seq<Frame>, new q0: Node?, new q: Node?)
    requires old(allocated(c)) && old(allocated(q0)) && old(allocated(PathNodes(c)))
    requires c != [] && Apart(c) && old(PathRep(c, q0))
    requires var f := c[|c| - 1];
      && unchanged(PathNodes(c) - {f.at}) && f.at.P(f.dir) == q && f.at.P(!f.dir) == old(f.at.P(!f.dir))
      && f.at.balance == old(f.at.balance) && f.at.size == old(f.at.size)
    ensures PathRep(c, q)
  {
    var n := |c| - 1;
    forall j | 0 <= j < |c| ensures FrameRep(c[j], Below(c, j, q)) {
      assert old(FrameRep(c[j], Below(c, j, q0)));
      assert FrameNodes(c[j]) <= PathNodes(c) && (n == j || c[n].at !in FrameNodes(c[j]));
      RepUnchanged(c[j].sib);
    }
  }

  /** One turn of a size loop. */
  method ResizeAt(n: Node, delta: int, ghost c: seq<Frame>, ghost i: nat, ghost q: Node?) returns (ghost d: seq<Frame>)
    requires i < |c| && n == c[i].at && Apart(c) && PathRep(c, q)
    modifies n`size
    ensures d == c[i := c[i].(size := c[i].size + delta)]
    ensures Apart(d) && PathRep(d, q)
  {
    assert FrameRep(c[i], Below(c, i, q));
    n.size := n.size + delta;
    UpdateAt(c, i, c[i].(size := c[i].size + delta), q);
    d := c[i := c[i].(size := c[i].size + delta)];
    SameShapeApart(c, d);
  }

  /** A loop that changes the sizes of the nodes from lo to hi on the path. */
  method ResizePath(path: seq<Node>, lo: nat, hi: nat, delta: int, ghost c: seq<Frame>, ghost q: Node?)
    returns (ghost d: seq<Frame>)
    requires lo <= hi <= |path| && OnPath(path, c) && Apart(c) && PathRep(c, q)
    modifies Ats(c)`size
    ensures Resized(c, d, lo, hi, delta) && SameShape(c, d) && Apart(d) && PathRep(d, q)
  {
    var i := lo;
    d := c;
    while i < hi
      invariant lo <= i <= hi
      invariant Resized(c, d, lo, i, delta) && Apart(d) && PathRep(d, q)
    {
      assert c[i].at in Ats(c);
      d := ResizeAt(path[i], delta, d, i, q);
      i := i + 1;
    }
  }
}
