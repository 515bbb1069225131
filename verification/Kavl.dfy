/** The AVL tree of upstream/nfq/kavl.h on nodes in memory, with its path stacks, proved to compute
    the textbook operations of AvlTree. */
module Kavl {
  import opened BitKeys
  import opened AvlTree
  import opened AvlSearch
  import opened KavlMemory
  import opened AvlPaths
  import opened KavlSteps
  import opened KavlErase

  // ----- insertion -----

  /** One node of the path now leans more to the side the path takes. */
  method LeanAt(n: Node, dir: bool, ghost c: seq<Frame>, ghost i: nat, ghost q: Node?) returns (ghost d: seq<Frame>)
    requires i < |c| && n == c[i].at && dir == c[i].dir && Apart(c) && PathRep(c, q)
    modifies n`balance
    ensures d == c[i := Leaned(c[i])]
    ensures Apart(d) && PathRep(d, q)
  {
    assert FrameRep(c[i], Below(c, i, q));
    if !dir { n.balance := n.balance - 1; } else { n.balance := n.balance + 1; }
    UpdateAt(c, i, Leaned(c[i]), q);
    d := c[i := Leaned(c[i])];
    SameShapeApart(c, d);
  }

  /** The loop that updates balance factors from bp down to the new node x. */
  method LeanPath(bp: Node, x: Node, stack: seq<bool>, ghost c: seq<Frame>, ghost k: nat)
    returns (ghost d: seq<Frame>)
    requires k < |c| && bp == c[k].at && Apart(c) && PathRep(c, x)
    requires forall i | 0 <= i < |c| :: c[i].at != x
    requires |c| - k <= |stack| && forall i | k <= i < |c| :: stack[i - k] == c[i].dir
    modifies Ats(c)`balance
    ensures LeanedFrom(c, d, k, |c|) && Apart(d) && PathRep(d, x)
  {
    var p, top := bp, 0;
    d := c;
    while p != x
      invariant 0 <= top <= |c| - k && p == At(c, k + top, x)
      invariant LeanedFrom(c, d, k, k + top) && Apart(d) && PathRep(d, x)
      decreases |c| - top
    {
      ghost var i := k + top;
      assert c[i].at in Ats(c) && stack[top] == c[i].dir;
      d := LeanAt(p, stack[top], d, i, x);
      assert FrameRep(d[i], Below(d, i, x));
      assert p.P(stack[top]) == At(c, i + 1, x);
      p := p.P(stack[top]);
      top := top + 1;
    }
  }

  /** The lowest node of the path that is not in balance, or its top if all are. */
  ghost function BpIndex(c: seq<Frame>): (k: nat)
    ensures c == [] ==> k == 0
    ensures c != [] ==> k < |c|
  {
    if c == [] then 0
    else if c[|c| - 1].bal != 0 then |c| - 1
    else BpIndex(c[..|c| - 1])
  }

  /** The variables of the descent as functions of the path. */
  ghost function BpOf(c: seq<Frame>, root: Node?): Node? {
    if c == [] then root else c[BpIndex(c)].at
  }

  ghost function BqOf(c: seq<Frame>): Node? {
    if BpIndex(c) == 0 then null else c[BpIndex(c) - 1].at
  }

  ghost function QOf(c: seq<Frame>): Node? {
    if c == [] then null else c[|c| - 1].at
  }

  ghost function WhichOf(c: seq<Frame>): bool {
    c != [] && c[|c| - 1].dir
  }

  ghost function DirsOf(c: seq<Frame>): seq<bool> {
    if c == [] then []
    else (if c[|c| - 1].bal != 0 then [] else DirsOf(c[..|c| - 1])) + [c[|c| - 1].dir]
  }

  lemma {:induction false} BpIndexOk(c: seq<Frame>)
    ensures LowestLeaning(c, BpIndex(c)) && |DirsOf(c)| == |c| - BpIndex(c)
    ensures forall i | BpIndex(c) <= i < |c| :: DirsOf(c)[i - BpIndex(c)] == c[i].dir
  {
    if c != [] { BpIndexOk(c[..|c| - 1]); }
  }

  lemma {:induction false} BpStep(c: seq<Frame>, root: Node?, f: Frame)
    requires c == [] ==> root == f.at
    ensures var c' := c + [f];
      if f.bal != 0 then BpOf(c', root) == f.at && BqOf(c') == QOf(c) && DirsOf(c') == [f.dir]
      else BpOf(c', root) == BpOf(c, root) && BqOf(c') == BqOf(c) && DirsOf(c') == DirsOf(c) + [f.dir]
    ensures PathOf(c + [f]) == PathOf(c) + [f.at] && QOf(c + [f]) == f.at && WhichOf(c + [f]) == f.dir
  {
    assert (c + [f])[..|c|] == c;
  }

  /** The first loop of kavl_insert: find the insertion location. `path` and `stack` are the local
      arrays of KAVL_MAX_DEPTH entries, `stack` holding the directions from bp down. */
  method FindPlace(root: Node?, x: Node, ghost tree: Tree)
    returns (p: Node?, q: Node?, bp: Node?, bq: Node?, which: bool, stack: seq<bool>, path: seq<Node>, cnt: int,
             ghost c: seq<Frame>)
    requires Rep(tree) && root == Ptr(tree) && Avl(tree) && Height(tree) <= KAVL_MAX_DEPTH
    ensures p != null <==> Hits(tree, ByKey(x.key))
    ensures p != null ==> p == HitNode(tree, ByKey(x.key)) && cnt == HitPos(tree, ByKey(x.key)) + 1
    ensures p == null ==>
      && Plug(c, Leaf) == tree && path == PathOf(c)
      && bp == BpOf(c, root) && bq == BqOf(c) && q == QOf(c) && which == WhichOf(c)
      && stack == DirsOf(c)
      && FoldGrow(c, Ins(Leaf, x)) == Ins(tree, x) && cnt == Pos(tree, x.key)
  {
    bp, bq, p, q, which, stack, path, cnt := root, null, root, null, false, [], [], 0;
    ghost var t := tree;
    c := [];
    while p != null
      invariant p == Ptr(t) && Reached(tree, c, t)
      invariant bp == BpOf(c, root) && bq == BqOf(c) && q == QOf(c) && which == WhichOf(c)
      invariant |path| == |c| && |stack| <= |c|
      invariant stack == DirsOf(c) && path == PathOf(c) && (c == [] ==> p == root)
      invariant Seeking(tree, c, t, x, cnt)
      decreases t
    {
      var cmp := Cmp(x.key, p.key);
      ghost var cnt0 := cnt;
      ReachedStep(tree, c, t, cmp > 0);
      if cmp >= 0 { cnt := cnt + SizeChild(p, false) + 1; }
      if cmp == 0 {
        SeekingEnd(tree, c, t, x, cnt0);
        return;
      }
      ghost var f := Split(t, cmp > 0);
      BpStep(c, root, f);
      SeekingStep(tree, c, t, x, cnt0);
      if p.balance != 0 {
        bq, bp, stack := q, p, [];
      }
      which := cmp > 0;
      assert |stack| < KAVL_MAX_DEPTH && |path| < KAVL_MAX_DEPTH;
      stack, path := stack + [which], path + [p];
      c, t := c + [f], Kid(t, which);
      q, p := p, p.P(which);
    }
  }

  /** The re-balancing at the end of kavl_insert. */
  method GrowRebalance(bp: Node, ghost t: Tree) returns (r: Node)
    requires t.Bin? && t.at == bp && Rep(t) && Distinct(t)
    requires (t.bal == 2 || t.bal == -2) && Avl(GrowFix(t))
    modifies Nodes(t)
    ensures Rep(GrowFix(t)) && r == Ptr(GrowFix(t))
  {
    var which := bp.balance < 0;
    var b1 := if which then -1 else 1;
    KidsRep(t, which);
    KidsRep(Kid(t, !which), which);
    if bp.P(!which).balance == b1 {
      r := RotateOnce(bp, which, 0, 0, t);
    } else {
      r := RotateTwice(bp, which, t);
    }
  }

  /** The path after both loops of kavl_insert. */
  ghost predicate Grown(c: seq<Frame>, d: seq<Frame>, k: nat) {
    && |d| == |c|
    && forall i | 0 <= i < |c| :: d[i] == (if i < k then c[i] else Leaned(c[i])).(size := c[i].size + 1)
  }

  /** After the sizes have been updated, everything is in place to update the balance factors. */
  lemma {:induction false} LeanReady(c: seq<Frame>, c1: seq<Frame>, x: Node, bp: Node, stack: seq<bool>)
    requires SameShape(c, c1) && c != [] && x !in Ats(c) && bp == BpOf(c, null) && stack == DirsOf(c)
    ensures BpIndex(c) < |c1| && bp == c1[BpIndex(c)].at && |c1| - BpIndex(c) <= |stack|
    ensures forall i | 0 <= i < |c1| :: c1[i].at != x
    ensures forall i | BpIndex(c) <= i < |c1| :: stack[i - BpIndex(c)] == c1[i].dir
  {
    BpIndexOk(c);
    forall i | 0 <= i < |c1| ensures c1[i].at != x {
      assert c1[i].at == c[i].at && c[i].at in Ats(c);
    }
  }

  /** The path that cuts a tree open where a new node belongs. */
  lemma {:induction false} OpenAt(tree: Tree, c: seq<Frame>)
    requires Plug(c, Leaf) == tree && Rep(tree) && Avl(tree) && Distinct(tree)
    ensures Apart(c) && PathRep(c, null) && PathNodes(c) <= Nodes(tree)
    ensures c != [] ==> Ptr(tree) == c[0].at && QOf(c) in PathNodes(c)
    ensures forall i | 0 <= i < |c| :: -1 <= c[i].bal <= 1
  {
    DescentAny(tree, c, Leaf);
    PathRepAny(c, Leaf);
    PlugPtr(c, Leaf);
    AtsInPath(c);
    assert c != [] ==> c[|c| - 1].at in Ats(c);
  }

  lemma ResizedLeaned(c: seq<Frame>, c1: seq<Frame>, d: seq<Frame>, k: nat)
    requires Resized(c, c1, 0, |c|, 1) && LeanedFrom(c1, d, k, |c|)
    ensures Grown(c, d, k) && SameShape(c, d)
  {
    forall i | 0 <= i < |c|
      ensures d[i] == (if i < k then c[i] else Leaned(c[i])).(size := c[i].size + 1)
    {
      assert c1[i] == c[i].(size := c[i].size + 1);
    }
  }

  lemma {:induction false} GrownPath(c: seq<Frame>, d: seq<Frame>, k: nat)
    requires c != [] && SameShape(c, d) && k == BpIndex(c)
    ensures d[k].at == BpOf(c, null) && QOf(d[..k]) == BqOf(c) && d[0].at == c[0].at
  {
  }

  class KavlTree {
    var root: Node?
    ghost var tree: Tree

    ghost predicate Valid()
      reads this, Nodes(tree)
    {
      && root == Ptr(tree) && Rep(tree) && Avl(tree)
      && Sorted(Inorder(tree)) && Count(tree) < MAX_NODES
    }

    constructor ()
      ensures Valid() && tree == Leaf
    {
      root, tree := null, Leaf;
    }

    /** The new node hangs below the last node of the path, or is the root. */
    method Attach(x: Node, q: Node?, which: bool, ghost c: seq<Frame>)
      requires Apart(c) && PathRep(c, null) && x !in PathNodes(c) && q == QOf(c)
      requires which == WhichOf(c)
      modifies this`root, x, if q == null then {} else {q}
      ensures PathRep(c, x) && root == (if c == [] then x else old(root))
      ensures Rep(Bin(x, 0, 1, Leaf, Leaf))
    {
      x.balance, x.size, x.p0, x.p1 := 0, 1, null, null;
      if q == null {
        root := x;
      } else {
        assert FrameRep(c[|c| - 1], Below(c, |c| - 1, null));
        assert q in FrameNodes(c[|c| - 1]) && q in PathNodes(c);
        q.SetP(which, x);
        RelinkEnd(c, null, x);
      }
    }

    /** The re-balanced subtree t takes the place of the one at bp, below bq or as the root. */
    method Relink(bp: Node, bq: Node?, r: Node, ghost c: seq<Frame>, ghost t: Tree)
      requires Apart(c) && PathRep(c, bp) && bq == QOf(c) && bp !in PathNodes(c)
      requires t.Bin? && r == t.at && Rep(t) && Nodes(t) !! PathNodes(c)
      requires c != [] ==> root == c[0].at
      modifies this`root, if bq == null then {} else {bq}
      ensures Rep(Plug(c, t)) && root == Ptr(Plug(c, t))
    {
      if bq == null {
        root := r;
      } else {
        ghost var f := c[|c| - 1];
        assert FrameRep(f, Below(c, |c| - 1, bp));
        assert FrameNodes(f) <= PathNodes(c);
        assert f.sib.Bin? ==> f.sib.at in FrameNodes(f);
        bq.SetP(bp != bq.p0, r);
        RelinkEnd(c, bp, r);
        RepUnchanged(t);
      }
      PlugRep(c, t);
    }

    /** The loops of kavl_insert that update sizes and balance factors. */
    method GrowPath(x: Node, bp: Node, stack: seq<bool>, path: seq<Node>, ghost c: seq<Frame>)
      returns (ghost d: seq<Frame>)
      requires Apart(c) && PathRep(c, x) && c != [] && x !in Ats(c)
      requires bp == BpOf(c, null) && stack == DirsOf(c) && path == PathOf(c)
      modifies Ats(c)
      ensures Apart(d) && PathRep(d, x) && Grown(c, d, BpIndex(c)) && SameShape(c, d)
    {
      PathOfOk(c);
      ghost var c1 := ResizePath(path, 0, |path|, 1, c, x);
      SameShapeApart(c, c1);
      LeanReady(c, c1, x, bp, stack);
      d := LeanPath(bp, x, stack, c1, BpIndex(c));
      ResizedLeaned(c, c1, d, BpIndex(c));
    }

    /** The end of kavl_insert: one re-balancing where it is needed. */
    method FinishGrow(bp: Node, bq: Node?, ghost x: Node, ghost d: seq<Frame>, ghost k: nat, ghost leaf: Tree)
      requires k < |d| && Apart(d) && PathRep(d, x) && bp == d[k].at && bq == QOf(d[..k]) && root == d[0].at
      requires leaf.Bin? && leaf.at == x && Rep(leaf) && Distinct(leaf) && Nodes(leaf) !! PathNodes(d)
      requires var t := Plug(d[k..], leaf); t.Bin? && t.at == bp && -2 <= t.bal <= 2
      requires var t := Plug(d[k..], leaf); Avl(Plug(d[..k], if -2 < t.bal < 2 then t else GrowFix(t)))
      modifies this`root, PathNodes(d), Nodes(leaf)
      ensures var t := Plug(d[k..], leaf);
        var u := Plug(d[..k], if -2 < t.bal < 2 then t else GrowFix(t));
        root == Ptr(u) && Rep(u)
    {
      ghost var a, b, t := d[..k], d[k..], Plug(d[k..], leaf);
      PathRepSplit(d, k, x);
      ApartSplit(d, k);
      PlugRep(b, leaf);
      PlugDistinct(b, leaf);
      if -2 < bp.balance < 2 {
        PlugRep(a, t);
        return;
      }
      PlugAvl(a, GrowFix(t));
      GrowFixInorder(t);
      NodesAreInorder(t);
      NodesAreInorder(GrowFix(t));
      var r := GrowRebalance(bp, t);
      PathRepUnchanged(a, bp);
      Relink(bp, bq, r, a, GrowFix(t));
    }

    /** The second half of kavl_insert, once x hangs at the end of the path. */
    method GrowFrom(x: Node, bp: Node, bq: Node?, stack: seq<bool>, path: seq<Node>, ghost c: seq<Frame>, ghost t: Tree)
      requires c != [] && Apart(c) && PathRep(c, x) && root == c[0].at && x !in PathNodes(c)
      requires bp == BpOf(c, null) && bq == BqOf(c) && stack == DirsOf(c) && path == PathOf(c)
      requires Rep(Bin(x, 0, 1, Leaf, Leaf)) && forall i | 0 <= i < |c| :: -1 <= c[i].bal <= 1
      requires t == FoldGrow(c, Step(Bin(x, 0, 1, Leaf, Leaf), true)).t && Avl(t)
      modifies this`root, x, PathNodes(c)
      ensures root == Ptr(t) && Rep(t)
    {
      ghost var leaf, k := Bin(x, 0, 1, Leaf, Leaf), BpIndex(c);
      BpIndexOk(c);
      AtsInPath(c);
      ghost var d := GrowPath(x, bp, stack, path, c);
      RepUnchanged(leaf);
      SameShapeApart(c, d);
      FoldGrowOnce(c, k, d, leaf);
      GrownPath(c, d, k);
      FinishGrow(bp, bq, x, d, k, leaf);
    }

    /** kavl_insert */
    method Insert(x: Node) returns (v: Node, cnt: int)
      requires Valid() && x !in Nodes(tree) && Count(tree) + 1 < MAX_NODES
      modifies this, x, Nodes(tree)
      ensures Valid()
      ensures var t := old(tree);
        if Hits(t, ByKey(x.key)) then
          v == HitNode(t, ByKey(x.key)) && cnt == HitPos(t, ByKey(x.key)) + 1 && tree == t
        else
          v == x && cnt == Pos(t, x.key) && tree == Ins(t, x).t
    {
      SortedDistinct(tree);
      DepthBound(tree);
      var p, q, bp, bq, which, stack, path;
      ghost var c;
      p, q, bp, bq, which, stack, path, cnt, c := FindPlace(root, x, tree);
      RepUnchanged(tree);
      if p != null { return p, cnt; }
      v := x;
      ghost var t := Ins(tree, x).t;
      ghost var r := InsOk(tree, x);
      InsSorted(tree, x);
      OpenAt(tree, c);
      Attach(x, q, which, c);
      tree := t;
      if bp == null { return; }
      GrowFrom(x, bp, bq, stack, path, c, t);
    }

    /** The first half of kavl_erase; cnt includes the node found. */
    method Locate(g: Target, fake: Node)
      returns (p: Node?, path: seq<Node>, dir: seq<bool>, cnt: int, ghost c: seq<Frame>, ghost t: Tree)
      requires Rep(tree) && root == Ptr(tree) && Avl(tree) && Height(tree) + 1 <= KAVL_MAX_DEPTH
      requires g.First? ==> root != null
      ensures p != null <==> Hits(tree, g)
      ensures p == null ==> cnt == 0
      ensures p != null ==>
        && Plug(c, t) == tree && t.Bin? && p == t.at && FoldShrink(c, DelRoot(t)) == Del(tree, g)
        && Recorded(path, dir, fake, c)
        && p == HitNode(tree, g) && cnt == HitPos(tree, g) + 1
    {
      match g {
        case ByKey(x) =>
          p, path, dir, cnt, c, t := SeekKey(root, x, fake, tree);
          if p == null { return null, [], [], 0, [], Leaf; }
          RepUnchanged(tree);
          PathRepAny(c, t);
          SizeChildOk(t, false);
          PlugAvl(c, t);
          KidsOk(t, false);
          CountIsLength(t.l);
          cnt := cnt + SizeChild(p, false) + 1;
        case First =>
          FirstHits(tree);
          p, path, dir, c, t := SeekFirst(root, fake, tree);
          cnt := 1;
      }
    }

    /** kavl_erase; the target First stands for a null x. */
    method Erase(g: Target) returns (p: Node?, cnt: int)
      requires Valid() && (g.First? ==> root != null)
      modifies this, Nodes(tree)
      ensures Valid()
      ensures var t := old(tree);
        if Hits(t, g) then
          p == HitNode(t, g) && cnt == HitPos(t, g) + 1 && tree == Del(t, g).t
        else
          p == null && cnt == 0 && tree == t
    {
      SortedDistinct(tree);
      DepthBound(tree);
      var fake := new Node(Key(0, []));
      fake.p0 := root;
      RepUnchanged(tree);
      var path, dir;
      ghost var c, t;
      p, path, dir, cnt, c, t := Locate(g, fake);
      RepUnchanged(tree);
      if p == null { return; }
      ghost var r := DelOk(tree, g);
      DelSorted(tree, g);
      Take(p, path, dir, fake, tree, c, t);
      label taken:
      tree := r.t;
      root := fake.p0;
      RepUnchanged@taken(r.t);
    }

    /** kavl_find */
    method Find(x: Key) returns (p: Node?, cnt: int)
      requires Valid()
      ensures if Hits(tree, ByKey(x)) then p == HitNode(tree, ByKey(x)) && cnt == HitPos(tree, ByKey(x)) + 1
              else p == null && cnt == Pos(tree, x)
    {
      cnt := 0;
      p := root;
      ghost var t := tree;
      while p != null
        invariant Rep(t) && p == Ptr(t) && Avl(t)
        invariant Hits(t, ByKey(x)) == Hits(tree, ByKey(x))
        invariant if Hits(t, ByKey(x)) then
            HitNode(t, ByKey(x)) == HitNode(tree, ByKey(x)) && cnt + HitPos(t, ByKey(x)) == HitPos(tree, ByKey(x))
          else cnt + Pos(t, x) == Pos(tree, x)
        decreases t
      {
        var cmp := Cmp(x, p.key);
        SizeChildOk(t, false);
        KidsOk(t, false);
        KidsRep(t, false);
        CountIsLength(t.l);
        if cmp >= 0 { cnt := cnt + SizeChild(p, false) + 1; }
        if cmp < 0 {
          p, t := p.p0, t.l;
        } else if cmp > 0 {
          p, t := p.p1, t.r;
        } else {
          return;
        }
      }
    }
  }
}
