/** The recursive operations of AvlTree read along a search path, from its bottom up: this is the
    order in which the loops of kavl work. */
module AvlPaths {
  import opened BitKeys
  import opened AvlTree
  import opened KavlMemory

  ghost predicate Resized(c: seq<Frame>, d: seq<Frame>, lo: nat, hi: nat, delta: int) {
    && |d| == |c|
    && forall i | 0 <= i < |c| :: d[i] == if lo <= i < hi then c[i].(size := c[i].size + delta) else c[i]
  }

  ghost function Leaned(f: Frame): Frame {
    f.(bal := f.bal + if f.dir then 1 else -1)
  }

  ghost predicate LeanedFrom(c: seq<Frame>, d: seq<Frame>, lo: nat, hi: nat) {
    |d| == |c| && forall i | 0 <= i < |c| :: d[i] == if lo <= i < hi then Leaned(c[i]) else c[i]
  }

  // ----- insertion -----

  ghost function FoldGrow(c: seq<Frame>, s: Step): Step {
    if c == [] then s else
    var n := |c| - 1;
    FoldGrow(c[..n], GrowStep(c[n], s.t, s.moved))
  }

  lemma {:induction false} FoldGrowSplit(c: seq<Frame>, k: nat, s: Step)
    requires k <= |c|
    ensures FoldGrow(c, s) == FoldGrow(c[..k], FoldGrow(c[k..], s))
    decreases |c|
  {
    if k < |c| {
      var n := |c| - 1;
      FoldGrowSplit(c[..n], k, GrowStep(c[n], s.t, s.moved));
      assert c[..n][..k] == c[..k] && c[k..][..n - k] == c[..n][k..];
    } else {
      assert c[..k] == c && c[k..] == [];
    }
  }

  /** Above a subtree whose height did not change only sizes change. */
  lemma {:induction false} FoldGrowStill(c: seq<Frame>, d: seq<Frame>, t: Tree)
    requires Resized(c, d, 0, |c|, 1) && forall i | 0 <= i < |c| :: -1 <= c[i].bal <= 1
    ensures FoldGrow(c, Step(t, false)).t == Plug(d, t)
  {
    if c != [] {
      var n := |c| - 1;
      assert GrowStep(c[n], t, false) == Step(Fill(d[n], t), false);
      FoldGrowStill(c[..n], d[..n], Fill(d[n], t));
    }
  }

  /** Balanced nodes above a subtree that grew all lean towards it and grow in turn. */
  lemma {:induction false} FoldGrowLean(c: seq<Frame>, d: seq<Frame>, t: Tree)
    requires |d| == |c| && forall i | 0 <= i < |c| :: c[i].bal == 0 && d[i] == Leaned(c[i]).(size := c[i].size + 1)
    ensures FoldGrow(c, Step(t, true)) == Step(Plug(d, t), true)
  {
    if c != [] {
      var n := |c| - 1;
      assert GrowStep(c[n], t, true) == Step(Fill(d[n], t), true);
      FoldGrowLean(c[..n], d[..n], Fill(d[n], t));
    }
  }

  /** From the lowest unbalanced node down: everything leans, and at most that node needs re-balancing. */
  lemma {:induction false} FoldGrowBottom(c: seq<Frame>, d: seq<Frame>, leaf: Tree)
    requires |c| == |d| > 0 && -1 <= c[0].bal <= 1 && (forall i | 0 < i < |c| :: c[i].bal == 0)
    requires forall i | 0 <= i < |c| :: d[i] == Leaned(c[i]).(size := c[i].size + 1)
    ensures var t := Plug(d, leaf);
      && t.Bin? && t.at == c[0].at && t.bal == d[0].bal
      && FoldGrow(c, Step(leaf, true)) == if -2 < t.bal < 2 then Step(t, t.bal != 0) else Step(GrowFix(t), false)
  {
    FoldGrowSplit(c, 1, Step(leaf, true));
    FoldGrowLean(c[1..], d[1..], leaf);
    PlugSplit(d, 1, leaf);
    assert d[..1] == [d[0]] && c[..1] == [c[0]];
    var below := Plug(d[1..], leaf);
    assert Plug([d[0]], below) == Fill(d[0], below);
    assert FoldGrow([c[0]], Step(below, true)) == GrowStep(c[0], below, true);
  }

  /** What kavl_insert does along its path: sizes everywhere, balance factors from the lowest
      unbalanced node c[k] down, and one re-balancing there. */
  lemma {:induction false} FoldGrowOnce(c: seq<Frame>, k: nat, d: seq<Frame>, leaf: Tree)
    requires k < |c| && (forall i | 0 <= i < |c| :: -1 <= c[i].bal <= 1)
    requires (forall i | k < i < |c| :: c[i].bal == 0) && (k > 0 ==> c[k].bal != 0)
    requires |d| == |c|
    requires forall i | 0 <= i < |c| :: d[i] == (if i < k then c[i] else Leaned(c[i])).(size := c[i].size + 1)
    ensures var t := Plug(d[k..], leaf);
      && t.Bin? && t.at == c[k].at && t.bal == d[k].bal
      && FoldGrow(c, Step(leaf, true)).t == Plug(d[..k], if -2 < t.bal < 2 then t else GrowFix(t))
  {
    FoldGrowSplit(c, k, Step(leaf, true));
    FoldGrowBottom(c[k..], d[k..], leaf);
    var r := FoldGrow(c[k..], Step(leaf, true));
    if k > 0 {
      FoldGrowStill(c[..k], d[..k], r.t);
    } else {
      assert c[..k] == [] && d[..k] == [];
    }
  }

  // ----- deletion -----

  ghost function FixStep(f: Frame, s: Step): Step {
    if s.moved then ShrinkFix(f, s.t) else Step(Fill(f, s.t), false)
  }

  /** The last loop of kavl_erase over a path whose sizes are already right. */
  ghost function FoldFix(c: seq<Frame>, s: Step): Step {
    if c == [] then s else
    var n := |c| - 1;
    FoldFix(c[..n], FixStep(c[n], s))
  }

  ghost function FoldShrink(c: seq<Frame>, s: Step): Step {
    if c == [] then s else
    var n := |c| - 1;
    FoldShrink(c[..n], ShrinkStep(c[n], s.t, s.moved))
  }

  lemma {:induction false} FoldShrinkIsFix(c: seq<Frame>, d: seq<Frame>, s: Step)
    requires Resized(c, d, 0, |c|, -1)
    ensures FoldShrink(c, s) == FoldFix(d, s)
  {
    if c != [] {
      var n := |c| - 1;
      assert ShrinkStep(c[n], s.t, s.moved) == FixStep(d[n], s);
      FoldShrinkIsFix(c[..n], d[..n], FixStep(d[n], s));
    }
  }

  lemma {:induction false} FoldFixStill(c: seq<Frame>, t: Tree)
    ensures FoldFix(c, Step(t, false)) == Step(Plug(c, t), false)
  {
    if c != [] {
      FoldFixStill(c[..|c| - 1], Fill(c[|c| - 1], t));
    }
  }

  lemma {:induction false} FoldFixPush(c: seq<Frame>, f: Frame, s: Step)
    ensures FoldFix(c + [f], s) == FoldFix(c, FixStep(f, s))
  {
    assert (c + [f])[..|c|] == c;
  }

  lemma {:induction false} FoldFixSplit(c: seq<Frame>, k: nat, s: Step)
    requires k <= |c|
    ensures FoldFix(c, s) == FoldFix(c[..k], FoldFix(c[k..], s))
    decreases |c|
  {
    if k < |c| {
      var n := |c| - 1;
      FoldFixSplit(c[..n], k, FixStep(c[n], s));
      assert c[..n][..k] == c[..k] && c[k..][..n - k] == c[..n][k..];
    } else {
      assert c[..k] == c && c[k..] == [];
    }
  }

  // ----- going down -----

  /** The tree, cut open along c with t at the end. */
  ghost predicate Descent(tree: Tree, c: seq<Frame>, t: Tree) {
    && Plug(c, t) == tree
    && Apart(c) && PathNodes(c) !! Nodes(t) && Distinct(t) && PathNodes(c) + Nodes(t) == Nodes(tree)
    && (forall i | 0 <= i < |c| :: -1 <= c[i].bal <= 1)
    && Avl(t) && |c| + Height(t) <= Height(tree)
  }

  lemma DescentStep(tree: Tree, c: seq<Frame>, t: Tree, dir: bool)
    requires Descent(tree, c, t) && t.Bin?
    ensures Descent(tree, c + [Split(t, dir)], Kid(t, dir))
  {
    var f, c' := Split(t, dir), c + [Split(t, dir)];
    KidsOk(t, dir);
    KidsDistinct(t, dir);
    assert c'[..|c|] == c && Fill(f, Kid(t, dir)) == t;
    PathNodesPush(c, f);
    assert FrameNodes(f) <= Nodes(t);
    forall i | 0 <= i < |c| ensures FrameNodes(c'[i]) !! FrameNodes(f) {
      assert FrameNodes(c[i]) <= PathNodes(c);
    }
  }

  lemma {:induction false} PathRepPush(c: seq<Frame>, t: Tree, dir: bool)
    requires t.Bin? && PathRep(c, t.at) && Rep(t)
    ensures PathRep(c + [Split(t, dir)], Ptr(Kid(t, dir))) && Rep(Kid(t, dir))
  {
    var c' := c + [Split(t, dir)];
    KidsRep(t, dir);
    forall i | 0 <= i < |c'| ensures FrameRep(c'[i], Below(c', i, Ptr(Kid(t, dir)))) {
      if i < |c| { assert FrameRep(c[i], Below(c, i, t.at)); }
    }
  }

  /** Whatever path leads to t, it cuts the tree open properly. */
  lemma {:induction false} DescentAny(tree: Tree, c: seq<Frame>, t: Tree)
    requires Plug(c, t) == tree && Avl(tree) && Distinct(tree)
    ensures Descent(tree, c, t)
    decreases |c|
  {
    if c != [] {
      var n := |c| - 1;
      DescentAny(tree, c[..n], Fill(c[n], t));
      DescentStep(tree, c[..n], Fill(c[n], t), c[n].dir);
      assert c[..n] + [Split(Fill(c[n], t), c[n].dir)] == c;
    }
  }

  lemma {:induction false} PathRepAny(c: seq<Frame>, t: Tree)
    requires Rep(Plug(c, t))
    ensures PathRep(c, Ptr(t)) && Rep(t)
    decreases |c|
  {
    if c != [] {
      var n := |c| - 1;
      PathRepAny(c[..n], Fill(c[n], t));
      PathRepPush(c[..n], Fill(c[n], t), c[n].dir);
      assert c[..n] + [Split(Fill(c[n], t), c[n].dir)] == c;
    }
  }

  lemma {:induction false} PlugStep(c: seq<Frame>, t: Tree, dir: bool)
    requires t.Bin?
    ensures Plug(c + [Split(t, dir)], Kid(t, dir)) == Plug(c, t)
  {
    assert (c + [Split(t, dir)])[..|c|] == c && Fill(Split(t, dir), Kid(t, dir)) == t;
  }

  /** Where the descent stands. */
  ghost predicate Reached(tree: Tree, c: seq<Frame>, t: Tree)
    reads Nodes(t)
  {
    Plug(c, t) == tree && Rep(t) && Avl(t) && |c| + Height(t) <= Height(tree)
  }

  lemma {:induction false} ReachedStep(tree: Tree, c: seq<Frame>, t: Tree, dir: bool)
    requires Reached(tree, c, t) && t.Bin?
    ensures Reached(tree, c + [Split(t, dir)], Kid(t, dir))
    ensures t.at.P(dir) == Ptr(Kid(t, dir)) && SizeChild(t.at, false) == Size(t.l) && |c| < Height(tree)
  {
    KidsOk(t, dir);
    KidsRep(t, dir);
    SizeChildOk(t, false);
    PlugStep(c, t, dir);
  }

  lemma {:induction false} FoldShrinkPush(c: seq<Frame>, f: Frame, s: Step)
    ensures FoldShrink(c + [f], s) == FoldShrink(c, ShrinkStep(f, s.t, s.moved))
  {
    assert (c + [f])[..|c|] == c;
  }

  lemma {:induction false} FoldShrinkSplit(a: seq<Frame>, b: seq<Frame>, s: Step)
    ensures FoldShrink(a + b, s) == FoldShrink(a, FoldShrink(b, s))
  {
    if b == [] {
      assert a + b == a;
    } else {
      var n := |b| - 1;
      assert a + b == (a + b[..n]) + [b[n]];
      FoldShrinkPush(a + b[..n], b[n], s);
      FoldShrinkSplit(a, b[..n], ShrinkStep(b[n], s.t, s.moved));
    }
  }

  /** What the descent of kavl_erase has established when it has reached t with count cnt. */
  ghost predicate Chasing(tree: Tree, c: seq<Frame>, t: Tree, g: Target, cnt: int) {
    && Hits(t, g) == Hits(tree, g)
    && (Hits(t, g) ==>
        && FoldShrink(c, Del(t, g)) == Del(tree, g)
        && HitNode(t, g) == HitNode(tree, g) && cnt + HitPos(t, g) == HitPos(tree, g))
  }

  lemma ChasingStep(tree: Tree, c: seq<Frame>, t: Tree, g: Target, cnt: int)
    requires t.Bin? && Avl(t) && Chasing(tree, c, t, g, cnt) && Steer(g, t) != 0
    ensures var dir := Steer(g, t) > 0;
      Chasing(tree, c + [Split(t, dir)], Kid(t, dir), g, if dir then cnt + Size(t.l) + 1 else cnt)
  {
    var dir := Steer(g, t) > 0;
    var below := Del(Kid(t, dir), g);
    FoldShrinkPush(c, Split(t, dir), below);
    KidsOk(t, false);
    CountIsLength(t.l);
  }

  lemma ResizedConcat(a: seq<Frame>, a1: seq<Frame>, b: seq<Frame>, b1: seq<Frame>, delta: int)
    requires Resized(a, a1, 0, |a|, delta) && Resized(b, b1, 0, |b|, delta)
    ensures Resized(a + b, a1 + b1, 0, |a| + |b|, delta)
  {
  }

  /** The walk to the successor: from the root of t down b to u. */
  ghost predicate TowardsMin(t: Tree, b: seq<Frame>, u: Tree) {
    && t.Bin? && u.Bin? && Plug(b, u) == t
    && DelMin(t) == Cut(DelMin(u).min, FoldShrink(b, DelMin(u).rest))
  }

  lemma TowardsMinStep(t: Tree, b: seq<Frame>, u: Tree)
    requires TowardsMin(t, b, u) && u.l.Bin?
    ensures TowardsMin(t, b + [Split(u, false)], u.l)
  {
    PlugStep(b, u, false);
    FoldShrinkPush(b, Split(u, false), DelMin(u.l).rest);
  }

  /** Removing the root of t is shrinking along the path that ends where the successor u was. */
  lemma {:induction false} DelRootPath(t: Tree, b: seq<Frame>, u: Tree)
    requires t.Bin? && TowardsMin(t.r, b, u) && u.l.Leaf?
    ensures DelRoot(t) == FoldShrink([Split(t, true).(at := u.at)] + b, Step(u.r, true))
  {
    FoldShrinkSplit([Split(t, true).(at := u.at)], b, Step(u.r, true));
  }

  lemma {:induction false} FoldGrowPush(c: seq<Frame>, f: Frame, s: Step)
    ensures FoldGrow(c + [f], s) == FoldGrow(c, GrowStep(f, s.t, s.moved))
  {
    assert (c + [f])[..|c|] == c;
  }

  /** What the descent for x has established when it has reached t with count cnt. */
  ghost predicate Seeking(tree: Tree, c: seq<Frame>, t: Tree, x: Node, cnt: int) {
    && FoldGrow(c, Ins(t, x)) == Ins(tree, x)
    && cnt + Pos(t, x.key) == Pos(tree, x.key)
    && Hits(t, ByKey(x.key)) == Hits(tree, ByKey(x.key))
    && (Hits(t, ByKey(x.key)) ==>
        && HitNode(t, ByKey(x.key)) == HitNode(tree, ByKey(x.key))
        && cnt + HitPos(t, ByKey(x.key)) == HitPos(tree, ByKey(x.key)))
  }

  lemma SeekingStep(tree: Tree, c: seq<Frame>, t: Tree, x: Node, cnt: int)
    requires t.Bin? && Avl(t) && Seeking(tree, c, t, x, cnt) && Cmp(x.key, t.at.key) != 0
    ensures var dir := Cmp(x.key, t.at.key) > 0;
      Seeking(tree, c + [Split(t, dir)], Kid(t, dir), x, if dir then cnt + Size(t.l) + 1 else cnt)
  {
    var dir := Cmp(x.key, t.at.key) > 0;
    FoldGrowPush(c, Split(t, dir), Ins(Kid(t, dir), x));
    KidsOk(t, false);
    CountIsLength(t.l);
  }

  lemma {:induction false} SeekingEnd(tree: Tree, c: seq<Frame>, t: Tree, x: Node, cnt: int)
    requires t.Bin? && Avl(t) && Seeking(tree, c, t, x, cnt) && Cmp(x.key, t.at.key) == 0
    ensures Hits(tree, ByKey(x.key)) && t.at == HitNode(tree, ByKey(x.key))
    ensures cnt + Size(t.l) == HitPos(tree, ByKey(x.key))
  {
    KidsOk(t, false);
    CountIsLength(t.l);
  }

  /** k marks the lowest node of the path that is not in balance, or its top if all are. */
  ghost predicate LowestLeaning(c: seq<Frame>, k: nat) {
    if c == [] then k == 0
    else k < |c| && (forall i | k < i < |c| :: c[i].bal == 0) && (k > 0 ==> c[k].bal != 0)
  }

  lemma {:induction false} PlugAvl(c: seq<Frame>, t: Tree)
    requires Avl(Plug(c, t))
    ensures Avl(t)
  {
    if c != [] {
      var f := c[|c| - 1];
      PlugAvl(c[..|c| - 1], Fill(f, t));
      KidsOk(Fill(f, t), f.dir);
    }
  }
}
