/** Mathematical AVL trees over kavl nodes: the textbook recursive insertion and deletion that the
    loops of upstream/nfq/kavl.h are proved to compute, and what those do to order, balance and size. */
module AvlTree {
  import opened BitKeys

  /** struct kavl_bit_elem with its KAVL_HEAD: p[0], p[1], balance and size. */
  class Node {
    const key: Key
    var p0: Node?
    var p1: Node?
    var balance: int
    var size: int

    constructor (key: Key)
      ensures this.key == key && p0 == null && p1 == null
    {
      this.key := key;
      p0, p1, balance, size := null, null, 0, 0;
    }

    function P(dir: bool): Node?
      reads this
    {
      if dir then p1 else p0
    }

    method SetP(dir: bool, q: Node?)
      modifies this
      ensures P(dir) == q && P(!dir) == old(P(!dir))
      ensures balance == old(balance) && size == old(size)
    {
      if dir { p1 := q; } else { p0 := q; }
    }
  }

  datatype Tree = Leaf | Bin(at: Node, bal: int, size: int, l: Tree, r: Tree)

  /** A rebuilt subtree, and whether its height changed (up by one on insertion, down by one on deletion). */
  datatype Step = Step(t: Tree, moved: bool)

  ghost function Kid(t: Tree, dir: bool): Tree
    requires t.Bin?
  {
    if dir then t.r else t.l
  }

  ghost function Make(at: Node, bal: int, size: int, dir: bool, c: Tree, sib: Tree): Tree {
    if dir then Bin(at, bal, size, sib, c) else Bin(at, bal, size, c, sib)
  }

  ghost function Inorder(t: Tree): seq<Node> {
    if t.Leaf? then [] else Inorder(t.l) + [t.at] + Inorder(t.r)
  }

  ghost function Max(x: int, y: int): int {
    if x < y then y else x
  }

  ghost function Count(t: Tree): nat {
    if t.Leaf? then 0 else Count(t.l) + 1 + Count(t.r)
  }

  lemma {:induction false} CountIsLength(t: Tree)
    ensures Count(t) == |Inorder(t)|
  {
    if t.Bin? {
      CountIsLength(t.l);
      CountIsLength(t.r);
    }
  }

  ghost function Size(t: Tree): int {
    if t.Leaf? then 0 else t.size
  }

  /** The height of an AVL tree whose balance factors are the true height differences, within -1..1,
      and whose sizes are exact; -1 for any other tree. */
  ghost function Height(t: Tree): int {
    if t.Leaf? then 0 else
    var h0, h1 := Height(t.l), Height(t.r);
    if h0 >= 0 && h1 >= 0 && t.bal == h1 - h0 && -1 <= t.bal <= 1 && t.size == Count(t) then 1 + Max(h0, h1)
    else -1
  }

  ghost predicate Avl(t: Tree) {
    Height(t) >= 0
  }

  // ----- rotations -----

  /** A rotation towards dir: the child on the other side takes the place of p, and p takes over its inner subtree.
      Balance factors are left to the caller. */
  ghost function Rotate1(p: Tree, dir: bool): Tree
    requires p.Bin? && Kid(p, !dir).Bin?
  {
    var q := Kid(p, !dir);
    var p' := Make(p.at, p.bal, p.size - (q.size - Size(Kid(q, dir))), dir, Kid(p, dir), Kid(q, dir));
    Make(q.at, q.bal, p.size, dir, p', Kid(q, !dir))
  }

  ghost predicate CanRotate2(p: Tree, dir: bool) {
    p.Bin? && Kid(p, !dir).Bin? && Kid(Kid(p, !dir), dir).Bin?
  }

  /** A double rotation: the inner grandchild on the other side takes the place of p, and its subtrees go to p and to
      the child between them, with the balance factors that result. */
  ghost function Rotate2(p: Tree, dir: bool): Tree
    requires CanRotate2(p, dir)
  {
    var q := Kid(p, !dir);
    var r := Kid(q, dir);
    var n := Size(Kid(r, dir));
    var b1 := if dir then -1 else 1;
    var (qb, pb) := if r.bal == b1 then (0, -b1) else if r.bal == 0 then (0, 0) else (b1, 0);
    var p' := Make(p.at, pb, p.size - (q.size - n), dir, Kid(p, dir), Kid(r, dir));
    var q' := Make(q.at, qb, q.size - (n + 1), dir, Kid(r, !dir), Kid(q, !dir));
    Make(r.at, 0, p.size, dir, p', q')
  }

  /** Rotate1 followed by new balance factors for the two nodes it moved. */
  ghost function Rotate1With(p: Tree, dir: bool, pb: int, qb: int): Tree
    requires p.Bin? && Kid(p, !dir).Bin?
  {
    var t := Rotate1(p, dir);
    Make(t.at, qb, t.size, dir, Kid(t, dir).(bal := pb), Kid(t, !dir))
  }

  /** `bal` of a node as seen from side `dir`: positive when that side is the higher one. */
  ghost function Towards(bal: int, dir: bool): int {
    if dir then bal else -bal
  }

  /** What does not depend on balance factors and sizes. */
  lemma {:induction false} MakeShape(at: Node, bal: int, size: int, dir: bool, c: Tree, sib: Tree)
    ensures var t := Make(at, bal, size, dir, c, sib);
      && Kid(t, dir) == c && Kid(t, !dir) == sib
      && Count(t) == Count(c) + Count(sib) + 1
      && Inorder(t) == if dir then Inorder(sib) + [at] + Inorder(c) else Inorder(c) + [at] + Inorder(sib)
  {
  }

  lemma {:induction false} MakeOk(at: Node, bal: int, size: int, dir: bool, c: Tree, sib: Tree)
    requires Avl(c) && Avl(sib)
    requires Towards(bal, dir) == Height(c) - Height(sib) && -1 <= bal <= 1
    requires size == Count(c) + Count(sib) + 1
    ensures var t := Make(at, bal, size, dir, c, sib);
      Avl(t) && Count(t) == size && Height(t) == 1 + Max(Height(c), Height(sib))
  {
  }

  lemma KidsOk(t: Tree, dir: bool)
    requires t.Bin? && Avl(t)
    ensures var c, sib := Kid(t, dir), Kid(t, !dir);
      && Avl(c) && Avl(sib) && Size(c) == Count(c) && Size(sib) == Count(sib)
      && Towards(t.bal, dir) == Height(c) - Height(sib) && -1 <= t.bal <= 1
      && t.size == Count(t) == Count(c) + Count(sib) + 1
      && Height(t) == 1 + Max(Height(c), Height(sib))
  {
  }

  lemma Rotate1Inorder(p: Tree, dir: bool, pb: int, qb: int)
    requires p.Bin? && Kid(p, !dir).Bin?
    ensures Inorder(Rotate1With(p, dir, pb, qb)) == Inorder(p)
  {
    var q := Kid(p, !dir);
    var a, b, c := Inorder(Kid(p, dir)), Inorder(Kid(q, dir)), Inorder(Kid(q, !dir));
    if dir {
      assert c + [q.at] + (b + [p.at] + a) == (c + [q.at] + b) + [p.at] + a;
    } else {
      assert (a + [p.at] + b) + [q.at] + c == a + [p.at] + (b + [q.at] + c);
    }
  }

  lemma Reassociate(a: seq<Node>, p: seq<Node>, b: seq<Node>, r: seq<Node>, c: seq<Node>, q: seq<Node>, d: seq<Node>)
    ensures (a + p + b) + r + (c + q + d) == a + p + ((b + r + c) + q + d)
    ensures (a + p + b) + r + (c + q + d) == (a + p + (b + r + c)) + q + d
  {
  }

  lemma {:induction false} Rotate2Inorder(p: Tree, dir: bool)
    requires CanRotate2(p, dir)
    ensures Inorder(Rotate2(p, dir)) == Inorder(p)
  {
    var q := Kid(p, !dir);
    var r := Kid(q, dir);
    var a, b, c, d := Inorder(Kid(p, dir)), Inorder(Kid(r, dir)), Inorder(Kid(r, !dir)), Inorder(Kid(q, !dir));
    if dir {
      Reassociate(d, [q.at], c, [r.at], b, [p.at], a);
      assert Inorder(q) == d + [q.at] + (c + [r.at] + b);
    } else {
      Reassociate(a, [p.at], b, [r.at], c, [q.at], d);
      assert Inorder(q) == (b + [r.at] + c) + [q.at] + d;
    }
  }

  /** p is a level too low on side `dir`, everything else about it is right. */
  ghost predicate Leaning(p: Tree, dir: bool) {
    && p.Bin? && Avl(p.l) && Avl(p.r) && p.size == Count(p)
    && Height(Kid(p, !dir)) == Height(Kid(p, dir)) + 2
  }

  lemma Rotate1Ok(p: Tree, dir: bool, pb: int, qb: int)
    requires Leaning(p, dir)
    requires Kid(p, !dir).Bin? && Towards(Kid(p, !dir).bal, dir) <= 0
    requires Towards(pb, dir) == -1 - Towards(Kid(p, !dir).bal, dir) && qb == -pb
    ensures var t := Rotate1With(p, dir, pb, qb);
      && Avl(t)
      && Height(t) == Height(Kid(p, !dir)) + (if Kid(p, !dir).bal == 0 then 1 else 0)
  {
    var q := Kid(p, !dir);
    KidsOk(q, dir);
    var n := p.size - (q.size - Size(Kid(q, dir)));
    MakeOk(p.at, pb, n, dir, Kid(p, dir), Kid(q, dir));
    MakeOk(q.at, qb, p.size, dir, Make(p.at, pb, n, dir, Kid(p, dir), Kid(q, dir)), Kid(q, !dir));
  }

  lemma Rotate2Ok(p: Tree, dir: bool)
    requires Leaning(p, dir)
    requires Kid(p, !dir).Bin? && Towards(Kid(p, !dir).bal, dir) == 1
    ensures CanRotate2(p, dir)
    ensures var t := Rotate2(p, dir);
      Avl(t) && t.bal == 0 && Height(t) == Height(Kid(p, !dir))
  {
    var q := Kid(p, !dir);
    var r := Kid(q, dir);
    KidsOk(q, dir);
    KidsOk(r, dir);
    var t := Rotate2(p, dir);
    var p', q' := Kid(t, dir), Kid(t, !dir);
    assert p' == Make(p.at, p'.bal, p'.size, dir, Kid(p, dir), Kid(r, dir));
    assert q' == Make(q.at, q'.bal, q'.size, dir, Kid(r, !dir), Kid(q, !dir));
    assert t == Make(r.at, 0, p.size, dir, p', q');
    MakeOk(p.at, p'.bal, p'.size, dir, Kid(p, dir), Kid(r, dir));
    MakeOk(q.at, q'.bal, q'.size, dir, Kid(r, !dir), Kid(q, !dir));
    MakeOk(r.at, 0, p.size, dir, p', q');
  }

  // ----- one level of a path -----

  /** A node on a search path: everything about it except the subtree the path enters. */
  datatype Frame = Frame(at: Node, bal: int, size: int, dir: bool, sib: Tree)

  ghost function Fill(f: Frame, t: Tree): Tree {
    Make(f.at, f.bal, f.size, f.dir, t, f.sib)
  }

  ghost function Split(t: Tree, dir: bool): Frame
    requires t.Bin?
  {
    Frame(t.at, t.bal, t.size, dir, Kid(t, !dir))
  }

  /** The re-balancing at the end of kavl_insert, for balance +-2. */
  ghost function GrowFix(t: Tree): Tree
    requires t.Bin?
  {
    var which := t.bal < 0;
    var b1 := if which then -1 else 1;
    var q := Kid(t, !which);
    if q.Bin? && q.bal == b1 then Rotate1With(t, which, 0, 0)
    else if CanRotate2(t, which) then Rotate2(t, which)
    else t // not an AVL tree
  }

  /** The subtree below `f` is now c; `grew` says it is one level higher. */
  ghost function GrowStep(f: Frame, c: Tree, grew: bool): Step {
    var b := f.bal + if !grew then 0 else if f.dir then 1 else -1;
    var t := Make(f.at, b, f.size + 1, f.dir, c, f.sib);
    if -2 < b < 2 then Step(t, grew && b != 0) else Step(GrowFix(t), false)
  }

  /** One turn of the loop at the end of kavl_erase: the subtree below `f` lost a level. */
  ghost function ShrinkFix(f: Frame, c: Tree): Step {
    var b1 := if f.dir then -1 else 1;
    var t := Make(f.at, f.bal + b1, f.size, f.dir, c, f.sib);
    if t.bal == b1 then Step(t, false)
    else if t.bal != 2 * b1 then Step(t, true)
    else if f.sib.Bin? && f.sib.bal != -b1 then
      if f.sib.bal == 0 then Step(Rotate1With(t, f.dir, b1, -b1), false)
      else Step(Rotate1With(t, f.dir, 0, 0), true)
    else if CanRotate2(t, f.dir) then Step(Rotate2(t, f.dir), true)
    else Step(t, true) // not an AVL tree
  }

  ghost function ShrinkStep(f: Frame, c: Tree, shrunk: bool): Step {
    var f' := f.(size := f.size - 1);
    if shrunk then ShrinkFix(f', c) else Step(Fill(f', c), false)
  }

  // ----- textbook insertion -----

  ghost function Ins(t: Tree, x: Node): Step {
    if t.Leaf? then Step(Bin(x, 0, 1, Leaf, Leaf), true) else
    var dir := Cmp(x.key, t.at.key) > 0;
    var below := Ins(Kid(t, dir), x);
    GrowStep(Split(t, dir), below.t, below.moved)
  }

  /** Where the search for x ends, as a position in the in-order sequence. */
  ghost function Pos(t: Tree, x: Key): (i: nat)
    ensures i <= |Inorder(t)|
  {
    if t.Leaf? then 0
    else if Cmp(x, t.at.key) > 0 then |Inorder(t.l)| + 1 + Pos(t.r, x)
    else Pos(t.l, x)
  }

  lemma {:induction false} GrowFixInorder(t: Tree)
    requires t.Bin?
    ensures Inorder(GrowFix(t)) == Inorder(t)
  {
    var which := t.bal < 0;
    if Kid(t, !which).Bin? { Rotate1Inorder(t, which, 0, 0); }
    if CanRotate2(t, which) { Rotate2Inorder(t, which); }
  }

  lemma GrowStepInorder(f: Frame, c: Tree, grew: bool)
    ensures Inorder(GrowStep(f, c, grew).t) == Inorder(Fill(f, c))
  {
    var b := f.bal + if !grew then 0 else if f.dir then 1 else -1;
    var t := Make(f.at, b, f.size + 1, f.dir, c, f.sib);
    assert Inorder(t) == Inorder(Fill(f, c)) by { if f.dir {} else {} }
    assert GrowStep(f, c, grew).t == if -2 < b < 2 then t else GrowFix(t);
    GrowFixInorder(t);
  }

  lemma GrowFixOk(t: Tree, which: bool)
    requires Leaning(t, which) && Towards(t.bal, which) == -2 && Kid(t, !which).bal != 0
    ensures var t' := GrowFix(t); Avl(t') && t'.Bin? && Height(t') == Height(Kid(t, !which))
  {
    KidsOk(Kid(t, !which), which);
    if Towards(Kid(t, !which).bal, which) < 0 { Rotate1Ok(t, which, 0, 0); } else { Rotate2Ok(t, which); }
  }

  /** f is a node of an AVL tree when the subtree below it has height h and n nodes. */
  ghost predicate Fits(f: Frame, h: int, n: int) {
    && Avl(f.sib) && h >= 0 && -1 <= f.bal <= 1
    && Towards(f.bal, f.dir) == h - Height(f.sib)
    && f.size == n + Count(f.sib) + 1
  }

  ghost function FrameHeight(f: Frame, h: int): int {
    1 + Max(h, Height(f.sib))
  }

  lemma GrowOverOk(f: Frame, h: int, c: Tree, b: int)
    requires Fits(f, h, Count(c) - 1) && Avl(c) && Height(c) == h + 1
    requires Towards(b, f.dir) == 2 && Towards(f.bal, f.dir) == 1 && c.Bin? && c.bal != 0
    ensures var t := GrowFix(Make(f.at, b, f.size + 1, f.dir, c, f.sib));
      Avl(t) && t.Bin? && Height(t) == FrameHeight(f, h)
  {
    MakeShape(f.at, b, f.size + 1, f.dir, c, f.sib);
    GrowFixOk(Make(f.at, b, f.size + 1, f.dir, c, f.sib), !f.dir);
  }

  lemma GrowPlainOk(f: Frame, h: int, c: Tree, b: int)
    requires Fits(f, h, Count(c) - 1) && Avl(c) && h <= Height(c) <= h + 1
    requires Towards(b, f.dir) == Towards(f.bal, f.dir) + Height(c) - h && -1 <= b <= 1
    ensures var t := Make(f.at, b, f.size + 1, f.dir, c, f.sib);
      Avl(t) && Height(t) == FrameHeight(f, h) + (if Height(c) > h && b != 0 then 1 else 0)
  {
    MakeOk(f.at, b, f.size + 1, f.dir, c, f.sib);
  }

  lemma GrowStepOk(f: Frame, h: int, c: Tree, grew: bool) returns (r: Step)
    requires Fits(f, h, Count(c) - 1) && Avl(c)
    requires Height(c) == if grew then h + 1 else h
    requires grew && h > 0 ==> c.Bin? && c.bal != 0
    ensures r == GrowStep(f, c, grew)
    ensures Avl(r.t) && r.t.Bin? && (r.moved ==> r.t.bal != 0)
    ensures Height(r.t) == FrameHeight(f, h) + (if r.moved then 1 else 0)
  {
    var b := f.bal + if !grew then 0 else if f.dir then 1 else -1;
    if -2 < b < 2 {
      r := Step(Make(f.at, b, f.size + 1, f.dir, c, f.sib), grew && b != 0);
      GrowPlainOk(f, h, c, b);
    } else {
      r := Step(GrowFix(Make(f.at, b, f.size + 1, f.dir, c, f.sib)), false);
      GrowOverOk(f, h, c, b);
    }
  }

  ghost function InsertAt(s: seq<Node>, i: nat, x: Node): seq<Node>
    requires i <= |s|
  {
    s[..i] + [x] + s[i..]
  }

  ghost function RemoveAt(s: seq<Node>, i: nat): seq<Node>
    requires i < |s|
  {
    s[..i] + s[i + 1..]
  }

  lemma InsertAtConcat(a: seq<Node>, m: Node, b: seq<Node>, i: nat, x: Node)
    ensures i <= |a| ==> InsertAt(a + [m] + b, i, x) == InsertAt(a, i, x) + [m] + b
    ensures i <= |b| ==> InsertAt(a + [m] + b, |a| + 1 + i, x) == a + [m] + InsertAt(b, i, x)
  {
    if i <= |a| {
      assert (a + [m] + b)[..i] == a[..i] && (a + [m] + b)[i..] == a[i..] + [m] + b;
    }
    if i <= |b| {
      assert (a + [m] + b)[..|a| + 1 + i] == a + [m] + b[..i] && (a + [m] + b)[|a| + 1 + i..] == b[i..];
    }
  }

  lemma RemoveAtConcat(a: seq<Node>, m: Node, b: seq<Node>, i: nat)
    ensures i < |a| ==> RemoveAt(a + [m] + b, i) == RemoveAt(a, i) + [m] + b
    ensures i < |b| ==> RemoveAt(a + [m] + b, |a| + 1 + i) == a + [m] + RemoveAt(b, i)
    ensures RemoveAt(a + [m] + b, |a|) == a + b
  {
    if i < |a| {
      assert (a + [m] + b)[..i] == a[..i] && (a + [m] + b)[i + 1..] == a[i + 1..] + [m] + b;
    }
    if i < |b| {
      assert (a + [m] + b)[..|a| + 1 + i] == a + [m] + b[..i] && (a + [m] + b)[|a| + 1 + i + 1..] == b[i + 1..];
    }
    assert (a + [m] + b)[..|a|] == a && (a + [m] + b)[|a| + 1..] == b;
  }

  lemma {:induction false} InsInorder(t: Tree, x: Node)
    ensures Inorder(Ins(t, x).t) == InsertAt(Inorder(t), Pos(t, x.key), x)
  {
    if t.Bin? {
      var dir := Cmp(x.key, t.at.key) > 0;
      var below := Ins(Kid(t, dir), x);
      InsInorder(Kid(t, dir), x);
      GrowStepInorder(Split(t, dir), below.t, below.moved);
      InsertAtConcat(Inorder(t.l), t.at, Inorder(t.r), Pos(Kid(t, dir), x.key), x);
    }
  }

  lemma {:induction false} InsOk(t: Tree, x: Node) returns (r: Step)
    requires Avl(t)
    ensures r == Ins(t, x)
    ensures Avl(r.t) && r.t.Bin? && (r.moved && t.Bin? ==> r.t.bal != 0)
    ensures Height(r.t) == Height(t) + (if r.moved then 1 else 0)
    ensures Count(r.t) == Count(t) + 1
  {
    if t.Leaf? {
      r := Ins(t, x);
    } else {
      var dir := Cmp(x.key, t.at.key) > 0;
      var c0 := Kid(t, dir);
      var below := InsOk(c0, x);
      KidsOk(t, dir);
      r := GrowStepOk(Split(t, dir), Height(c0), below.t, below.moved);
      InsInorder(t, x);
      CountIsLength(r.t);
      CountIsLength(t);
    }
  }

  // ----- textbook deletion -----

  /** The leftmost node, and the tree without it. */
  datatype Cut = Cut(min: Node, rest: Step)

  ghost function DelMin(t: Tree): Cut
    requires t.Bin?
  {
    if t.l.Leaf? then Cut(t.at, Step(t.r, true)) else
    var c := DelMin(t.l);
    Cut(c.min, ShrinkStep(Split(t, false), c.rest.t, c.rest.moved))
  }

  /** The tree without its root, which its successor replaces. */
  ghost function DelRoot(t: Tree): Step
    requires t.Bin?
  {
    if t.r.Leaf? then Step(t.l, true) else
    var c := DelMin(t.r);
    ShrinkStep(Split(t, true).(at := c.min), c.rest.t, c.rest.moved)
  }

  /** What kavl_erase is asked to remove: a key, or the first node (x == NULL). */
  datatype Target = ByKey(key: Key) | First

  /** How `cmp` steers the search for the target: negative left, positive right, 0 found. */
  ghost function Steer(g: Target, t: Tree): int
    requires t.Bin?
  {
    match g
    case ByKey(x) => Cmp(x, t.at.key)
    case First => if t.l.Leaf? then 0 else -1
  }

  ghost function Del(t: Tree, g: Target): Step {
    if t.Leaf? then Step(t, false)
    else if Steer(g, t) == 0 then DelRoot(t)
    else
      var dir := Steer(g, t) > 0;
      var below := Del(Kid(t, dir), g);
      ShrinkStep(Split(t, dir), below.t, below.moved)
  }

  /** Is the target on its search path? */
  ghost predicate Hits(t: Tree, g: Target) {
    t.Bin? && (Steer(g, t) != 0 ==> Hits(Kid(t, Steer(g, t) > 0), g))
  }

  /** Its position in the in-order sequence. */
  ghost function HitPos(t: Tree, g: Target): (i: nat)
    requires Hits(t, g)
    ensures i < |Inorder(t)|
  {
    if Steer(g, t) == 0 then |Inorder(t.l)|
    else if Steer(g, t) > 0 then |Inorder(t.l)| + 1 + HitPos(t.r, g)
    else HitPos(t.l, g)
  }

  /** The node itself. */
  ghost function HitNode(t: Tree, g: Target): Node
    requires Hits(t, g)
  {
    if Steer(g, t) == 0 then t.at else HitNode(Kid(t, Steer(g, t) > 0), g)
  }

  lemma {:induction false} HitNodeAtPos(t: Tree, g: Target)
    requires Hits(t, g)
    ensures Inorder(t)[HitPos(t, g)] == HitNode(t, g)
  {
    if Steer(g, t) != 0 { HitNodeAtPos(Kid(t, Steer(g, t) > 0), g); }
  }

  lemma {:induction false} ShrinkPlainOk(f: Frame, h: int, c: Tree, b: int)
    requires Fits(f, h, Count(c)) && Avl(c) && h - 1 <= Height(c) <= h
    requires Towards(b, f.dir) == Towards(f.bal, f.dir) + Height(c) - h && -1 <= b <= 1
    ensures var t := Make(f.at, b, f.size, f.dir, c, f.sib);
      Avl(t) && Height(t) == FrameHeight(f, h) - (if Height(c) < h && b == 0 then 1 else 0)
  {
    MakeOk(f.at, b, f.size, f.dir, c, f.sib);
  }

  lemma {:induction false} ShrinkOverOk(f: Frame, h: int, c: Tree, b: int)
    requires Fits(f, h, Count(c)) && Avl(c) && Height(c) == h - 1
    requires Towards(b, f.dir) == -2 && Towards(f.bal, f.dir) == -1
    ensures var t := Make(f.at, b, f.size, f.dir, c, f.sib);
      && Leaning(t, f.dir) && Kid(t, !f.dir) == f.sib && f.sib.Bin?
      && FrameHeight(f, h) == 1 + Height(f.sib)
  {
    MakeShape(f.at, b, f.size, f.dir, c, f.sib);
  }

  lemma ShrinkFixOk(f: Frame, h: int, c: Tree) returns (r: Step)
    requires Fits(f, h, Count(c)) && Avl(c) && Height(c) == h - 1
    ensures r == ShrinkFix(f, c)
    ensures Avl(r.t) && Height(r.t) == FrameHeight(f, h) - (if r.moved then 1 else 0)
  {
    var b1 := if f.dir then -1 else 1;
    var b := f.bal + b1;
    var t := Make(f.at, b, f.size, f.dir, c, f.sib);
    r := ShrinkFix(f, c);
    if -2 < b < 2 {
      ShrinkPlainOk(f, h, c, b);
      assert r == Step(t, b != b1);
    } else {
      ShrinkOverOk(f, h, c, b);
      if f.sib.bal == -b1 {
        Rotate2Ok(t, f.dir);
        assert r == Step(Rotate2(t, f.dir), true);
      } else if f.sib.bal == 0 {
        Rotate1Ok(t, f.dir, b1, -b1);
        assert r == Step(Rotate1With(t, f.dir, b1, -b1), false);
      } else {
        Rotate1Ok(t, f.dir, 0, 0);
        assert r == Step(Rotate1With(t, f.dir, 0, 0), true);
      }
    }
  }

  lemma ShrinkFixInorder(f: Frame, c: Tree)
    ensures Inorder(ShrinkFix(f, c).t) == Inorder(Fill(f, c))
  {
    var b1 := if f.dir then -1 else 1;
    var t := Make(f.at, f.bal + b1, f.size, f.dir, c, f.sib);
    assert Inorder(t) == Inorder(Fill(f, c)) by { if f.dir {} else {} }
    MakeShape(f.at, f.bal + b1, f.size, f.dir, c, f.sib);
    if f.sib.Bin? {
      Rotate1Inorder(t, f.dir, b1, -b1);
      Rotate1Inorder(t, f.dir, 0, 0);
    }
    if CanRotate2(t, f.dir) { Rotate2Inorder(t, f.dir); }
  }

  lemma ShrinkStepInorder(f: Frame, c: Tree, shrunk: bool)
    ensures Inorder(ShrinkStep(f, c, shrunk).t) == Inorder(Fill(f, c))
  {
    var f' := f.(size := f.size - 1);
    assert Inorder(Fill(f', c)) == Inorder(Fill(f, c)) by { if f.dir {} else {} }
    ShrinkFixInorder(f', c);
  }

  lemma ShrinkStepOk(f: Frame, h: int, c: Tree, shrunk: bool) returns (r: Step)
    requires Fits(f, h, Count(c) + 1) && Avl(c) && Height(c) == if shrunk then h - 1 else h
    ensures r == ShrinkStep(f, c, shrunk)
    ensures Avl(r.t) && Height(r.t) == FrameHeight(f, h) - (if r.moved then 1 else 0)
  {
    var f' := f.(size := f.size - 1);
    if shrunk {
      r := ShrinkFixOk(f', h, c);
    } else {
      r := Step(Fill(f', c), false);
      assert ShrinkStep(f, c, shrunk) == r;
      ShrinkPlainOk(f', h, c, f.bal);
    }
  }

  lemma {:induction false} DelMinInorder(t: Tree)
    requires t.Bin?
    ensures Inorder(t) == [DelMin(t).min] + Inorder(DelMin(t).rest.t)
  {
    if t.l.Bin? {
      DelMinInorder(t.l);
      var c := DelMin(t.l);
      ShrinkStepInorder(Split(t, false), c.rest.t, c.rest.moved);
    }
  }

  lemma DelRootInorder(t: Tree)
    requires t.Bin?
    ensures Inorder(DelRoot(t).t) == Inorder(t.l) + Inorder(t.r)
  {
    if t.r.Bin? {
      var c := DelMin(t.r);
      DelMinInorder(t.r);
      ShrinkStepInorder(Split(t, true).(at := c.min), c.rest.t, c.rest.moved);
    }
  }

  lemma {:induction false} DelInorder(t: Tree, g: Target)
    requires Hits(t, g)
    ensures Inorder(Del(t, g).t) == RemoveAt(Inorder(t), HitPos(t, g))
  {
    if Steer(g, t) == 0 {
      DelRootInorder(t);
      RemoveAtConcat(Inorder(t.l), t.at, Inorder(t.r), 0);
    } else {
      var dir := Steer(g, t) > 0;
      DelInorder(Kid(t, dir), g);
      var below := Del(Kid(t, dir), g);
      ShrinkStepInorder(Split(t, dir), below.t, below.moved);
      RemoveAtConcat(Inorder(t.l), t.at, Inorder(t.r), HitPos(Kid(t, dir), g));
    }
  }

  lemma {:induction false} DelMinOk(t: Tree) returns (r: Cut)
    requires Avl(t) && t.Bin?
    ensures r == DelMin(t)
    ensures Avl(r.rest.t) && Height(r.rest.t) == Height(t) - (if r.rest.moved then 1 else 0)
    ensures Count(r.rest.t) == Count(t) - 1
  {
    r := DelMin(t);
    KidsOk(t, false);
    DelMinInorder(t);
    CountIsLength(t);
    CountIsLength(r.rest.t);
    if t.l.Bin? {
      var c := DelMinOk(t.l);
      var rest := ShrinkStepOk(Split(t, false), Height(t.l), c.rest.t, c.rest.moved);
      assert r == Cut(c.min, rest);
    }
  }

  lemma DelRootOk(t: Tree) returns (r: Step)
    requires Avl(t) && t.Bin?
    ensures r == DelRoot(t)
    ensures Avl(r.t) && Height(r.t) == Height(t) - (if r.moved then 1 else 0)
  {
    r := DelRoot(t);
    KidsOk(t, true);
    if t.r.Bin? {
      var c := DelMinOk(t.r);
      r := ShrinkStepOk(Split(t, true).(at := c.min), Height(t.r), c.rest.t, c.rest.moved);
    }
  }

  lemma {:induction false} DelOk(t: Tree, g: Target) returns (r: Step)
    requires Avl(t) && Hits(t, g)
    ensures r == Del(t, g)
    ensures Avl(r.t) && Height(r.t) == Height(t) - (if r.moved then 1 else 0)
    ensures Count(r.t) == Count(t) - 1
  {
    if Steer(g, t) == 0 {
      r := DelRootOk(t);
    } else {
      var dir := Steer(g, t) > 0;
      var below := DelOk(Kid(t, dir), g);
      KidsOk(t, dir);
      r := ShrinkStepOk(Split(t, dir), Height(Kid(t, dir)), below.t, below.moved);
    }
    DelInorder(t, g);
    CountIsLength(t);
    CountIsLength(r.t);
  }
}
