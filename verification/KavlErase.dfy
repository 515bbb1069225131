/** The loops of kavl_erase: finding the node, taking it out, restoring balance. */
module KavlErase {
  import opened BitKeys
  import opened AvlTree
  import opened KavlMemory
  import opened AvlPaths
  import opened KavlSteps

  // ----- erasure: finding the node -----

  /** The path arrays of kavl_erase, whose first entry is the fake root. */
  ghost predicate Recorded(path: seq<Node>, dir: seq<bool>, fake: Node, c: seq<Frame>) {
    |path| == |dir| == |c| + 1 && path == [fake] + PathOf(c) && dir == [false] + SidesOf(c)
  }

  lemma RecordedPush(path: seq<Node>, dir: seq<bool>, fake: Node, c: seq<Frame>, f: Frame)
    requires Recorded(path, dir, fake, c)
    ensures Recorded(path + [f.at], dir + [f.dir], fake, c + [f])
  {
    PushOk(c, f);
  }

  /** The descent of kavl_erase below the fake root, looking for a key. */
  method SeekKey(root: Node?, x: Key, fake: Node, ghost tree: Tree)
    returns (p: Node?, path: seq<Node>, dir: seq<bool>, cnt: int, ghost c: seq<Frame>, ghost t: Tree)
    requires Rep(tree) && root == Ptr(tree) && Avl(tree) && Height(tree) + 1 <= KAVL_MAX_DEPTH
    ensures p != null <==> Hits(tree, ByKey(x))
    ensures p != null ==>
      && Plug(c, t) == tree && t.Bin? && p == t.at && Steer(ByKey(x), t) == 0
      && Recorded(path, dir, fake, c) && Chasing(tree, c, t, ByKey(x), cnt)
  {
    path, dir, cnt := [fake], [false], 0;
    p := root;
    t, c := tree, [];
    while p != null && Cmp(x, p.key) != 0
      invariant p == Ptr(t) && Reached(tree, c, t)
      invariant Recorded(path, dir, fake, c)
      invariant Chasing(tree, c, t, ByKey(x), cnt)
      decreases t
    {
      var which := Cmp(x, p.key) > 0;
      ReachedStep(tree, c, t, which);
      RecordedPush(path, dir, fake, c, Split(t, which));
      ChasingStep(tree, c, t, ByKey(x), cnt);
      if which { cnt := cnt + SizeChild(p, false) + 1; }
      assert |path| < KAVL_MAX_DEPTH;
      path, dir := path + [p], dir + [which];
      c, t := c + [Split(t, which)], Kid(t, which);
      p := p.P(which);
    }
  }

  /** The descent of kavl_erase to the first node. */
  method SeekFirst(root: Node?, fake: Node, ghost tree: Tree)
    returns (p: Node, path: seq<Node>, dir: seq<bool>, ghost c: seq<Frame>, ghost t: Tree)
    requires Rep(tree) && root == Ptr(tree) && root != null && Avl(tree) && Height(tree) + 1 <= KAVL_MAX_DEPTH
    ensures Plug(c, t) == tree && t.Bin? && p == t.at && Steer(First, t) == 0
    ensures Recorded(path, dir, fake, c) && Chasing(tree, c, t, First, 0)
  {
    path, dir := [fake], [false];
    p := root;
    t, c := tree, [];
    while p.p0 != null
      invariant t.Bin? && p == t.at && Reached(tree, c, t)
      invariant Recorded(path, dir, fake, c)
      invariant Chasing(tree, c, t, First, 0)
      decreases t
    {
      ReachedStep(tree, c, t, false);
      RecordedPush(path, dir, fake, c, Split(t, false));
      ChasingStep(tree, c, t, First, 0);
      assert |path| < KAVL_MAX_DEPTH;
      path, dir := path + [p], dir + [false];
      c, t := c + [Split(t, false)], t.l;
      p := p.p0;
    }
  }

  // ----- erasure: taking the node out -----

  /** Where the loop at the end of kavl_erase starts: `e` are the frames added below `a` (before their
      sizes changed), s the subtree that lost a level. */
  ghost predicate Unlinked(a: seq<Frame>, t: Tree, e: seq<Frame>, e1: seq<Frame>, s: Tree)
    reads PathNodes(a + e1), Nodes(s)
  {
    && PathRep(a + e1, Ptr(s)) && Rep(s)
    && Apart(a + e1) && Distinct(s) && PathNodes(a + e1) !! Nodes(s)
    && PathNodes(a + e1) <= PathNodes(a) + Nodes(t)
    && t.Bin? && Resized(e, e1, 0, |e|, -1) && DelRoot(t) == FoldShrink(e, Step(s, true))
  }

  /** p has no right child: its left subtree takes its place. */
  method UnlinkLeft(p: Node, up: Node, side: bool, ghost a: seq<Frame>, ghost t: Tree)
    requires a != [] && up == a[|a| - 1].at && side == a[|a| - 1].dir && t.Bin? && p == t.at
    requires Apart(a) && PathRep(a, p) && Rep(t) && Distinct(t) && PathNodes(a) !! Nodes(t)
    requires p.p1 == null
    modifies up
    ensures Unlinked(a, t, [], [], t.l)
  {
    assert FrameRep(a[|a| - 1], Below(a, |a| - 1, p));
    assert FrameNodes(a[|a| - 1]) <= PathNodes(a);
    up.SetP(side, p.p0);
    RelinkEnd(a, p, p.p0);
    RepUnchanged(t.l);
    assert a + [] == a;
  }

  /** The right child of p has no left child: it takes the place of p, and its left subtree. */
  method UnlinkNext(p: Node, up: Node, side: bool, ghost a: seq<Frame>, ghost t: Tree)
    returns (q: Node, ghost e: seq<Frame>, ghost e1: seq<Frame>, ghost s: Tree)
    requires a != [] && up == a[|a| - 1].at && side == a[|a| - 1].dir && t.Bin? && p == t.at
    requires Apart(a) && PathRep(a, p) && Rep(t) && Distinct(t) && PathNodes(a) !! Nodes(t)
    requires t.r.Bin? && t.r.l.Leaf?
    modifies up, t.r.at
    ensures Unlinked(a, t, e, e1, s) && PathOf(e1) == [q] && SidesOf(e1) == [true]
  {
    KidsDistinct(t, true);
    KidsDistinct(t.r, true);
    KidsRep(t, true);
    KidsRep(t.r, true);
    assert FrameRep(a[|a| - 1], Below(a, |a| - 1, p));
    assert FrameNodes(a[|a| - 1]) <= PathNodes(a);
    q := p.p1;
    q.p0 := p.p0;
    q.balance := p.balance;
    up.SetP(side, q);
    q.size := p.size - 1;
    RelinkEnd(a, p, q);
    RepUnchanged(t.l);
    RepUnchanged(t.r.r);
    ghost var f := Frame(q, t.bal, t.size - 1, true, t.l);
    PathRepAppend(a, f, Ptr(t.r.r));
    ApartAppend(a, f);
    PathNodesPush(a, f);
    DelRootPath(t, [], t.r);
    assert [Split(t, true).(at := q)] + [] == [Split(t, true).(at := q)];
    e, e1, s := [Split(t, true).(at := q)], [f], t.r.r;
    PathOfCons(f, []);
    assert [f] + [] == [f];
  }

  /** Walks left from the right child of p to the successor of p, recording the path. */
  method SeekMin(q0: Node, ghost t: Tree, room: nat)
    returns (q: Node, r: Node, path: seq<Node>, dir: seq<bool>, ghost b: seq<Frame>, ghost u: Tree)
    requires t.Bin? && t.l.Bin? && q0 == t.at && Rep(t) && Avl(t) && Height(t) <= room
    ensures TowardsMin(t, b, u) && u.l.Leaf? && r == u.at && b != [] && q == b[|b| - 1].at
    ensures path == PathOf(b) && dir == SidesOf(b) && |b| <= room && !b[|b| - 1].dir
  {
    q, r, path, dir, b, u := q0, q0.p0, [q0], [false], [Split(t, false)], t.l;
    PlugStep([], t, false);
    TowardsMinStep(t, [], t);
    PushOk([], Split(t, false));
    assert [] + [Split(t, false)] == [Split(t, false)];
    KidsOk(t, false);
    while r.p0 != null
      invariant TowardsMin(t, b, u) && Rep(u) && Avl(u) && r == u.at && b != [] && q == b[|b| - 1].at
      invariant path == PathOf(b) && dir == SidesOf(b) && |b| + Height(u) <= Height(t) && !b[|b| - 1].dir
      decreases u
    {
      KidsOk(u, false);
      KidsRep(u, false);
      TowardsMinStep(t, b, u);
      PushOk(b, Split(u, false));
      q := r;
      path, dir := path + [q], dir + [false];
      b, u := b + [Split(u, false)], u.l;
      r := q.p0;
    }
    KidsOk(u, false);
  }

  /** The successor r of p gets the children of p, the parent q of r its right child, and up points to r. */
  method SpliceFields(p: Node, q: Node, r: Node, up: Node, side: bool)
    requires p != q && p != r && p != up && q != r && q != up && r != up
    modifies up, q, r
    ensures r.p0 == old(p.p0) && r.p1 == old(p.p1) && r.balance == old(p.balance) && r.size == old(r.size)
    ensures q.p0 == old(r.p1) && q.p1 == old(q.p1) && q.balance == old(q.balance) && q.size == old(q.size)
    ensures up.P(side) == r && up.P(!side) == old(up.P(!side)) && up.balance == old(up.balance) &&
            up.size == old(up.size)
  {
    r.p0 := p.p0;
    q.p0 := r.p1;
    r.p1 := p.p1;
    r.balance := p.balance;
    up.SetP(side, r);
  }

  /** The pointers of a deep removal: r, the successor of p, takes its place, and q, the parent of r, the right
      subtree of r. */
  method Splice(p: Node, q: Node, r: Node, up: Node, side: bool, ghost a: seq<Frame>, ghost t: Tree,
                ghost b: seq<Frame>, ghost u: Tree)
    requires a != [] && up == a[|a| - 1].at && side == a[|a| - 1].dir && t.Bin? && p == t.at
    requires Apart(a) && PathRep(a, p) && Rep(t) && Distinct(t) && PathNodes(a) !! Nodes(t)
    requires b != [] && Apart(b) && u.Bin? && r == u.at && q == b[|b| - 1].at && !b[|b| - 1].dir
    requires PathRep(b, r) && Rep(u) && Distinct(u) && PathNodes(b) !! Nodes(u)
    requires p !in PathNodes(b) && p !in Nodes(u) && Nodes(t.l) !! PathNodes(b) && Nodes(t.l) !! Nodes(u)
    requires PathNodes(a) !! PathNodes(b) && PathNodes(a) !! Nodes(u) && t.r.Bin? && b[0].at == t.r.at
    modifies up, q, r
    ensures PathRep(a, r) && PathRep(b, Ptr(u.r)) && Rep(t.l) && Rep(u.r)
    ensures r.p0 == Ptr(t.l) && r.p1 == b[0].at && r.balance == t.bal && p.size == t.size
  {
    KidsRep(t, true);
    KidsRep(u, true);
    KidsDistinct(u, true);
    AtsInPath(a);
    AtsInPath(b);
    assert up in Ats(a) && q in Ats(b);
    assert FrameRep(a[|a| - 1], Below(a, |a| - 1, p));
    assert FrameRep(b[|b| - 1], Below(b, |b| - 1, r));
    SpliceFields(p, q, r, up, side);
    RelinkEnd(a, p, r);
    RelinkEnd(b, r, Ptr(u.r));
    RepUnchanged(t.l);
    RepUnchanged(u.r);
  }

  /** Where the pieces of a deep removal lie: b leads from the right child of p down to u. */
  lemma {:induction false} DeepPieces(a: seq<Frame>, t: Tree, b: seq<Frame>, u: Tree)
    requires t.Bin? && Rep(t) && Distinct(t) && PathNodes(a) !! Nodes(t) && t.r.Bin? && Plug(b, u) == t.r && b != []
    ensures Apart(b) && PathRep(b, Ptr(u)) && Rep(u) && Distinct(u) && PathNodes(b) !! Nodes(u)
    ensures t.at !in PathNodes(b) && t.at !in Nodes(u) && Nodes(t.l) !! PathNodes(b) && Nodes(t.l) !! Nodes(u)
    ensures PathNodes(a) !! PathNodes(b) && PathNodes(a) !! Nodes(u) && b[0].at == t.r.at
    ensures PathNodes(b) + Nodes(u) == Nodes(t.r)
  {
    KidsDistinct(t, true);
    KidsRep(t, true);
    ApartAny(b, u);
    PathRepAny(b, u);
    PlugPtr(b, u);
  }

  /** ... and how they fit together again. */
  lemma DeepJoinPath(a: seq<Frame>, f: Frame, b1: seq<Frame>, q: Node?)
    requires b1 != [] && PathRep(a, f.at) && FrameRep(f, b1[0].at) && PathRep(b1, q)
    requires Apart(a) && Apart(b1) && Distinct(f.sib) && f.at !in Nodes(f.sib)
    requires PathNodes(a) !! FrameNodes(f) && PathNodes(a) !! PathNodes(b1) && FrameNodes(f) !! PathNodes(b1)
    ensures var d := a + ([f] + b1);
      PathRep(d, q) && Apart(d) && PathNodes(d) == PathNodes(a) + FrameNodes(f) + PathNodes(b1)
  {
    PathRepAppend(a, f, b1[0].at);
    PathRepConcat(a + [f], b1, q);
    ApartAppend(a, f);
    PathNodesPush(a, f);
    ApartConcat(a + [f], b1);
    assert (a + [f]) + b1 == a + ([f] + b1);
  }

  lemma {:induction false} DeepJoin(a: seq<Frame>, t: Tree, b: seq<Frame>, b1: seq<Frame>, u: Tree)
    requires t.Bin? && Distinct(t) && PathNodes(a) !! Nodes(t) && t.r.Bin? && TowardsMin(t.r, b, u) && u.l.Leaf? &&
             b != []
    requires Apart(a) && Apart(b1) && SameShape(b, b1) && Resized(b, b1, 0, |b|, -1)
    requires PathRep(a, u.at) && PathRep(b1, Ptr(u.r)) && Rep(t.l) && Rep(u.r)
    requires u.at.p0 == Ptr(t.l) && u.at.p1 == b[0].at && u.at.balance == t.bal && u.at.size == t.size - 1
    ensures Unlinked(a, t, [Split(t, true).(at := u.at)] + b, [Frame(u.at, t.bal, t.size - 1, true, t.l)] + b1, u.r)
  {
    var f := Frame(u.at, t.bal, t.size - 1, true, t.l);
    KidsDistinct(t, true);
    ApartAny(b, u);
    KidsDistinct(u, true);
    SameShapeApart(b, b1);
    DeepJoinPath(a, f, b1, Ptr(u.r));
    ResizedConcat([Split(t, true).(at := u.at)], [f], b, b1, -1);
    DelRootPath(t, b, u);
  }

  /** The sizes of a deep removal: those on b go down, r takes over the rest of p's. */
  method ResizeDeep(p: Node, r: Node, path: seq<Node>, ghost a: seq<Frame>, ghost l: Tree, ghost b: seq<Frame>,
                    ghost s: Tree)
    returns (ghost b1: seq<Frame>)
    requires Apart(b) && PathRep(b, Ptr(s)) && path == PathOf(b) && r !in PathNodes(b) && p != r && p !in PathNodes(b)
    requires PathRep(a, r) && r !in PathNodes(a) && PathNodes(a) !! PathNodes(b)
    requires Rep(l) && r !in Nodes(l) && Nodes(l) !! PathNodes(b)
    requires Rep(s) && r !in Nodes(s) && Nodes(s) !! PathNodes(b)
    modifies r`size, Ats(b)`size
    ensures Resized(b, b1, 0, |b|, -1) && SameShape(b, b1) && Apart(b1) && PathRep(b1, Ptr(s))
    ensures r.size == old(p.size) - 1 && PathRep(a, r) && Rep(l) && Rep(s)
  {
    PathOfOk(b);
    AtsInPath(b);
    b1 := ResizePath(path, 0, |path|, -1, b, Ptr(s));
    label resized:
    r.size := p.size - 1;
    SameShapeApart(b, b1);
    PathRepUnchanged@resized(b1, Ptr(s));
    PathRepUnchanged(a, r);
    RepUnchanged(l);
    RepUnchanged(s);
  }

  /** The successor of p lies further down: it takes the place of p, and the sizes on the way to it go down. */
  method UnlinkDeep(p: Node, up: Node, side: bool, ghost a: seq<Frame>, ghost t: Tree, room: nat)
    returns (path: seq<Node>, dir: seq<bool>, ghost e: seq<Frame>, ghost e1: seq<Frame>, ghost s: Tree)
    requires a != [] && up == a[|a| - 1].at && side == a[|a| - 1].dir && t.Bin? && p == t.at
    requires Apart(a) && PathRep(a, p) && Rep(t) && Distinct(t) && PathNodes(a) !! Nodes(t)
    requires t.r.Bin? && t.r.l.Bin? && Avl(t.r) && Height(t.r) <= room
    modifies up, Nodes(t.r)
    ensures Unlinked(a, t, e, e1, s)
    ensures path == PathOf(e1) && dir == SidesOf(e1) && |path| <= room + 1
  {
    KidsRep(t, true);
    var q, r;
    ghost var b, u;
    q, r, path, dir, b, u := SeekMin(p.p1, t.r, room);
    RepUnchanged(t);
    PathRepUnchanged(a, p);
    DeepPieces(a, t, b, u);
    AtsInPath(b);
    assert q in Ats(b);
    PathOfOk(b);
    KidsDistinct(u, true);
    Splice(p, q, r, up, side, a, t, b, u);
    ghost var b1 := ResizeDeep(p, r, path, a, t.l, b, u.r);
    DeepJoin(a, t, b, b1, u);
    ghost var f := Frame(r, t.bal, t.size - 1, true, t.l);
    e, e1, s := [Split(t, true).(at := r)] + b, [f] + b1, u.r;
    SameShapePath(b, b1);
    PathOfCons(f, b1);
    path, dir := [r] + path, [true] + dir;
  }

  /** The three ways kavl_erase takes p out. */
  method Unlink(p: Node, path: seq<Node>, dir: seq<bool>, ghost a: seq<Frame>, ghost t: Tree)
    returns (path': seq<Node>, dir': seq<bool>, ghost e: seq<Frame>, ghost e1: seq<Frame>, ghost s: Tree)
    requires a != [] && t.Bin? && p == t.at && path == PathOf(a) && dir == SidesOf(a)
    requires Apart(a) && PathRep(a, p) && Rep(t) && Distinct(t) && PathNodes(a) !! Nodes(t)
    requires Avl(t) && |a| + Height(t) <= KAVL_MAX_DEPTH
    modifies PathNodes(a), Nodes(t)
    ensures Unlinked(a, t, e, e1, s) && path' == PathOf(a + e1) && dir' == SidesOf(a + e1)
    ensures |path'| <= KAVL_MAX_DEPTH
  {
    PathOfOk(a);
    SidesOfOk(a);
    KidsOk(t, true);
    KidsRep(t, true);
    AtsInPath(a);
    var up, side := path[|path| - 1], dir[|dir| - 1];
    assert up in Ats(a);
    var add, addDir := [], [];
    if p.p1 == null {
      UnlinkLeft(p, up, side, a, t);
      e, e1, s := [], [], t.l;
    } else if p.p1.p0 == null {
      var q;
      q, e, e1, s := UnlinkNext(p, up, side, a, t);
      add, addDir := [q], [true];
    } else {
      add, addDir, e, e1, s := UnlinkDeep(p, up, side, a, t, KAVL_MAX_DEPTH - |path| - 1);
    }
    path', dir' := path + add, dir + addDir;
    PathOfConcat(a, e1);
  }

  // ----- erasure: restoring balance -----

  lemma FixStepAvl(f: Frame, s: Step)
    requires Avl(FixStep(f, s).t)
    ensures Avl(s.t)
    ensures s.moved && f.bal == (if f.dir then -1 else 1) ==>
      f.sib.Bin? && (f.sib.bal == (if f.dir then 1 else -1) ==> Kid(f.sib, f.dir).Bin?)
  {
    var b1 := if f.dir then -1 else 1;
    var t := Make(f.at, f.bal + b1, f.size, f.dir, s.t, f.sib);
    MakeShape(f.at, f.bal + b1, f.size, f.dir, s.t, f.sib);
    MakeShape(f.at, f.bal, f.size, f.dir, s.t, f.sib);
    var r := FixStep(f, s).t;
    KidsAvl(r);
    if s.moved && f.sib.Bin? && f.sib.bal != -b1 && t.bal == 2 * b1 {
      assert r == Rotate1With(t, f.dir, if f.sib.bal == 0 then b1 else 0, if f.sib.bal == 0 then -b1 else 0);
      KidsAvl(Kid(r, f.dir));
    } else if s.moved && CanRotate2(t, f.dir) && t.bal == 2 * b1 {
      assert r == Rotate2(t, f.dir);
      KidsAvl(Kid(r, f.dir));
    } else {
      assert r == if s.moved then t else Fill(f, s.t);
    }
  }

  lemma KidsAvl(t: Tree)
    requires Avl(t)
    ensures t.Bin? ==> Avl(t.l) && Avl(t.r) && -1 <= t.bal <= 1
  {
  }

  /** The node above gets the new root of the subtree. */
  method SetChild(up: Node, side: bool, r: Node, ghost a: seq<Frame>, ghost q: Node, ghost t: Tree)
    requires a != [] && up == a[|a| - 1].at && side == a[|a| - 1].dir
    requires Apart(a) && PathRep(a, q) && t.Bin? && r == t.at && Rep(t) && PathNodes(a) !! Nodes(t)
    modifies up
    ensures PathRep(a, r) && Rep(t)
  {
    AtsInPath(a);
    assert up in Ats(a);
    assert FrameRep(a[|a| - 1], Below(a, |a| - 1, q));
    up.SetP(side, r);
    RelinkEnd(a, q, r);
    RepUnchanged(t);
  }

  /** The rotations of kavl_erase. */
  method ShrinkRebalance(q: Node, which: bool, ghost t: Tree) returns (r: Node, done: bool)
    requires t.Bin? && q == t.at && Rep(t) && Distinct(t) && Kid(t, !which).Bin?
    requires var sib, b1 := Kid(t, !which), if which then -1 else 1;
      sib.bal == -b1 ==> Kid(sib, which).Bin?
    modifies q, Nodes(Kid(t, !which))
    ensures var sib, b1 := Kid(t, !which), if which then -1 else 1;
      && done == (sib.bal == 0)
      && var t' := if sib.bal == -b1 then Rotate2(t, which)
                   else Rotate1With(t, which, if done then b1 else 0, if done then -b1 else 0);
         Rep(t') && r == t'.at
  {
    var b1 := if which then -1 else 1;
    KidsRep(t, which);
    KidsRep(Kid(t, !which), which);
    r := q.P(!which);
    if r.balance == -b1 {
      done := false;
      r := RotateTwice(q, which, t);
    } else {
      done := r.balance == 0;
      r := RotateOnce(q, which, if done then b1 else 0, if done then -b1 else 0, t);
    }
  }

  /** q leans more to the side that did not shrink. */
  method ShiftBalance(q: Node, b1: int, ghost a: seq<Frame>, ghost f: Frame, ghost s: Tree, ghost t: Tree)
    requires q == f.at && PathRep(a, q) && PathNodes(a) !! FrameNodes(f) && FrameRep(f, Ptr(s)) && Rep(s)
    requires Distinct(Fill(f, s)) && t == Make(f.at, f.bal + b1, f.size, f.dir, s, f.sib)
    modifies q`balance
    ensures PathRep(a, q) && Rep(t) && q.balance == f.bal + b1
  {
    KidsDistinct(Fill(f, s), f.dir);
    q.balance := q.balance + b1;
    RepUnchanged(s);
    RepUnchanged(f.sib);
    PathRepUnchanged(a, q);
    MakeRep(t, f.dir);
  }

  /** One turn of the last loop of kavl_erase: the subtree s below q lost a level. */
  method FixAt(q: Node, which: bool, up: Node, side: bool, ghost a: seq<Frame>, ghost f: Frame, ghost s: Tree)
    returns (done: bool)
    requires a != [] && up == a[|a| - 1].at && side == a[|a| - 1].dir && q == f.at && which == f.dir
    requires Apart(a) && PathRep(a, q) && PathNodes(a) !! FrameNodes(f) && PathNodes(a) !! Nodes(s)
    requires FrameRep(f, Ptr(s)) && Rep(s) && Distinct(Fill(f, s)) && Avl(ShrinkFix(f, s).t)
    modifies up, FrameNodes(f)
    ensures done == !ShrinkFix(f, s).moved
    ensures PathRep(a, Ptr(ShrinkFix(f, s).t)) && Rep(ShrinkFix(f, s).t)
  {
    var b1 := if which then -1 else 1;
    ghost var t := Make(f.at, f.bal + b1, f.size, f.dir, s, f.sib);
    FixStepAvl(f, Step(s, true));
    ShrinkFixInorder(f, s);
    NodesAreInorder(Fill(f, s));
    NodesAreInorder(ShrinkFix(f, s).t);
    KidsDistinct(Fill(f, s), f.dir);
    ShiftBalance(q, b1, a, f, s, t);
    done := q.balance == b1;
    if q.balance == 2 * b1 {
      var r;
      r, done := ShrinkRebalance(q, which, t);
      PathRepUnchanged(a, q);
      SetChild(up, side, r, a, q, ShrinkFix(f, s).t);
    }
  }

  /** The state of the last loop of kavl_erase when n frames are left, the fake root c[0] among them;
      t is the tree it works towards. */
  ghost predicate Fixing(c: seq<Frame>, n: nat, s: Tree, done: bool, t: Tree)
    reads PathNodes(c), Nodes(s)
  {
    && 1 <= n <= |c| && Apart(c) && Distinct(s) && PathNodes(c[..n]) !! Nodes(s)
    && PathRep(c[..n], Ptr(s)) && Rep(s)
    && FoldFix(c[1..n], Step(s, !done)).t == t
  }

  lemma {:induction false} FoldFixAvl(c: seq<Frame>, s: Step)
    requires Avl(FoldFix(c, s).t)
    ensures Avl(s.t)
  {
    if c != [] {
      FoldFixAvl(c[..|c| - 1], FixStep(c[|c| - 1], s));
      FixStepAvl(c[|c| - 1], s);
    }
  }

  lemma {:induction false} FixTurnPieces(c: seq<Frame>, d: nat, s: Tree, t: Tree)
    requires 0 < d && Fixing(c, d + 1, s, false, t) && Avl(t)
    ensures var a, f := c[..d], c[d];
      && PathRep(a, f.at) && FrameRep(f, Ptr(s)) && Apart(a) && Distinct(Fill(f, s))
      && PathNodes(a) !! FrameNodes(f) && PathNodes(a) !! Nodes(s) && PathNodes(a) + FrameNodes(f) <= PathNodes(c)
  {
    var a, f := c[..d], c[d];
    var b := c[..d + 1];
    assert b == a + [f] && b[..d] == a && b[d] == f;
    ApartSplit(c, d);
    ApartSplit(b, d);
    PathNodesPush(a, f);
    assert f == c[d..][0] && FrameNodes(f) <= PathNodes(c[d..]);
    PathRepSplit(b, d, Ptr(s));
    assert FrameRep(b[d], Below(b, d, Ptr(s)));
  }

  lemma {:induction false} FixTurnStep(c: seq<Frame>, d: nat, s: Tree, t: Tree)
    requires 0 < d < |c| && FoldFix(c[1..d + 1], Step(s, true)).t == t && Avl(t)
    ensures FoldFix(c[1..d], ShrinkFix(c[d], s)).t == t && Avl(ShrinkFix(c[d], s).t)
  {
    assert c[1..d + 1] == c[1..d] + [c[d]];
    FoldFixPush(c[1..d], c[d], Step(s, true));
    FoldFixAvl(c[1..d], FixStep(c[d], Step(s, true)));
  }

  method FixTurn(path: seq<Node>, dir: seq<bool>, d: nat, ghost c: seq<Frame>, ghost s: Tree, ghost t: Tree)
    returns (done: bool, ghost s': Tree)
    requires 0 < d && Fixing(c, d + 1, s, false, t) && Avl(t)
    requires path == PathOf(c) && dir == SidesOf(c)
    modifies PathNodes(c)
    ensures Fixing(c, d, s', done, t)
  {
    ghost var a, f := c[..d], c[d];
    PathOfOk(c);
    SidesOfOk(c);
    FixTurnPieces(c, d, s, t);
    FixTurnStep(c, d, s, t);
    AtsInPath(a);
    assert a[d - 1].at in Ats(a);
    done := FixAt(path[d], dir[d], path[d - 1], dir[d - 1], a, f, s);
    s' := ShrinkFix(f, s).t;
    ShrinkFixInorder(f, s);
    SameInorder(Fill(f, s), s');
    KidsDistinct(Fill(f, s), f.dir);
  }

  /** The last loop of kavl_erase, up the path. */
  method FixUp(path: seq<Node>, dir: seq<bool>, ghost c: seq<Frame>, ghost s0: Tree, ghost t: Tree)
    requires path == PathOf(c) && dir == SidesOf(c) && Avl(t)
    requires Fixing(c, |c|, s0, false, t)
    modifies PathNodes(c)
    ensures Rep(t) && FrameRep(c[0], Ptr(t))
  {
    PathOfOk(c);
    var d, done := |path| - 1, false;
    ghost var s := s0;
    while d > 0 && !done
      invariant 0 <= d < |c| && Fixing(c, d + 1, s, done, t)
    {
      done, s := FixTurn(path, dir, d, c, s, t);
      d := d - 1;
    }
    FoldFixStill(c[1..d + 1], s);
    assert t == Plug(c[1..d + 1], s);
    FixedUp(c, d + 1, s);
  }

  lemma {:induction false} FixedUp(c: seq<Frame>, n: nat, s: Tree)
    requires 1 <= n <= |c| && PathRep(c[..n], Ptr(s)) && Rep(s)
    ensures var t := Plug(c[1..n], s); Rep(t) && FrameRep(c[0], Ptr(t))
  {
    var b := c[..n];
    assert FrameRep(b[0], Below(b, 0, Ptr(s)));
    assert b[1..] == c[1..n];
    PlugPtr(b[1..], s);
    if n > 1 {
      PathRepSplit(b, 1, Ptr(s));
      PlugRep(b[1..], s);
    }
  }

  // ----- erasure: all of it -----

  ghost function FakeFrame(fake: Node): Frame
    reads fake
  {
    Frame(fake, fake.balance, fake.size, false, Leaf)
  }

  /** The path below the fake root. */
  lemma {:induction false} FakePath(fake: Node, tree: Tree, c: seq<Frame>, t: Tree)
    requires Rep(tree) && Distinct(tree) && fake !in Nodes(tree) && fake.p0 == Ptr(tree) && fake.p1 == null
    requires Plug(c, t) == tree
    ensures var a := [FakeFrame(fake)] + c;
      && Apart(a) && PathRep(a, Ptr(t)) && Rep(t) && Distinct(t) && PathNodes(a) !! Nodes(t)
      && PathNodes(a) + Nodes(t) == {fake} + Nodes(tree)
  {
    var f := FakeFrame(fake);
    var a, whole := [f] + c, Fill(f, tree);
    PlugSplit(a, 1, t);
    assert a[..1] == [f] && a[1..] == c && Plug([f], tree) == whole;
    MakeRep(whole, false);
    ApartAny(a, t);
    PathRepAny(a, t);
  }

  lemma ResizedTail(a: seq<Frame>, a1: seq<Frame>)
    requires a != [] && Resized(a, a1, 1, |a|, -1)
    ensures a1[0] == a[0] && Resized(a[1..], a1[1..], 0, |a| - 1, -1)
  {
  }

  lemma {:induction false} ShrinkWhole(c: seq<Frame>, c1: seq<Frame>, e: seq<Frame>, e1: seq<Frame>, t: Tree, s: Tree)
    requires t.Bin? && DelRoot(t) == FoldShrink(e, Step(s, true))
    requires Resized(c, c1, 0, |c|, -1) && Resized(e, e1, 0, |e|, -1)
    ensures FoldShrink(c, DelRoot(t)) == FoldFix(c1 + e1, Step(s, true))
  {
    FoldShrinkSplit(c, e, Step(s, true));
    ResizedConcat(c, c1, e, e1, -1);
    var x, y := c + e, c1 + e1;
    assert Resized(x, y, 0, |x|, -1);
    FoldShrinkIsFix(x, y, Step(s, true));
  }

  lemma {:induction false} TakeWhole(c: seq<Frame>, a: seq<Frame>, a1: seq<Frame>, e: seq<Frame>, e1: seq<Frame>,
                                     t: Tree, s: Tree)
    requires t.Bin? && DelRoot(t) == FoldShrink(e, Step(s, true))
    requires a != [] && a[1..] == c && Resized(a, a1, 1, |a|, -1) && Resized(e, e1, 0, |e|, -1)
    ensures (a1 + e1)[0] == a[0] && FoldShrink(c, DelRoot(t)) == FoldFix((a1 + e1)[1..], Step(s, true))
  {
    ResizedTail(a, a1);
    var c1 := a1[1..];
    assert (a1 + e1)[1..] == c1 + e1;
    assert |c| == |a| - 1;
    ShrinkWhole(c, c1, e, e1, t, s);
  }

  /** kavl_erase once p is found: take it out and restore balance up to the fake root. */
  method Take(p: Node, path: seq<Node>, dir: seq<bool>, fake: Node, ghost tree: Tree, ghost c: seq<Frame>,
              ghost t: Tree)
    requires Rep(tree) && Distinct(tree) && Avl(tree) && Height(tree) + 1 <= KAVL_MAX_DEPTH
    requires fake !in Nodes(tree) && fake.p0 == Ptr(tree) && fake.p1 == null
    requires Plug(c, t) == tree && t.Bin? && p == t.at && Recorded(path, dir, fake, c)
    requires Avl(FoldShrink(c, DelRoot(t)).t)
    modifies fake, Nodes(tree)
    ensures var u := FoldShrink(c, DelRoot(t)).t; Rep(u) && fake.p0 == Ptr(u)
  {
    ghost var f := FakeFrame(fake);
    ghost var a := [f] + c;
    DescentAny(tree, c, t);
    FakePath(fake, tree, c, t);
    PathOfCons(f, c);
    PathOfOk(a);
    AtsInPath(a);
    ghost var a1 := ResizePath(path, 1, |path|, -1, a, p);
    SameShapeApart(a, a1);
    SameShapePath(a, a1);
    RepUnchanged(t);
    var path', dir';
    ghost var e, e1, s;
    path', dir', e, e1, s := Unlink(p, path, dir, a1, t);
    ghost var d := a1 + e1;
    TakeWhole(c, a, a1, e, e1, t, s);
    assert d[..|d|] == d && d[1..|d|] == d[1..];
    FixUp(path', dir', d, s, FoldShrink(c, DelRoot(t)).t);
  }
}
