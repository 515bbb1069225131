/** gnu_quicksort of upstream/ip2net/qsort.c: median of three, an explicit stack that takes the larger
    part, partitions of up to five elements left for an insertion sort whose inner loop has no guard. */
module QSort {
  import opened BitArith

  type Order<!T> = (T, T) -> int

  /** Exchanging the arguments of the comparator flips the sign of its answer. */
  ghost predicate Flips<T(!new)>(cmp: Order<T>) {
    forall x, y :: cmp(x, y) < 0 <==> cmp(y, x) > 0
  }

  ghost predicate TotalPreorder<T(!new)>(cmp: Order<T>) {
    Flips(cmp) && forall x, y, z :: cmp(x, y) <= 0 && cmp(y, z) <= 0 ==> cmp(x, z) <= 0
  }

  ghost predicate Sorted<T>(s: seq<T>, cmp: Order<T>) {
    forall i, j | 0 <= i < j < |s| :: cmp(s[i], s[j]) <= 0
  }

  // ----- blocks -----

  /** The array as consecutive blocks: last[i] is the last index of the block of i. */
  ghost predicate Blocks(last: seq<int>) {
    && (forall i | 0 <= i < |last| :: i <= last[i] < |last|)
    && forall i, j | 0 <= i <= j < |last| && j <= last[i] :: last[j] == last[i]
  }

  /** Each element is at most every element of the later blocks. */
  ghost predicate Ordered<T>(s: seq<T>, last: seq<int>, cmp: Order<T>) {
    && |s| == |last|
    && forall i, j | 0 <= i < |s| && 0 <= j < |s| && last[i] < j :: cmp(s[i], s[j]) <= 0
  }

  ghost function Swapped<T>(s: seq<T>, x: nat, y: nat): seq<T>
    requires x < |s| && y < |s|
  {
    s[x := s[y]][y := s[x]]
  }

  lemma SameBlockAbove(last: seq<int>, i: nat, x: nat, y: nat)
    requires Blocks(last) && i < |last| && x < |last| && y < |last| && last[x] == last[y] && last[i] < x
    ensures last[i] < y
  {
  }

  /** Exchanging two elements of one block keeps the blocks in order. */
  lemma SwapOrdered<T>(s: seq<T>, last: seq<int>, cmp: Order<T>, x: nat, y: nat)
    requires Blocks(last) && Ordered(s, last, cmp) && x < |s| && y < |s| && last[x] == last[y]
    ensures Ordered(Swapped(s, x, y), last, cmp) && multiset(Swapped(s, x, y)) == multiset(s)
  {
    var t := Swapped(s, x, y);
    forall i, j | 0 <= i < |s| && 0 <= j < |s| && last[i] < j ensures cmp(t[i], t[j]) <= 0 {
      var i', j' := if i == x then y else if i == y then x else i, if j == x then y else if j == y then x else j;
      assert last[i'] == last[i];
      if j == x { SameBlockAbove(last, i', x, y); }
      if j == y { SameBlockAbove(last, i', y, x); }
      assert cmp(s[i'], s[j']) <= 0;
    }
  }

  // ----- partitioning -----

  /** Invariant of everything done inside the block lo..hi: s is a rearrangement of s0 in the same order of blocks. */
  ghost predicate Rearranged<T(!new)>(s0: seq<T>, s: seq<T>, last: seq<int>, cmp: Order<T>) {
    Ordered(s, last, cmp) && multiset(s) == multiset(s0)
  }

  ghost predicate IsBlock(last: seq<int>, lo: int, hi: int) {
    0 <= lo <= hi < |last| && forall i | lo <= i <= hi :: last[i] == hi
  }

  method SwapIn<T(!new)>(a: array<T>, x: int, y: int, cmp: Order<T>, ghost last: seq<int>, ghost lo: int,
                         ghost hi: int, ghost s0: seq<T>)
    requires Blocks(last) && IsBlock(last, lo, hi) && lo <= x <= hi && lo <= y <= hi
    requires Rearranged(s0, a[..], last, cmp)
    modifies a
    ensures Rearranged(s0, a[..], last, cmp)
    ensures a[x] == old(a[y]) && a[y] == old(a[x])
    ensures forall i | 0 <= i < a.Length && i != x && i != y :: a[i] == old(a[i])
  {
    SwapOrdered(a[..], last, cmp, x, y);
    a[x], a[y] := a[y], a[x];
    assert a[..] == Swapped(old(a[..]), x, y);
  }

  /** Puts the median of three at mid, with the other two on their sides. */
  method MedianOfThree<T(!new)>(a: array<T>, lo: int, mid: int, hi: int, cmp: Order<T>, ghost last: seq<int>,
                                ghost s0: seq<T>)
    requires Flips(cmp) && Blocks(last) && IsBlock(last, lo, hi) && lo < mid < hi
    requires Rearranged(s0, a[..], last, cmp)
    modifies a
    ensures Rearranged(s0, a[..], last, cmp)
    ensures cmp(a[lo], a[mid]) <= 0 && cmp(a[mid], a[hi]) <= 0
  {
    if cmp(a[mid], a[lo]) < 0 {
      SwapIn(a, mid, lo, cmp, last, lo, hi, s0);
    }
    if cmp(a[hi], a[mid]) < 0 {
      SwapIn(a, mid, hi, cmp, last, lo, hi, s0);
      if cmp(a[mid], a[lo]) < 0 {
        SwapIn(a, mid, lo, cmp, last, lo, hi, s0);
      }
    }
  }

  /** lo..left-1 holds elements at most p, right+1..hi elements at least p. */
  ghost predicate Walls<T(!new)>(s: seq<T>, p: T, lo: int, left: int, right: int, hi: int, cmp: Order<T>) {
    && 0 <= lo < left <= hi < |s| && lo <= right < hi
    && (forall i | lo <= i < left :: cmp(s[i], p) <= 0)
    && forall i | right < i <= hi :: cmp(s[i], p) >= 0
  }

  /** The two scans of one round; the elements beyond the walls stop them. */
  method Scan<T(!new)>(a: array<T>, p: T, lo: int, left0: int, right0: int, hi: int, cmp: Order<T>)
    returns (left: int, right: int)
    requires Flips(cmp) && Walls(a[..], p, lo, left0, right0, hi, cmp) && left0 <= right0
    ensures Walls(a[..], p, lo, left, right, hi, cmp) && left0 <= left <= right + 1 && right <= right0
    ensures cmp(a[left], p) >= 0 && cmp(a[right], p) <= 0
  {
    left, right := left0, right0;
    while cmp(a[left], p) < 0
      invariant left0 <= left <= right0 + 1 && Walls(a[..], p, lo, left, right, hi, cmp)
      decreases right0 + 1 - left
    {
      assert a[..][left] == a[left];
      left := left + 1;
    }
    while cmp(p, a[right]) < 0
      invariant left <= right + 1 <= right0 + 1 && Walls(a[..], p, lo, left, right, hi, cmp)
      decreases right
    {
      assert a[..][right] == a[right];
      right := right - 1;
    }
  }

  /** The end of a round: exchange the two elements the scans stopped at, and step past them. */
  method StepIn<T(!new)>(a: array<T>, mid0: int, lo: int, left0: int, right0: int, hi: int, cmp: Order<T>,
                         ghost last: seq<int>, ghost s0: seq<T>, ghost p: T)
    returns (mid: int, left: int, right: int)
    requires Flips(cmp) && Blocks(last) && IsBlock(last, lo, hi) && Rearranged(s0, a[..], last, cmp)
    requires Walls(a[..], p, lo, left0, right0, hi, cmp) && left0 <= right0 && lo <= mid0 <= hi && a[mid0] == p
    requires cmp(a[left0], p) >= 0 && cmp(a[right0], p) <= 0
    modifies a
    ensures Rearranged(s0, a[..], last, cmp) && lo <= mid <= hi && a[mid] == p
    ensures Walls(a[..], p, lo, left, right, hi, cmp) && left == left0 + 1 && right == right0 - 1
  {
    mid := mid0;
    if left0 < right0 {
      SwapIn(a, left0, right0, cmp, last, lo, hi, s0);
      if mid == left0 { mid := right0; } else if mid == right0 { mid := left0; }
    }
    left, right := left0 + 1, right0 - 1;
    assert forall i | lo <= i < left :: a[..][i] == a[i];
    assert forall i | right < i <= hi :: a[..][i] == a[i];
  }

  /** The inner loops of quicksort: the block lo..hi falls into lo..right, at most one element, and left..hi. */
  method Partition<T(!new)>(a: array<T>, lo: int, hi: int, cmp: Order<T>, ghost last: seq<int>, ghost s0: seq<T>)
    returns (left: int, right: int, ghost p: T)
    requires Flips(cmp) && Blocks(last) && IsBlock(last, lo, hi) && lo + 2 <= hi
    requires Rearranged(s0, a[..], last, cmp)
    modifies a
    ensures Rearranged(s0, a[..], last, cmp)
    ensures right < left <= right + 2 && Walls(a[..], p, lo, left, right, hi, cmp)
  {
    var mid := lo + (hi - lo) / 2;
    MedianOfThree(a, lo, mid, hi, cmp, last, s0);
    p := a[mid];
    left, right := lo + 1, hi - 1;
    while left <= right
      invariant Rearranged(s0, a[..], last, cmp) && Walls(a[..], p, lo, left, right, hi, cmp)
      invariant left <= right + 2 && lo <= mid <= hi && a[mid] == p
      decreases right - left + 1
    {
      left, right := Scan(a, a[mid], lo, left, right, hi, cmp);
      if left <= right {
        mid, left, right := StepIn(a, mid, lo, left, right, hi, cmp, last, s0, p);
      }
    }
  }

  // ----- the blocks after a partition -----

  ghost function Refine(last: seq<int>, lo: int, left: int, right: int): seq<int>
    requires 0 <= lo <= right < left <= |last|
  {
    seq(|last|, i requires 0 <= i < |last| =>
      if lo <= i <= right then right else if right < i < left then i else last[i])
  }

  lemma RefineBlocks(last: seq<int>, lo: int, left: int, right: int, hi: int)
    requires Blocks(last) && IsBlock(last, lo, hi) && lo <= right < left <= hi && left <= right + 2
    requires lo == 0 || last[lo - 1] == lo - 1
    ensures var l := Refine(last, lo, left, right);
      && Blocks(l) && IsBlock(l, lo, right) && IsBlock(l, left, hi) && l[left - 1] == left - 1
  {
  }

  lemma RefineOrdered<T(!new)>(s: seq<T>, p: T, last: seq<int>, lo: int, left: int, right: int, hi: int, cmp: Order<T>)
    requires TotalPreorder(cmp) && Ordered(s, last, cmp) && IsBlock(last, lo, hi)
    requires Walls(s, p, lo, left, right, hi, cmp) && right < left
    ensures Ordered(s, Refine(last, lo, left, right), cmp)
  {
    var l := Refine(last, lo, left, right);
    forall i, j | 0 <= i < |s| && 0 <= j < |s| && l[i] < j ensures cmp(s[i], s[j]) <= 0 {
      if lo <= i < left && j <= hi {
        assert cmp(s[i], p) <= 0 && cmp(s[j], p) >= 0;
      } else {
        assert last[i] < j;
      }
    }
  }

  // ----- the explicit stack -----

  const MAX_THRESH := 4
  const STACK_SIZE := 64 // CHAR_BIT * sizeof(size_t)

  datatype Segment = Segment(lo: int, hi: int)

  ghost predicate Disjoint(s: Segment, t: Segment) {
    s.hi < t.lo || t.hi < s.lo
  }

  ghost predicate Within(s: Segment, i: int) {
    s.lo <= i <= s.hi
  }

  /** A whole block. */
  ghost predicate WholeBlock(last: seq<int>, s: Segment) {
    IsBlock(last, s.lo, s.hi) && (s.lo == 0 || last[s.lo - 1] == s.lo - 1)
  }

  /** The segments still to be partitioned are disjoint blocks, and all other blocks have at most five elements. */
  ghost predicate Pending(last: seq<int>, segs: seq<Segment>) {
    && Blocks(last)
    && (forall k | 0 <= k < |segs| :: WholeBlock(last, segs[k]) && segs[k].hi - segs[k].lo >= MAX_THRESH)
    && (forall k, m | 0 <= k < m < |segs| :: Disjoint(segs[k], segs[m]))
    && forall i | 0 <= i < |last| && last[i] > i + MAX_THRESH :: exists k | 0 <= k < |segs| :: Within(segs[k], i)
  }

  /** What a partition of the block s into l and r leaves to do. */
  ghost predicate Remaining(l: Segment, r: Segment, new_: seq<Segment>) {
    && |new_| <= 2 && (|new_| == 2 ==> new_[0] != new_[1])
    && (forall k | 0 <= k < |new_| :: (new_[k] == l || new_[k] == r) && new_[k].hi - new_[k].lo > MAX_THRESH)
    && (l.hi - l.lo > MAX_THRESH ==> l in new_) && (r.hi - r.lo > MAX_THRESH ==> r in new_)
  }

  lemma RefineOthers(last: seq<int>, s: Segment, left: int, right: int, t: Segment)
    requires Blocks(last) && WholeBlock(last, s) && s.lo <= right < left <= s.hi
    requires WholeBlock(last, t) && Disjoint(s, t)
    ensures WholeBlock(Refine(last, s.lo, left, right), t)
  {
  }

  lemma PendingRest(last: seq<int>, rest: seq<Segment>, s: Segment, k: nat)
    requires Pending(last, rest + [s])
    ensures WholeBlock(last, s)
    ensures k < |rest| ==> WholeBlock(last, rest[k]) && rest[k].hi - rest[k].lo >= MAX_THRESH && Disjoint(s, rest[k])
  {
    var segs := rest + [s];
    assert segs[|rest|] == s;
    if k < |rest| { assert segs[k] == rest[k] && Disjoint(segs[k], segs[|rest|]); }
  }

  lemma PendingDisjoint(last: seq<int>, rest: seq<Segment>, s: Segment, left: int, right: int, new_: seq<Segment>,
                        k: nat, m: nat)
    requires Pending(last, rest + [s]) && s.lo <= right < left <= s.hi
    requires Remaining(Segment(s.lo, right), Segment(left, s.hi), new_)
    requires k < m < |rest + new_|
    ensures Disjoint((rest + new_)[k], (rest + new_)[m])
  {
    if k < |rest| {
      PendingRest(last, rest, s, k);
      if m < |rest| { assert (rest + [s])[k] == rest[k] && (rest + [s])[m] == rest[m]; }
    }
  }

  lemma PendingCovers(last: seq<int>, rest: seq<Segment>, s: Segment, left: int, right: int, new_: seq<Segment>, i: nat)
    requires Pending(last, rest + [s]) && WholeBlock(last, s) && s.lo <= right < left <= s.hi
    requires Remaining(Segment(s.lo, right), Segment(left, s.hi), new_)
    requires var l := Refine(last, s.lo, left, right); i < |l| && l[i] > i + MAX_THRESH
    ensures exists k | 0 <= k < |rest + new_| :: Within((rest + new_)[k], i)
  {
    var segs, segs' := rest + [s], rest + new_;
    if Within(s, i) {
      var t := if i <= right then Segment(s.lo, right) else Segment(left, s.hi);
      var k :| 0 <= k < |new_| && new_[k] == t;
      assert segs'[|rest| + k] == t;
    } else {
      var k :| 0 <= k < |segs| && Within(segs[k], i);
      assert segs'[k] == segs[k];
    }
  }

  lemma PendingStep(last: seq<int>, rest: seq<Segment>, s: Segment, left: int, right: int, new_: seq<Segment>)
    requires Pending(last, rest + [s]) && WholeBlock(last, s) && s.lo <= right < left <= s.hi && left <= right + 2
    requires Remaining(Segment(s.lo, right), Segment(left, s.hi), new_)
    ensures Pending(Refine(last, s.lo, left, right), rest + new_)
  {
    var segs', l := rest + new_, Refine(last, s.lo, left, right);
    RefineBlocks(last, s.lo, left, right, s.hi);
    forall k | 0 <= k < |segs'| ensures WholeBlock(l, segs'[k]) && segs'[k].hi - segs'[k].lo >= MAX_THRESH {
      if k < |rest| {
        PendingRest(last, rest, s, k);
        RefineOthers(last, s, left, right, rest[k]);
      }
    }
    forall k, m | 0 <= k < m < |segs'| ensures Disjoint(segs'[k], segs'[m]) {
      PendingDisjoint(last, rest, s, left, right, new_, k, m);
    }
    forall i | 0 <= i < |l| && l[i] > i + MAX_THRESH ensures exists k | 0 <= k < |segs'| :: Within(segs'[k], i) {
      PendingCovers(last, rest, s, left, right, new_, i);
    }
  }

  /** The k-th segment on the stack has at most n / 2^k elements. */
  ghost predicate Halving(segs: seq<Segment>, n: nat) {
    forall k | 0 <= k < |segs| :: (segs[k].hi - segs[k].lo + 1) * Pow2(k) <= n
  }

  lemma HalvingStep(rest: seq<Segment>, s: Segment, new_: seq<Segment>, n: nat)
    requires Halving(rest + [s], n) && |new_| <= 2
    requires forall k | 0 <= k < |new_| :: new_[k].lo >= s.lo && new_[k].hi <= s.hi
    requires |new_| == 2 ==> 2 * (new_[1].hi - new_[1].lo + 1) <= s.hi - s.lo + 1
    ensures Halving(rest + new_, n)
  {
    var segs, segs' := rest + [s], rest + new_;
    var d := |rest|;
    assert segs[d] == s;
    forall k | 0 <= k < |segs'| ensures (segs'[k].hi - segs'[k].lo + 1) * Pow2(k) <= n {
      if k < d {
        assert segs'[k] == segs[k];
      } else {
        var m, w := segs'[k].hi - segs'[k].lo + 1, s.hi - s.lo + 1;
        if k == d { MulMonotone(m, w, Pow2(d)); } else { MulMonotone(2 * m, w, Pow2(d)); }
      }
    }
  }

  /** With a 64-bit size_t the stack never overflows. */
  lemma StackFits(segs: seq<Segment>, n: nat)
    requires Halving(segs, n) && n < 0x1_0000_0000_0000_0000
    requires segs != [] && segs[|segs| - 1].hi - segs[|segs| - 1].lo >= MAX_THRESH
    ensures |segs| <= STACK_SIZE - 2
  {
    var k := |segs| - 1;
    var m := segs[k].hi - segs[k].lo + 1;
    MulMonotone(5, m, Pow2(k));
    Pow2At62();
    if k >= 62 { Pow2Monotone(62, k); }
  }

  ghost function Weight(s: Segment): nat {
    if s.lo <= s.hi then 2 * (s.hi - s.lo) + 1 else 0
  }

  ghost function Work(segs: seq<Segment>): nat {
    if segs == [] then 0 else Work(segs[..|segs| - 1]) + Weight(segs[|segs| - 1])
  }

  lemma {:induction false} WorkPush(segs: seq<Segment>, s: Segment)
    ensures Work(segs + [s]) == Work(segs) + Weight(s)
  {
    assert (segs + [s])[..|segs|] == segs;
  }

  lemma {:induction false} WorkPair(segs: seq<Segment>, s: Segment, t: Segment)
    ensures Work(segs + [s, t]) == Work(segs) + Weight(s) + Weight(t)
  {
    WorkPush(segs, s);
    WorkPush(segs + [s], t);
    assert segs + [s, t] == segs + [s] + [t];
  }

  /** Both parts together weigh less than the whole. */
  lemma PartsWeigh(lo: int, right: int, left: int, hi: int)
    requires lo <= right < left <= hi
    ensures Weight(Segment(lo, right)) + Weight(Segment(left, hi)) < Weight(Segment(lo, hi))
  {
  }

  lemma {:induction false} WorkStep(rest: seq<Segment>, s: Segment, left: int, right: int, new_: seq<Segment>)
    requires s.lo <= right < left <= s.hi && Remaining(Segment(s.lo, right), Segment(left, s.hi), new_)
    ensures Work(rest + new_) < Work(rest + [s])
  {
    WorkPush(rest, s);
    PartsWeigh(s.lo, right, left, s.hi);
    if |new_| == 0 {
      assert Work(rest + new_) == Work(rest) by { assert rest + new_ == rest; }
    } else if |new_| == 1 {
      assert Work(rest + new_) == Work(rest) + Weight(new_[0]) by {
        assert new_ == [new_[0]];
        WorkPush(rest, new_[0]);
      }
    } else {
      assert Work(rest + new_) == Work(rest) + Weight(new_[0]) + Weight(new_[1]) by {
        assert new_ == [new_[0], new_[1]];
        WorkPair(rest, new_[0], new_[1]);
      }
    }
  }

  /** The segments left to partition: those pushed after the sentinel, then the current one. */
  ghost function Todo(stack: seq<Segment>, lo: int, hi: int): seq<Segment> {
    if stack == [] then [] else stack[1..] + [Segment(lo, hi)]
  }

  /** What to do with the two parts: those of up to five elements are ignored, and of two larger ones the larger is
      pushed. */
  method NextSegment(stack0: seq<Segment>, lo0: int, hi0: int, left: int, right: int)
    returns (stack: seq<Segment>, lo: int, hi: int, ghost new_: seq<Segment>)
    requires 0 < |stack0| < STACK_SIZE && lo0 <= right < left <= hi0
    ensures Remaining(Segment(lo0, right), Segment(left, hi0), new_)
    ensures |new_| == 2 ==> 2 * (new_[1].hi - new_[1].lo + 1) <= hi0 - lo0 + 1
    ensures Todo(stack, lo, hi) == stack0[1..] + new_ && |stack| <= STACK_SIZE
  {
    stack, lo, hi, new_ := stack0, lo0, hi0, [];
    if right - lo <= MAX_THRESH {
      if hi - left <= MAX_THRESH {
        lo, hi := stack[|stack| - 1].lo, stack[|stack| - 1].hi;
        stack := stack[..|stack| - 1];
      } else {
        lo, new_ := left, [Segment(left, hi)];
      }
    } else if hi - left <= MAX_THRESH {
      hi, new_ := right, [Segment(lo, right)];
    } else if right - lo > hi - left {
      new_ := [Segment(lo, right), Segment(left, hi)];
      stack := stack + [Segment(lo, right)];
      lo := left;
    } else {
      new_ := [Segment(left, hi), Segment(lo, right)];
      stack := stack + [Segment(left, hi)];
      hi := right;
    }
  }

  lemma CurrentSegment(last: seq<int>, rest: seq<Segment>, lo: int, hi: int)
    requires Pending(last, rest + [Segment(lo, hi)])
    ensures WholeBlock(last, Segment(lo, hi)) && lo + MAX_THRESH <= hi
  {
    assert (rest + [Segment(lo, hi)])[|rest|] == Segment(lo, hi);
  }

  /** One round of the main loop. */
  method Round<T(!new)>(a: array<T>, stack0: seq<Segment>, lo0: int, hi0: int, cmp: Order<T>, ghost last0: seq<int>,
                        ghost s0: seq<T>)
    returns (stack: seq<Segment>, lo: int, hi: int, ghost last: seq<int>)
    requires TotalPreorder(cmp) && Rearranged(s0, a[..], last0, cmp) && 0 < |stack0| < STACK_SIZE
    requires Pending(last0, stack0[1..] + [Segment(lo0, hi0)]) && Halving(Todo(stack0, lo0, hi0), a.Length)
    modifies a
    ensures Rearranged(s0, a[..], last, cmp) && |stack| <= STACK_SIZE
    ensures Pending(last, Todo(stack, lo, hi)) && Halving(Todo(stack, lo, hi), a.Length)
    ensures Work(Todo(stack, lo, hi)) < Work(Todo(stack0, lo0, hi0))
  {
    ghost var rest, s := stack0[1..], Segment(lo0, hi0);
    CurrentSegment(last0, rest, lo0, hi0);
    var left, right, p := Partition(a, lo0, hi0, cmp, last0, s0);
    RefineOrdered(a[..], p, last0, lo0, left, right, hi0, cmp);
    last := Refine(last0, lo0, left, right);
    ghost var new_;
    stack, lo, hi, new_ := NextSegment(stack0, lo0, hi0, left, right);
    PendingStep(last0, rest, s, left, right, new_);
    HalvingStep(rest, s, new_, a.Length);
    WorkStep(rest, s, left, right, new_);
  }

  lemma OneBlock<T(!new)>(s: seq<T>, n: nat, cmp: Order<T>) returns (last: seq<int>)
    requires |s| == n > 0
    ensures Rearranged(s, s, last, cmp) && IsBlock(last, 0, n - 1) && Blocks(last) && |last| == n
    ensures n > MAX_THRESH ==> Pending(last, [Segment(0, n - 1)])
  {
    last := seq(n, _ => n - 1);
    if n > MAX_THRESH {
      var segs := [Segment(0, n - 1)];
      assert forall i | 0 <= i < n :: Within(segs[0], i);
    }
  }

  /** The stack at the beginning. */
  lemma AllTodo(last: seq<int>, stack: seq<Segment>, lo: int, hi: int)
    requires stack == [Segment(-1, -1)] && lo == 0 <= hi && Pending(last, [Segment(lo, hi)])
    ensures Pending(last, Todo(stack, lo, hi)) && Halving(Todo(stack, lo, hi), hi + 1)
  {
    assert Todo(stack, lo, hi) == [Segment(lo, hi)];
  }

  /** The quicksort proper: afterwards no block has more than five elements. */
  method QuickPhase<T(!new)>(a: array<T>, cmp: Order<T>) returns (ghost last: seq<int>)
    requires TotalPreorder(cmp) && 0 < a.Length < 0x1_0000_0000_0000_0000
    modifies a
    ensures Rearranged(old(a[..]), a[..], last, cmp) && Blocks(last)
    ensures forall i | 0 <= i < |last| :: last[i] <= i + MAX_THRESH
  {
    ghost var s0 := a[..];
    last := OneBlock(s0, a.Length, cmp);
    if a.Length > MAX_THRESH {
      var lo, hi := 0, a.Length - 1;
      var stack := [Segment(-1, -1)];
      AllTodo(last, stack, lo, hi);
      while stack != []
        invariant Rearranged(s0, a[..], last, cmp) && |stack| <= STACK_SIZE
        invariant Pending(last, Todo(stack, lo, hi)) && Halving(Todo(stack, lo, hi), a.Length)
        decreases Work(Todo(stack, lo, hi))
      {
        StackFits(Todo(stack, lo, hi), a.Length);
        stack, lo, hi, last := Round(a, stack, lo, hi, cmp, last, s0);
      }
    }
  }

  // ----- the final insertion sort -----

  ghost predicate LeastFirst<T(!new)>(s: seq<T>, cmp: Order<T>) {
    s != [] && forall i | 0 <= i < |s| :: cmp(s[0], s[i]) <= 0
  }

  /** The index of the smallest of the first five elements. */
  method SmallestOfFive<T(!new)>(a: array<T>, cmp: Order<T>) returns (tmp: int)
    requires TotalPreorder(cmp) && a.Length > 0
    ensures 0 <= tmp < a.Length
    ensures forall i | 0 <= i < a.Length && i <= MAX_THRESH :: cmp(a[tmp], a[i]) <= 0
  {
    var end := a.Length - 1;
    var thresh := if end < MAX_THRESH then end else MAX_THRESH;
    var run := 1;
    tmp := 0;
    assert cmp(a[0], a[0]) <= 0;
    while run <= thresh
      invariant 0 <= tmp <= thresh && 1 <= run <= thresh + 1
      invariant forall i | 0 <= i < run :: cmp(a[tmp], a[i]) <= 0
    {
      if cmp(a[run], a[tmp]) < 0 {
        tmp := run;
      }
      run := run + 1;
    }
  }

  lemma SmallestOfAll<T(!new)>(s: seq<T>, cmp: Order<T>, last: seq<int>, tmp: int)
    requires TotalPreorder(cmp) && |s| > 0 && Ordered(s, last, cmp) && last[0] <= MAX_THRESH && 0 <= tmp < |s|
    requires forall i | 0 <= i < |s| && i <= MAX_THRESH :: cmp(s[tmp], s[i]) <= 0
    ensures LeastFirst(Swapped(s, tmp, 0), cmp)
  {
    forall i | 0 <= i < |s| ensures cmp(s[tmp], s[i]) <= 0 {
      if i > MAX_THRESH { assert cmp(s[0], s[i]) <= 0 && cmp(s[tmp], s[0]) <= 0; }
    }
  }

  /** The smallest element is among the first five; it is put at the beginning of the array. */
  method SmallestFirst<T(!new)>(a: array<T>, cmp: Order<T>, ghost last: seq<int>)
    requires TotalPreorder(cmp) && a.Length > 0 && Ordered(a[..], last, cmp) && last[0] <= MAX_THRESH
    modifies a
    ensures LeastFirst(a[..], cmp) && multiset(a[..]) == old(multiset(a[..]))
  {
    ghost var s := a[..];
    var tmp := SmallestOfFive(a, cmp);
    SmallestOfAll(s, cmp, last, tmp);
    if tmp != 0 {
      a[tmp], a[0] := a[0], a[tmp];
      assert a[..] == Swapped(s, tmp, 0);
    } else {
      assert s == Swapped(s, 0, 0);
    }
  }

  ghost function Inserted<T>(s: seq<T>, tmp: nat, run: nat): seq<T>
    requires tmp <= run < |s|
  {
    s[..tmp] + [s[run]] + s[tmp..run] + s[run + 1..]
  }

  /** Moves the element at run to tmp, and those between up by one. */
  method Rotate<T(!new)>(a: array<T>, tmp: nat, run: nat)
    requires tmp < run < a.Length
    modifies a
    ensures a[..] == Inserted(old(a[..]), tmp, run)
  {
    var c := a[run];
    var hi := run;
    while hi > tmp
      invariant tmp <= hi <= run
      invariant forall i | 0 <= i < a.Length :: a[i] == if hi < i <= run then old(a[i - 1]) else old(a[i])
    {
      a[hi] := a[hi - 1];
      hi := hi - 1;
    }
    a[hi] := c;
  }

  lemma InsertedMultiset<T>(s: seq<T>, tmp: nat, run: nat)
    requires tmp <= run < |s|
    ensures multiset(Inserted(s, tmp, run)) == multiset(s)
  {
    assert s == s[..tmp] + s[tmp..run] + [s[run]] + s[run + 1..];
  }

  ghost predicate SortedUpTo<T>(s: seq<T>, n: int, cmp: Order<T>) {
    0 <= n <= |s| && forall i, j | 0 <= i < j < n :: cmp(s[i], s[j]) <= 0
  }

  lemma InsertedAt<T>(s: seq<T>, tmp: nat, run: nat, i: nat)
    requires tmp <= run < |s| && i < |s|
    ensures Inserted(s, tmp, run)[i] == s[if i < tmp || run < i then i else if i == tmp then run else i - 1]
  {
  }

  /** Where the inner loop stops. */
  ghost predicate Slot<T(!new)>(s: seq<T>, tmp: int, run: int, cmp: Order<T>) {
    && 0 < tmp <= run < |s| && cmp(s[run], s[tmp - 1]) >= 0
    && forall k | tmp <= k < run :: cmp(s[run], s[k]) < 0
  }

  lemma InsertedPair<T(!new)>(s: seq<T>, cmp: Order<T>, tmp: nat, run: nat, i: nat, j: nat)
    requires TotalPreorder(cmp) && SortedUpTo(s, run, cmp) && Slot(s, tmp, run, cmp) && i < j <= run
    ensures cmp(Inserted(s, tmp, run)[i], Inserted(s, tmp, run)[j]) <= 0
  {
    InsertedAt(s, tmp, run, i);
    InsertedAt(s, tmp, run, j);
    if j == tmp {
      assert cmp(s[tmp - 1], s[run]) <= 0;
      if i < tmp - 1 { assert cmp(s[i], s[tmp - 1]) <= 0; }
    } else if i == tmp {
      assert cmp(s[run], s[j - 1]) < 0;
    } else {
      var i', j' := if i < tmp then i else i - 1, if j < tmp then j else j - 1;
      assert cmp(s[i'], s[j']) <= 0;
    }
  }

  lemma InsertedSorted<T(!new)>(s: seq<T>, cmp: Order<T>, tmp: nat, run: nat)
    requires TotalPreorder(cmp) && SortedUpTo(s, run, cmp) && Slot(s, tmp, run, cmp) && LeastFirst(s, cmp)
    ensures SortedUpTo(Inserted(s, tmp, run), run + 1, cmp) && LeastFirst(Inserted(s, tmp, run), cmp)
  {
    var t := Inserted(s, tmp, run);
    forall i, j | 0 <= i < j < run + 1 ensures cmp(t[i], t[j]) <= 0 {
      InsertedPair(s, cmp, tmp, run, i, j);
    }
    forall i | 0 <= i < |t| ensures cmp(t[0], t[i]) <= 0 {
      InsertedAt(s, tmp, run, 0);
      InsertedAt(s, tmp, run, i);
    }
  }

  /** The inner loop has no bound of its own: the least element, in front, stops it. */
  method FindSlot<T(!new)>(a: array<T>, cmp: Order<T>, run: nat) returns (tmp: int)
    requires TotalPreorder(cmp) && 2 <= run < a.Length && LeastFirst(a[..], cmp)
    ensures Slot(a[..], tmp, run, cmp)
  {
    assert cmp(a[..][0], a[..][run]) <= 0;
    tmp := run - 1;
    while cmp(a[run], a[tmp]) < 0
      invariant 0 <= tmp < run && forall k | tmp < k < run :: cmp(a[run], a[k]) < 0
      decreases tmp
    {
      tmp := tmp - 1;
    }
    tmp := tmp + 1;
  }

  method Place<T(!new)>(a: array<T>, tmp: nat, run: nat)
    requires tmp <= run < a.Length
    modifies a
    ensures a[..] == Inserted(old(a[..]), tmp, run)
  {
    if tmp != run {
      Rotate(a, tmp, run);
    } else {
      assert a[..] == Inserted(a[..], run, run);
    }
  }

  method InsertNext<T(!new)>(a: array<T>, cmp: Order<T>, run: nat, ghost s0: seq<T>)
    requires TotalPreorder(cmp) && 2 <= run < a.Length && SortedUpTo(a[..], run, cmp)
    requires LeastFirst(a[..], cmp) && multiset(a[..]) == multiset(s0)
    modifies a
    ensures SortedUpTo(a[..], run + 1, cmp)
    ensures LeastFirst(a[..], cmp) && multiset(a[..]) == multiset(s0)
  {
    var tmp := FindSlot(a, cmp, run);
    InsertedSorted(a[..], cmp, tmp, run);
    InsertedMultiset(a[..], tmp, run);
    Place(a, tmp, run);
  }

  method InsertionSort<T(!new)>(a: array<T>, cmp: Order<T>, ghost s0: seq<T>)
    requires TotalPreorder(cmp) && LeastFirst(a[..], cmp) && multiset(a[..]) == multiset(s0)
    modifies a
    ensures Sorted(a[..], cmp) && multiset(a[..]) == multiset(s0)
  {
    var end := a.Length - 1;
    var run := 2;
    assert a.Length > 1 ==> cmp(a[..][0], a[..][1]) <= 0;
    while run <= end
      invariant 2 <= run && LeastFirst(a[..], cmp) && multiset(a[..]) == multiset(s0)
      invariant SortedUpTo(a[..], if run <= a.Length then run else a.Length, cmp)
    {
      InsertNext(a, cmp, run, s0);
      run := run + 1;
    }
  }

  /** For every array and every total preorder the result is a sorted permutation of the input. */
  method GnuQuicksort<T(!new)>(a: array<T>, cmp: Order<T>)
    requires TotalPreorder(cmp) && a.Length < 0x1_0000_0000_0000_0000
    modifies a
    ensures Sorted(a[..], cmp) && multiset(a[..]) == old(multiset(a[..]))
  {
    if a.Length == 0 {
      return;
    }
    var last := QuickPhase(a, cmp);
    SmallestFirst(a, cmp, last);
    InsertionSort(a, cmp, old(a[..]));
  }
}
