/** Where packets are split: positions resolved on the whole message, and cut down to the packet at hand
    (upstream/nfq/protocol.c, upstream/nfq/helpers.c, upstream/nfq/desync.c). */
module SplitPositions {
  import opened Sequences
  import opened Wire
  import opened TcpReceiver
  import opened Splitting
  import QSort
  import Ip2net

  /** CheckPos: 0 stands for no position. */
  function CheckPos(sz: nat, offset: int): (pos: nat)
    ensures pos != 0 <==> 0 < offset < sz
    ensures pos != 0 ==> pos == offset
  {
    if 0 <= offset < sz then offset else 0
  }

  // ----- resolution -----

  function CmpSize(a: nat, b: nat): int {
    if a < b then -1 else if a > b then 1 else 0
  }

  /** qsort_size_t. The C library's qsort is represented by the quicksort of upstream/ip2net/qsort.c. */
  method QsortSize(array_: array<nat>, ct: nat)
    requires ct <= array_.Length < 0x1_0000_0000
    modifies array_
    ensures multiset(array_[..ct]) == old(multiset(array_[..ct])) && NonDecreasing(array_[..ct])
    ensures array_[ct..] == old(array_[ct..])
  {
    var a := new nat[ct](i requires 0 <= i < ct reads array_ => array_[i]);
    assert a[..] == array_[..ct];
    QSort.GnuQuicksort(a, CmpSize);
    ghost var t := a[..];
    assert NonDecreasing(t) by {
      forall i, j | 0 <= i < j < |t| ensures t[i] <= t[j] {
        assert CmpSize(t[i], t[j]) <= 0;
      }
    }
    forall i | 0 <= i < ct { array_[i] := a[i]; }
    assert array_[..ct] == t;
  }

  /** The loop of ResolveMultiPos that collects the positions found. */
  method CollectPos(sz: nat, offsets: seq<int>, pos: array<nat>) returns (j: nat)
    requires |offsets| <= pos.Length
    modifies pos
    ensures j <= |offsets| && forall x :: x in pos[..j] <==> 0 < x < sz && x in offsets
  {
    var i := 0;
    j := 0;
    while i < |offsets|
      invariant j <= i <= |offsets|
      invariant forall x :: x in pos[..j] <==> 0 < x < sz && x in offsets[..i]
    {
      var p := CheckPos(sz, offsets[i]);
      pos[j] := p;
      assert pos[..j + 1] == pos[..j] + [p] && offsets[..i + 1] == offsets[..i] + [offsets[i]];
      if p != 0 {
        j := j + 1;
      }
      i := i + 1;
    }
    assert offsets[..i] == offsets;
  }

  /** ResolveMultiPos, given the offset each marker yields: the positions inside the data, ascending, each once. */
  method ResolveMultiPos(sz: nat, offsets: seq<int>, pos: array<nat>) returns (count: nat)
    requires |offsets| <= pos.Length < 0x1_0000_0000
    modifies pos
    ensures count <= pos.Length && Ascending(pos[..count])
    ensures forall x :: x in pos[..count] <==> 0 < x < sz && x in offsets
  {
    var j := CollectPos(sz, offsets, pos);
    ghost var found := pos[..j];
    QsortSize(pos, j);
    Ip2net.SameMembers(found, pos[..j]);
    Ip2net.DedupSorted(pos[..j]);
    count := Ip2net.Unique(pos, j);
  }

  // ----- normalisation -----

  /** pos_normalize */
  function PosNormalize(splitPos: nat, reasmOffset: nat, lenPayload: nat): (pos: nat)
    ensures pos == if reasmOffset < splitPos < reasmOffset + lenPayload then splitPos - reasmOffset else 0
  {
    if splitPos > reasmOffset && splitPos - reasmOffset < lenPayload then splitPos - reasmOffset else 0
  }

  ghost function Normalized(s: seq<nat>, off: nat, len: nat): (r: seq<nat>)
    ensures |r| <= |s|
  {
    if s == [] then [] else
    var r, x := Normalized(s[..|s| - 1], off, len), PosNormalize(s[|s| - 1], off, len);
    if x != 0 then r + [x] else r
  }

  /** The normalisation loop, in place. */
  method NormalizePos(pos: array<nat>, count: nat, off: nat, len: nat) returns (j: nat)
    requires count <= pos.Length
    modifies pos
    ensures j <= count && pos[..j] == Normalized(old(pos[..count]), off, len)
  {
    ghost var s := pos[..count];
    var i := 0;
    j := 0;
    while i < count
      invariant j <= i <= count && pos[..j] == Normalized(s[..i], off, len)
      invariant forall k | i <= k < count :: pos[k] == s[k]
    {
      assert s[..i + 1][..i] == s[..i];
      pos[j] := PosNormalize(pos[i], off, len);
      assert pos[..j + 1] == pos[..j] + [pos[j]];
      if pos[j] != 0 {
        j := j + 1;
      }
      i := i + 1;
    }
    assert s[..i] == s;
  }

  /** A packet is split exactly at the positions of the message that lie strictly inside it. */
  lemma {:induction false} NormalizedMembers(s: seq<nat>, off: nat, len: nat, x: nat)
    ensures x in Normalized(s, off, len) <==> 0 < x < len && off + x in s
  {
    if s != [] {
      assert s == s[..|s| - 1] + [s[|s| - 1]];
      NormalizedMembers(s[..|s| - 1], off, len, x);
    }
  }

  lemma AscendingPush(r: seq<nat>, x: nat)
    requires Ascending(r) && forall i | 0 <= i < |r| :: r[i] < x
    ensures Ascending(r + [x])
  {
  }

  lemma {:induction false} NormalizedPositions(s: seq<nat>, off: nat, len: nat)
    requires Ascending(s)
    ensures Positions(Normalized(s, off, len), len)
  {
    if s != [] {
      var n := |s| - 1;
      var t, x := s[..n], PosNormalize(s[n], off, len);
      var r := Normalized(t, off, len);
      NormalizedPositions(t, off, len);
      if x != 0 {
        forall i | 0 <= i < |r| ensures r[i] < x {
          NormalizedMembers(t, off, len, r[i]);
        }
        AscendingPush(r, x);
      }
    }
  }

  // ----- the packets of a message -----

  /** The offset of packet k in the message. */
  ghost function Offset(lens: seq<nat>, k: nat): nat
    requires k <= |lens|
  {
    if k == 0 then 0 else Offset(lens, k - 1) + lens[k - 1]
  }

  lemma {:induction false} OffsetMonotone(lens: seq<nat>, j: nat, k: nat)
    requires j <= k <= |lens|
    ensures Offset(lens, j) <= Offset(lens, k)
    decreases k
  {
    if j < k { OffsetMonotone(lens, j, k - 1); }
  }

  /** x is where a packet begins, or where one is split. */
  ghost predicate IsCut(s: seq<nat>, lens: seq<nat>, k: nat, x: nat)
    requires k < |lens|
  {
    x == Offset(lens, k) || (x > Offset(lens, k) && x - Offset(lens, k) in Normalized(s, Offset(lens, k), lens[k]))
  }

  lemma {:induction false} PacketOfPosition(lens: seq<nat>, n: nat, x: nat) returns (k: nat)
    requires n <= |lens| && x < Offset(lens, n)
    ensures k < n && Offset(lens, k) <= x < Offset(lens, k + 1)
  {
    if Offset(lens, n - 1) <= x { k := n - 1; } else { k := PacketOfPosition(lens, n - 1, x); }
  }

  lemma CutMeaning(s: seq<nat>, lens: seq<nat>, k: nat, x: nat)
    requires k < |lens|
    ensures IsCut(s, lens, k, x) <==> x == Offset(lens, k) || (Offset(lens, k) < x < Offset(lens, k + 1) && x in s)
  {
    if x > Offset(lens, k) {
      NormalizedMembers(s, Offset(lens, k), lens[k], x - Offset(lens, k));
      assert Offset(lens, k) + (x - Offset(lens, k)) == x;
    }
  }

  ghost predicate IsBoundary(lens: seq<nat>, x: nat) {
    exists k | 0 <= k < |lens| :: Offset(lens, k) == x
  }

  /** Splitting the packets of a message one at a time cuts the message at the resolved positions and at the packet
      boundaries, and nowhere else. */
  lemma {:induction false} CutsOfMessage(s: seq<nat>, lens: seq<nat>, x: nat)
    requires x < Offset(lens, |lens|)
    ensures (exists k | 0 <= k < |lens| :: IsCut(s, lens, k, x)) <==> x in s || IsBoundary(lens, x)
  {
    if k :| 0 <= k < |lens| && IsCut(s, lens, k, x) {
      CutMeaning(s, lens, k, x);
    }
    if x in s {
      var k := PacketOfPosition(lens, |lens|, x);
      CutMeaning(s, lens, k, x);
    }
    if k :| 0 <= k < |lens| && Offset(lens, k) == x {
      assert IsCut(s, lens, k, x);
    }
  }

  /** A position strictly inside a packet splits that packet only. */
  lemma {:induction false} CutOnce(s: seq<nat>, lens: seq<nat>, j: nat, k: nat, x: nat)
    requires j < |lens| && k < |lens| && j != k && IsCut(s, lens, j, x) && IsCut(s, lens, k, x)
    ensures x == Offset(lens, j) || x == Offset(lens, k)
  {
    CutMeaning(s, lens, j, x);
    CutMeaning(s, lens, k, x);
    if j < k { OffsetMonotone(lens, j + 1, k); } else { OffsetMonotone(lens, k + 1, j); }
  }
}
