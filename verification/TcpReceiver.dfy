/** The receiving end of a TCP connection, as far as it decides which bytes reach the application: bytes before the
    next expected one are dropped, bytes beyond it are kept, and a later arrival overwrites a kept byte. */
module TcpReceiver {
  import opened Wire

  /** A TCP segment: sequence number and payload. */
  datatype Segment = Segment(seqno: nat, data: seq<Byte>)

  /** next: bytes handed over; kept: the bytes received, by their position in the stream. */
  datatype Receiver = Receiver(isn: nat, next: nat, kept: map<int, Byte>)

  /** The position of a sequence number, as a signed 32-bit difference from the first one. */
  function Position(isn: nat, seqno: nat): (p: int)
    ensures -0x8000_0000 <= p < 0x8000_0000
  {
    var d := U32(seqno - isn);
    if d < 0x8000_0000 then d else d - TWO32
  }

  lemma PositionExact(isn: nat, p: int)
    requires -0x8000_0000 <= p < 0x8000_0000
    ensures Position(isn, U32(isn + p)) == p
  {
  }

  /** Keeps the first n bytes of data, which begin at p, unless they were handed over. */
  ghost function Keep(kept: map<int, Byte>, next: nat, p: int, data: seq<Byte>, n: nat): map<int, Byte>
    requires n <= |data|
  {
    if n == 0 then kept
    else if p + n - 1 >= next then Keep(kept, next, p, data, n - 1)[p + n - 1 := data[n - 1]]
    else Keep(kept, next, p, data, n - 1)
  }

  /** The first missing position at or after next. */
  ghost function Missing(keys: set<int>, next: int, fuel: nat): (m: int)
    ensures next <= m
    decreases fuel
  {
    if fuel > 0 && next in keys then Missing(keys, next + 1, fuel - 1) else next
  }

  ghost function Receive(r: Receiver, s: Segment): Receiver {
    var kept := Keep(r.kept, r.next, Position(r.isn, s.seqno), s.data, |s.data|);
    Receiver(r.isn, Missing(kept.Keys, r.next, |kept.Keys|), kept)
  }

  ghost function ReceiveAll(r: Receiver, s: seq<Segment>): Receiver {
    if s == [] then r else Receive(ReceiveAll(r, s[..|s| - 1]), s[|s| - 1])
  }

  lemma {:induction false} ReceivePush(r: Receiver, s: seq<Segment>, x: Segment)
    ensures ReceiveAll(r, s + [x]) == Receive(ReceiveAll(r, s), x)
  {
    assert (s + [x])[..|s|] == s;
  }

  lemma {:induction false} IntervalSize(keys: set<int>, a: int, b: int)
    requires a <= b && forall q | a <= q < b :: q in keys
    ensures b - a <= |keys|
    decreases b - a
  {
    if a < b { IntervalSize(keys - {a}, a + 1, b); }
  }

  lemma {:induction false} MissingIs(keys: set<int>, next: int, m: int, fuel: nat)
    requires next <= m && m !in keys && (forall q | next <= q < m :: q in keys) && m - next <= fuel
    ensures Missing(keys, next, fuel) == m
    decreases fuel
  {
    if next < m { MissingIs(keys, next + 1, m, fuel - 1); }
  }

  /** The receiver has the stream d up to the next expected byte; beyond it, something at junk..lo and d at lo..hi. */
  ghost predicate Holding(r: Receiver, d: seq<Byte>, next: nat, junk: nat, lo: nat, hi: nat) {
    match r
    case Receiver(_, expected, kept) =>
      && expected == next <= junk <= lo <= hi <= |d|
      && (forall q :: q in kept <==> 0 <= q < next || junk <= q < hi)
      && forall q | q in kept && !(junk <= q < lo) :: kept[q] == d[q]
  }

  /** The receiver has handed over the first n bytes of d and holds nothing else. */
  ghost predicate Synced(r: Receiver, d: seq<Byte>, n: nat) {
    Holding(r, d, n, n, n, n)
  }

  lemma SyncedHolds(r: Receiver, d: seq<Byte>, n: nat, hi: nat)
    requires Synced(r, d, n) && n <= hi <= |d|
    ensures Holding(r, d, n, hi, hi, hi)
  {
  }

  /** data, sent at p, is d from from on, up to lo; what comes before is arbitrary. */
  ghost predicate Carries(d: seq<Byte>, p: int, data: seq<Byte>, from: nat, lo: nat) {
    p <= from <= lo == p + |data| && lo <= |d| && data[from - p..] == d[from..lo]
  }

  lemma {:induction false} KeepIs(r: Receiver, p: int, data: seq<Byte>, n: nat, q: int)
    requires n <= |data|
    ensures var k := Keep(r.kept, r.next, p, data, n);
      && (q in k <==> q in r.kept || (p <= q < p + n && q >= r.next))
      && (q in k ==> k[q] == if p <= q < p + n && q >= r.next then data[q - p] else r.kept[q])
  {
    if n > 0 { KeepIs(r, p, data, n - 1, q); }
  }

  /** A segment that fills the gap and covers what is not d beyond it: everything kept is handed over. */
  lemma FillGap(r: Receiver, d: seq<Byte>, next: nat, junk: nat, lo: nat, hi: nat, p: int, s: Segment, end: nat)
    requires Holding(r, d, next, junk, lo, hi) && Carries(d, p, s.data, next, end) && lo <= end <= hi
    requires -0x8000_0000 <= p < 0x8000_0000 && s.seqno == U32(r.isn + p)
    ensures Receive(r, s).isn == r.isn && Synced(Receive(r, s), d, hi)
  {
    PositionExact(r.isn, p);
    var k := Keep(r.kept, next, p, s.data, |s.data|);
    forall q ensures q in k <==> 0 <= q < hi {
      KeepIs(r, p, s.data, |s.data|, q);
    }
    forall q | q in k ensures k[q] == d[q] {
      KeepIs(r, p, s.data, |s.data|, q);
      if next <= q < end { assert s.data[q - p] == s.data[next - p..][q - next] == d[next..end][q - next]; }
    }
    IntervalSize(k.Keys, next, hi);
    MissingIs(k.Keys, next, hi, |k.Keys|);
  }

  /** A segment beyond the gap, ending where the kept bytes begin, perhaps with other bytes in front. */
  lemma ExtendKept(r: Receiver, d: seq<Byte>, next: nat, lo: nat, hi: nat, p: nat, from: nat, s: Segment)
    requires Holding(r, d, next, lo, lo, hi) && Carries(d, p, s.data, from, lo) && next < p < 0x8000_0000
    requires s.seqno == U32(r.isn + p)
    ensures Receive(r, s).isn == r.isn && Holding(Receive(r, s), d, next, p, from, hi)
  {
    PositionExact(r.isn, p);
    var k := Keep(r.kept, next, p, s.data, |s.data|);
    forall q ensures q in k <==> 0 <= q < next || p <= q < hi {
      KeepIs(r, p, s.data, |s.data|, q);
    }
    forall q | q in k && !(p <= q < from) ensures k[q] == d[q] {
      KeepIs(r, p, s.data, |s.data|, q);
      if from <= q < lo { assert s.data[q - p] == s.data[from - p..][q - from] == d[from..lo][q - from]; }
    }
    MissingIs(k.Keys, next, next, |k.Keys|);
  }

  /** A segment that fills the gap only in part. */
  lemma NarrowGap(r: Receiver, d: seq<Byte>, next: nat, lo: nat, hi: nat, s: Segment, end: nat)
    requires Holding(r, d, next, lo, lo, hi) && Carries(d, next, s.data, next, end) && end < lo
    requires next < 0x8000_0000 && s.seqno == U32(r.isn + next)
    ensures Receive(r, s).isn == r.isn && Holding(Receive(r, s), d, end, lo, lo, hi)
  {
    PositionExact(r.isn, next);
    var k := Keep(r.kept, next, next, s.data, |s.data|);
    forall q ensures q in k <==> 0 <= q < end || lo <= q < hi {
      KeepIs(r, next, s.data, |s.data|, q);
    }
    forall q | q in k ensures k[q] == d[q] {
      KeepIs(r, next, s.data, |s.data|, q);
      if next <= q < end { assert s.data[q - next] == s.data[0..][q - next] == d[next..end][q - next]; }
    }
    IntervalSize(k.Keys, next, end);
    MissingIs(k.Keys, next, end, |k.Keys|);
  }

  /** The next piece of the stream, perhaps after bytes that lie before it. */
  lemma Deliver(r: Receiver, d: seq<Byte>, n: nat, p: int, s: Segment, to: nat)
    requires Synced(r, d, n) && Carries(d, p, s.data, n, to) && -0x8000_0000 <= p < 0x8000_0000
    requires s.seqno == U32(r.isn + p)
    ensures Receive(r, s).isn == r.isn && Synced(Receive(r, s), d, to)
  {
    FillGap(r, d, n, to, to, to, p, s, to);
  }
}
