/** The send loops of upstream/nfq/desync.c that split one packet, and what a receiver makes of them. */
module Splitting {
  import BitArith
  import opened Sequences
  import opened Wire
  import opened TcpReceiver

  const OVLSEG_SIZE := 9316 // DPI_DESYNC_MAX_FAKE_LEN + 100

  /** Split positions of a payload of n bytes: strictly inside it and strictly increasing. */
  ghost predicate Positions(pos: seq<nat>, n: nat) {
    Ascending(pos) && forall i | 0 <= i < |pos| :: 0 < pos[i] < n
  }

  /** Part i runs from From(i) to To(i). */
  function From(pos: seq<nat>, i: nat): nat
    requires i <= |pos|
  {
    if i == 0 then 0 else pos[i - 1]
  }

  function To(pos: seq<nat>, n: nat, i: nat): nat
    requires i <= |pos|
  {
    if i == |pos| then n else pos[i]
  }

  lemma PartBounds(pos: seq<nat>, n: nat, i: nat)
    requires Positions(pos, n) && i <= |pos| && (|pos| > 0 || n > 0)
    ensures From(pos, i) < To(pos, n, i) <= n
  {
  }

  /** The payload starts at base in the stream d, and its packet has the sequence number of that place. */
  ghost predicate PacketOf(d: seq<Byte>, base: nat, payload: seq<Byte>, isn: nat, thSeq: nat) {
    base + |payload| <= |d| < 0x7fff_0000 && payload == d[base..base + |payload|] && thSeq == U32(isn + base)
  }

  /** size bytes of the pattern, repeated. */
  function Pattern(pattern: seq<Byte>, size: nat): (s: seq<Byte>)
    requires |pattern| > 0
    ensures |s| == size
  {
    seq(size, i requires 0 <= i < size => pattern[i % |pattern|])
  }

  lemma PatternGrows(pattern: seq<Byte>, k: nat, m: nat)
    requires |pattern| > 0 && k % |pattern| == 0 && m <= |pattern|
    ensures Pattern(pattern, k + m) == Pattern(pattern, k) + pattern[..m]
  {
    forall j | 0 <= j < m ensures Pattern(pattern, k + m)[k + j] == pattern[j] { BitArith.Residue(k, |pattern|, j); }
  }

  /** fill_pattern with offset 0: copies of the pattern, the last one cut. */
  method FillPattern(bufsize0: nat, pattern: seq<Byte>) returns (buf: seq<Byte>)
    requires |pattern| > 0
    ensures buf == Pattern(pattern, bufsize0)
    ensures |buf| == bufsize0 && forall i | 0 <= i < bufsize0 :: buf[i] == pattern[i % |pattern|]
  {
    buf := [];
    var bufsize: nat := bufsize0;
    while bufsize != 0
      invariant |buf| + bufsize == bufsize0 && (bufsize != 0 ==> |buf| % |pattern| == 0)
      invariant buf == Pattern(pattern, |buf|)
    {
      var size: nat := if bufsize > |pattern| then |pattern| else bufsize;
      PatternGrows(pattern, |buf|, size);
      BitArith.Residue(|buf|, |pattern|, 0);
      buf, bufsize := buf + pattern[..size], bufsize - size;
    }
  }

  lemma SumU32(a: int, b: int)
    ensures U32(U32(a) + b) == U32(a + b)
  {
  }

  /** Part i behind some filling, at its place. */
  ghost predicate IsPart(s: Segment, payload: seq<Byte>, thSeq: nat, pos: seq<nat>, i: nat, fill: seq<Byte>) {
    && i <= |pos| && From(pos, i) <= To(pos, |payload|, i) <= |payload|
    && s.seqno == U32(thSeq + From(pos, i) - |fill|) && s.data == fill + payload[From(pos, i)..To(pos, |payload|, i)]
  }

  lemma SliceOfSlice(d: seq<Byte>, base: nat, n: nat, a: nat, b: nat)
    requires base + n <= |d| && a <= b <= n
    ensures d[base..base + n][a..b] == d[base + a..base + b]
  {
    var l, r := d[base..base + n][a..b], d[base + a..base + b];
    assert |l| == |r|;
    forall i | 0 <= i < |l| ensures l[i] == r[i] {
      assert l[i] == d[base..base + n][a + i] == d[base + a + i];
    }
  }

  lemma PartSeqno(base: nat, isn: nat, thSeq: nat, from: nat, ovl: nat)
    requires thSeq == U32(isn + base)
    ensures U32(thSeq + from - ovl) == U32(isn + (base + from - ovl))
  {
    SumU32(isn + base, from - ovl);
  }

  /** A part, sent at its sequence number, carries its piece of the stream. */
  lemma PartCarries(d: seq<Byte>, base: nat, payload: seq<Byte>, isn: nat, thSeq: nat, s: Segment, pos: seq<nat>,
                    i: nat, fill: seq<Byte>)
    requires PacketOf(d, base, payload, isn, thSeq) && IsPart(s, payload, thSeq, pos, i, fill)
    ensures var p := base + From(pos, i) - |fill|;
      s.seqno == U32(isn + p) && Carries(d, p, s.data, base + From(pos, i), base + To(pos, |payload|, i))
  {
    var a, b := From(pos, i), To(pos, |payload|, i);
    PartSeqno(base, isn, thSeq, a, |fill|);
    SliceOfSlice(d, base, |payload|, a, b);
    assert s.data[|fill|..] == payload[a..b];
  }

  /** Having received what was sent, the receiver has handed over d up to end. */
  ghost predicate Delivered(r: Receiver, d: seq<Byte>, end: nat, sent: seq<Segment>) {
    ReceiveAll(r, sent).isn == r.isn && Synced(ReceiveAll(r, sent), d, end)
  }

  lemma DeliverPart(r: Receiver, d: seq<Byte>, base: nat, payload: seq<Byte>, thSeq: nat, sent: seq<Segment>,
                    s: Segment, pos: seq<nat>, i: nat, fill: seq<Byte>)
    requires PacketOf(d, base, payload, r.isn, thSeq) && IsPart(s, payload, thSeq, pos, i, fill) &&
             |fill| <= OVLSEG_SIZE
    requires Delivered(r, d, base + From(pos, i), sent)
    ensures Delivered(r, d, base + To(pos, |payload|, i), sent + [s])
  {
    var a, b, q := base + From(pos, i), base + To(pos, |payload|, i), ReceiveAll(r, sent);
    PartCarries(d, base, payload, r.isn, thSeq, s, pos, i, fill);
    Deliver(q, d, a, a - |fill|, s, b);
    ReceivePush(r, sent, s);
  }

  lemma WholePart(payload: seq<Byte>, thSeq: nat)
    requires thSeq < TWO32
    ensures IsPart(Segment(thSeq, payload), payload, thSeq, [], 0, [])
  {
  }

  /** send_orig on a receiver that already knows the stream before. */
  method SendOriginal(payload: seq<Byte>, thSeq: nat, ghost r: Receiver, ghost d: seq<Byte>, ghost base: nat)
    returns (sent: seq<Segment>)
    requires PacketOf(d, base, payload, r.isn, thSeq) && Synced(r, d, base)
    ensures Delivered(r, d, base + |payload|, sent)
    ensures sent == [Segment(thSeq, payload)]
  {
    sent := [Segment(thSeq, payload)];
    WholePart(payload, thSeq);
    DeliverPart(r, d, base, payload, thSeq, [], sent[0], [], 0, []);
    assert [] + [sent[0]] == sent;
  }

  /** The part i, with the sequence overlap seqovl if there is one. */
  method BuildPart(payload: seq<Byte>, thSeq: nat, from: nat, to: nat, seqovl: nat, pattern: seq<Byte>,
                   ghost pos: seq<nat>, ghost i: nat)
    returns (s: Segment)
    requires |pattern| > 0 && i <= |pos| && from == From(pos, i) && to == To(pos, |payload|, i) &&
             from <= to <= |payload|
    ensures IsPart(s, payload, thSeq, pos, i, Pattern(pattern, seqovl))
  {
    var ovlseg := FillPattern(seqovl, pattern);
    s := Segment(U32(thSeq + from - seqovl), ovlseg + payload[from..to]);
  }

  /** What MULTISPLIT sent: the packet itself, or its parts in order. */
  ghost predicate SentInOrder(sent: seq<Segment>, payload: seq<Byte>, thSeq: nat, pos: seq<nat>, n: nat,
                              fill: seq<Byte>)
  {
    |sent| == n <= |pos| + 1 &&
      forall k | 0 <= k < n :: IsPart(sent[k], payload, thSeq, pos, k, if k == 0 then fill else [])
  }

  lemma InOrderPush(sent: seq<Segment>, payload: seq<Byte>, thSeq: nat, pos: seq<nat>, n: nat, s: Segment,
                    fill: seq<Byte>)
    requires n <= |pos| && SentInOrder(sent, payload, thSeq, pos, n, fill)
    requires IsPart(s, payload, thSeq, pos, n, if n == 0 then fill else [])
    ensures SentInOrder(sent + [s], payload, thSeq, pos, n + 1, fill)
  {
    var all := sent + [s];
    forall k | 0 <= k < n + 1 ensures IsPart(all[k], payload, thSeq, pos, k, if k == 0 then fill else []) {
      if k < n { assert all[k] == sent[k]; }
    }
  }

  /** A packet to split, on its way to a receiver of the stream d. */
  datatype Job = Job(r: Receiver, d: seq<Byte>, base: nat, payload: seq<Byte>, thSeq: nat, pos: seq<nat>)

  /** The state of the loop before part j is sent. */
  ghost predicate Forwards(job: Job, sent: seq<Segment>, j: nat, fill: seq<Byte>) {
    match job
    case Job(r, d, base, payload, thSeq, pos) =>
      && j <= |pos| + 1 && SentInOrder(sent, payload, thSeq, pos, j, fill)
      && Delivered(r, d, base + if j <= |pos| then From(pos, j) else |payload|, sent)
  }

  lemma ForwardsStep(r: Receiver, d: seq<Byte>, base: nat, payload: seq<Byte>, thSeq: nat, pos: seq<nat>,
                     sent: seq<Segment>, j: nat, fill: seq<Byte>, s: Segment)
    requires PacketOf(d, base, payload, r.isn, thSeq) && Forwards(Job(r, d, base, payload, thSeq, pos), sent, j, fill)
    requires j <= |pos| && IsPart(s, payload, thSeq, pos, j, if j == 0 then fill else []) && |fill| <= OVLSEG_SIZE
    ensures Forwards(Job(r, d, base, payload, thSeq, pos), sent + [s], j + 1, fill)
  {
    DeliverPart(r, d, base, payload, thSeq, sent, s, pos, j, if j == 0 then fill else []);
    InOrderPush(sent, payload, thSeq, pos, j, s, fill);
  }

  /** The filling of the first part. */
  function FirstFilling(pattern: seq<Byte>, seqovl: nat, mtuExceeded: bool): seq<Byte>
    requires |pattern| > 0
  {
    if mtuExceeded then [] else Pattern(pattern, seqovl)
  }

  /** One turn of the loop. orig: the overlap does not fit the buffer, and the packet is sent as it is. */
  method SendForwards(payload: seq<Byte>, thSeq: nat, pos: seq<nat>, seqovl0: nat, pattern: seq<Byte>,
                      mtuExceeded: bool, i: nat, from: nat, sent0: seq<Segment>, ghost fill: seq<Byte>,
                      ghost r: Receiver, ghost d: seq<Byte>, ghost base: nat)
    returns (sent: seq<Segment>, to: nat, orig: bool)
    requires Positions(pos, |payload|) && |pattern| > 0 && PacketOf(d, base, payload, r.isn, thSeq)
    requires i <= |pos| && from == From(pos, i) && Forwards(Job(r, d, base, payload, thSeq, pos), sent0, i, fill)
    requires if i == 0 then fill == FirstFilling(pattern, seqovl0, mtuExceeded)
             else seqovl0 == 0 && |fill| <= OVLSEG_SIZE
    ensures to == To(pos, |payload|, i) && (orig <==> seqovl0 != 0 && to - from + seqovl0 > OVLSEG_SIZE)
    ensures !orig ==> Forwards(Job(r, d, base, payload, thSeq, pos), sent, i + 1, fill)
  {
    var seqovl := seqovl0;
    sent, to := sent0, if i == |pos| then |payload| else pos[i];
    orig := seqovl != 0 && to - from + seqovl > OVLSEG_SIZE;
    if !orig {
      if seqovl != 0 && mtuExceeded {
        seqovl := 0;
      }
      var s := BuildPart(payload, thSeq, from, to, seqovl, pattern, pos, i);
      ForwardsStep(r, d, base, payload, thSeq, pos, sent, i, fill, s);
      sent := sent + [s];
    }
  }

  /** What MULTISPLIT sends: the parts in order, with filling in front of the first one. The packet goes out as it is
      without positions, or when the overlap does not fit the buffer. */
  ghost predicate SplitInOrder(sent: seq<Segment>, payload: seq<Byte>, thSeq: nat, pos: seq<nat>, seqovl: nat,
                               pattern: seq<Byte>, mtuExceeded: bool)
    requires |pattern| > 0
  {
    if pos == [] || (seqovl != 0 && pos[0] + seqovl > OVLSEG_SIZE) then sent == [Segment(thSeq, payload)]
    else SentInOrder(sent, payload, thSeq, pos, |pos| + 1, FirstFilling(pattern, seqovl, mtuExceeded))
  }

  /** DESYNC_MULTISPLIT: parts in order; sequence overlap only on the first part of a first packet. mtuExceeded: the
      send of the part with overlap failed for its size, and is repeated without. */
  method MultiSplit(payload: seq<Byte>, thSeq: nat, pos: seq<nat>, seqovlPos: nat, reasmOffset: nat,
                    pattern: seq<Byte>, mtuExceeded: bool, ghost r: Receiver, ghost d: seq<Byte>, ghost base: nat)
    returns (sent: seq<Segment>)
    requires Positions(pos, |payload|) && |pattern| > 0
    requires PacketOf(d, base, payload, r.isn, thSeq) && Synced(r, d, base)
    ensures Delivered(r, d, base + |payload|, sent)
    ensures SplitInOrder(sent, payload, thSeq, pos, if reasmOffset == 0 then seqovlPos else 0, pattern, mtuExceeded)
  {
    sent := [];
    if |pos| == 0 {
      sent := SendOriginal(payload, thSeq, r, d, base);
      return;
    }
    ghost var first := if reasmOffset == 0 then seqovlPos else 0;
    ghost var fill := FirstFilling(pattern, first, mtuExceeded);
    var from: nat, i: nat := 0, 0;
    while i <= |pos|
      invariant i <= |pos| + 1 && (i <= |pos| ==> from == From(pos, i))
      invariant Forwards(Job(r, d, base, payload, thSeq, pos), sent, i, fill)
      invariant i > 0 ==> |fill| <= OVLSEG_SIZE && (first == 0 || pos[0] + first <= OVLSEG_SIZE)
    {
      var seqovl := if i == 0 && reasmOffset == 0 then seqovlPos else 0;
      var orig;
      sent, from, orig :=
        SendForwards(payload, thSeq, pos, seqovl, pattern, mtuExceeded, i, from, sent, fill, r, d, base);
      if orig {
        sent := SendOriginal(payload, thSeq, r, d, base);
        return;
      }
      i := i + 1;
    }
  }

  // ----- MULTIDISORDER -----

  /** A part beyond the first, when the parts after it are there. */
  lemma {:induction false} KeepPart(r: Receiver, d: seq<Byte>, base: nat, payload: seq<Byte>, thSeq: nat,
                                    sent: seq<Segment>, s: Segment, pos: seq<nat>, i: nat, fill: seq<Byte>)
    requires PacketOf(d, base, payload, r.isn, thSeq) && IsPart(s, payload, thSeq, pos, i, fill) &&
             |fill| < From(pos, i)
    requires var lo := base + To(pos, |payload|, i); var q := ReceiveAll(r, sent);
      q.isn == r.isn && Holding(q, d, base, lo, lo, base + |payload|)
    ensures var q := ReceiveAll(r, sent + [s]); var from := base + From(pos, i);
      q.isn == r.isn && Holding(q, d, base, from - |fill|, from, base + |payload|)
  {
    var a, b, q := base + From(pos, i), base + To(pos, |payload|, i), ReceiveAll(r, sent);
    PartCarries(d, base, payload, r.isn, thSeq, s, pos, i, fill);
    ExtendKept(q, d, base, b, base + |payload|, a - |fill|, a, s);
    ReceivePush(r, sent, s);
  }

  /** The first part of the payload, or all of it, when the rest is there behind some filling. */
  lemma {:induction false} FirstPart(r: Receiver, d: seq<Byte>, base: nat, payload: seq<Byte>, thSeq: nat,
                                     sent: seq<Segment>, s: Segment, pos: seq<nat>, junk: nat, lo: nat)
    requires PacketOf(d, base, payload, r.isn, thSeq) && IsPart(s, payload, thSeq, pos, 0, [])
    requires var q := ReceiveAll(r, sent);
      q.isn == r.isn && Holding(q, d, base, junk, lo, base + |payload|) && lo <= base + To(pos, |payload|, 0)
    ensures Delivered(r, d, base + |payload|, sent + [s])
  {
    var b, q := base + To(pos, |payload|, 0), ReceiveAll(r, sent);
    PartCarries(d, base, payload, r.isn, thSeq, s, pos, 0, []);
    FillGap(q, d, base, junk, lo, base + |payload|, base, s, b);
    ReceivePush(r, sent, s);
  }

  /** What MULTIDISORDER sent: the parts from the last to the first, overlap on the second one. */
  ghost predicate SentBackwards(sent: seq<Segment>, payload: seq<Byte>, thSeq: nat, pos: seq<nat>, n: nat,
                                fill: seq<Byte>)
  {
    |sent| == n <= |pos| + 1 &&
    forall k | 0 <= k < n :: IsPart(sent[k], payload, thSeq, pos, |pos| - k, if k == |pos| - 1 then fill else [])
  }

  lemma BackwardsPush(sent: seq<Segment>, payload: seq<Byte>, thSeq: nat, pos: seq<nat>, n: nat, s: Segment,
                      fill: seq<Byte>)
    requires n <= |pos| && SentBackwards(sent, payload, thSeq, pos, n, fill)
    requires IsPart(s, payload, thSeq, pos, |pos| - n, if n == |pos| - 1 then fill else [])
    ensures SentBackwards(sent + [s], payload, thSeq, pos, n + 1, fill)
  {
    var all := sent + [s];
    forall k | 0 <= k < n + 1
      ensures IsPart(all[k], payload, thSeq, pos, |pos| - k, if k == |pos| - 1 then fill else [])
    {
      if k < n { assert all[k] == sent[k]; }
    }
  }

  /** The state of the loop before part j is sent: the parts after it are out, and the receiver keeps them, and once the
      second part is out, also its filling. */
  ghost predicate Backwards(job: Job, sent: seq<Segment>, j: nat, fill: seq<Byte>) {
    match job
    case Job(r, d, base, payload, thSeq, pos) =>
      && j <= |pos| && SentBackwards(sent, payload, thSeq, pos, |pos| - j, fill) && ReceiveAll(r, sent).isn == r.isn
      && var to := To(pos, |payload|, j); var junk := if j == 0 then |fill| else 0;
         junk <= to && Holding(ReceiveAll(r, sent), d, base, base + to - junk, base + to, base + |payload|)
  }

  lemma BackwardsStep(r: Receiver, d: seq<Byte>, base: nat, payload: seq<Byte>, thSeq: nat, pos: seq<nat>,
                      sent: seq<Segment>, j: nat, s: Segment, fill: seq<Byte>)
    requires PacketOf(d, base, payload, r.isn, thSeq) && Backwards(Job(r, d, base, payload, thSeq, pos), sent, j, fill)
    requires 0 < j && IsPart(s, payload, thSeq, pos, j, if j == 1 then fill else [])
    requires 0 < From(pos, j) && (j == 1 ==> |fill| < From(pos, j))
    ensures Backwards(Job(r, d, base, payload, thSeq, pos), sent + [s], j - 1, fill)
  {
    KeepPart(r, d, base, payload, thSeq, sent, s, pos, j, if j == 1 then fill else []);
    BackwardsPush(sent, payload, thSeq, pos, |pos| - j, s, fill);
  }

  lemma BackwardsLast(r: Receiver, d: seq<Byte>, base: nat, payload: seq<Byte>, thSeq: nat, pos: seq<nat>,
                      sent: seq<Segment>, s: Segment, fill: seq<Byte>)
    requires PacketOf(d, base, payload, r.isn, thSeq) && Backwards(Job(r, d, base, payload, thSeq, pos), sent, 0, fill)
    requires |pos| > 0 && IsPart(s, payload, thSeq, pos, 0, [])
    ensures Delivered(r, d, base + |payload|, sent + [s])
    ensures SentBackwards(sent + [s], payload, thSeq, pos, |pos| + 1, fill)
  {
    var to := base + To(pos, |payload|, 0);
    FirstPart(r, d, base, payload, thSeq, sent, s, pos, to - |fill|, to);
    BackwardsPush(sent, payload, thSeq, pos, |pos|, s, fill);
  }

  lemma BackwardsOriginal(r: Receiver, d: seq<Byte>, base: nat, payload: seq<Byte>, thSeq: nat, pos: seq<nat>,
                          sent: seq<Segment>, j: nat, fill: seq<Byte>)
    requires PacketOf(d, base, payload, r.isn, thSeq) && Backwards(Job(r, d, base, payload, thSeq, pos), sent, j, fill)
    requires 0 < j && To(pos, |payload|, j) <= |payload|
    ensures Delivered(r, d, base + |payload|, sent + [Segment(thSeq, payload)])
  {
    var to := base + To(pos, |payload|, j);
    var s := Segment(thSeq, payload);
    WholePart(payload, thSeq);
    FirstPart(r, d, base, payload, thSeq, sent, s, [], to, to);
  }

  lemma BackwardsStart(r: Receiver, d: seq<Byte>, base: nat, payload: seq<Byte>, thSeq: nat, pos: seq<nat>,
                       fill: seq<Byte>)
    requires PacketOf(d, base, payload, r.isn, thSeq) && Synced(r, d, base) && pos != []
    ensures Backwards(Job(r, d, base, payload, thSeq, pos), [], |pos|, fill)
  {
  }

  /** The overlap of the second part, which must not reach the first byte of the payload. */
  function OverlapUsed(pos: seq<nat>, seqovlPos: nat): nat
    requires pos != []
  {
    if seqovlPos < pos[0] then seqovlPos else 0
  }

  predicate OverlapTooLarge(payload: seq<Byte>, pos: seq<nat>, seqovlPos: nat)
    requires pos != []
  {
    seqovlPos < pos[0] && To(pos, |payload|, 1) - pos[0] + seqovlPos > OVLSEG_SIZE
  }

  /** One turn of the loop. orig: the overlap does not fit the buffer, and the packet is sent as it is after all. */
  method SendBackwards(payload: seq<Byte>, thSeq: nat, pos: seq<nat>, seqovlPos: nat, pattern: seq<Byte>, i: nat,
                       to: nat, sent0: seq<Segment>, ghost fill: seq<Byte>, ghost r: Receiver, ghost d: seq<Byte>,
                       ghost base: nat)
    returns (sent: seq<Segment>, orig: bool)
    requires Positions(pos, |payload|) && |pattern| > 0 && PacketOf(d, base, payload, r.isn, thSeq)
    requires i < |pos| && to == To(pos, |payload|, i + 1) && fill == Pattern(pattern, OverlapUsed(pos, seqovlPos))
    requires Backwards(Job(r, d, base, payload, thSeq, pos), sent0, i + 1, fill)
    ensures orig <==> i == 0 && OverlapTooLarge(payload, pos, seqovlPos)
    ensures orig ==> sent == sent0 + [Segment(thSeq, payload)] && Delivered(r, d, base + |payload|, sent)
    ensures !orig ==> Backwards(Job(r, d, base, payload, thSeq, pos), sent, i, fill)
  {
    var from := pos[i];
    var seqovl: nat := if i == 0 && seqovlPos < from then seqovlPos else 0;
    orig := i == 0 && seqovlPos < from && to - from + seqovl > OVLSEG_SIZE;
    PartBounds(pos, |payload|, i + 1);
    PartBounds(pos, |payload|, i);
    if orig {
      BackwardsOriginal(r, d, base, payload, thSeq, pos, sent0, i + 1, fill);
      sent := sent0 + [Segment(thSeq, payload)];
    } else {
      var s := BuildPart(payload, thSeq, from, to, seqovl, pattern, pos, i + 1);
      BackwardsStep(r, d, base, payload, thSeq, pos, sent0, i + 1, s, fill);
      sent := sent0 + [s];
    }
  }

  /** What MULTIDISORDER sends: the parts from the last to the first, with filling in front of the second one. When the
      overlap does not fit the buffer, the packet goes out as it is after the third part. */
  ghost predicate SplitBackwards(sent: seq<Segment>, payload: seq<Byte>, thSeq: nat, pos: seq<nat>, seqovlPos: nat,
                                 pattern: seq<Byte>)
    requires |pattern| > 0
  {
    if pos == [] then sent == [Segment(thSeq, payload)]
    else
      var fill := Pattern(pattern, OverlapUsed(pos, seqovlPos));
      if OverlapTooLarge(payload, pos, seqovlPos) then
        && sent != [] && sent[|sent| - 1] == Segment(thSeq, payload)
        && SentBackwards(sent[..|sent| - 1], payload, thSeq, pos, |pos| - 1, fill)
      else SentBackwards(sent, payload, thSeq, pos, |pos| + 1, fill)
  }

  /** DESYNC_MULTIDISORDER: parts from the last to the first. The filling before the second part lies in the first
      part, beyond its first byte, and is overwritten when that one arrives. */
  method MultiDisorder(payload: seq<Byte>, thSeq: nat, pos: seq<nat>, seqovlPos: nat, pattern: seq<Byte>,
                       ghost r: Receiver, ghost d: seq<Byte>, ghost base: nat)
    returns (sent: seq<Segment>)
    requires Positions(pos, |payload|) && |pattern| > 0
    requires PacketOf(d, base, payload, r.isn, thSeq) && Synced(r, d, base)
    ensures Delivered(r, d, base + |payload|, sent)
    ensures SplitBackwards(sent, payload, thSeq, pos, seqovlPos, pattern)
  {
    sent := [];
    if |pos| == 0 {
      sent := SendOriginal(payload, thSeq, r, d, base);
      return;
    }
    ghost var fill := Pattern(pattern, OverlapUsed(pos, seqovlPos));
    var to: nat, i: int := |payload|, |pos| - 1;
    BackwardsStart(r, d, base, payload, thSeq, pos, fill);
    while i >= 0
      invariant -1 <= i < |pos| && to == To(pos, |payload|, i + 1)
      invariant Backwards(Job(r, d, base, payload, thSeq, pos), sent, i + 1, fill)
      invariant i < 0 ==> !OverlapTooLarge(payload, pos, seqovlPos)
      decreases i
    {
      ghost var sent0 := sent;
      var orig;
      sent, orig := SendBackwards(payload, thSeq, pos, seqovlPos, pattern, i, to, sent, fill, r, d, base);
      if orig {
        assert sent[..|sent| - 1] == sent0;
        return;
      }
      to, i := pos[i], i - 1;
    }
    var s := BuildPart(payload, thSeq, 0, to, 0, pattern, pos, 0);
    BackwardsLast(r, d, base, payload, thSeq, pos, sent, s, fill);
    sent := sent + [s];
  }

  // ----- HOSTFAKESPLIT -----

  /** The positions around the host name, with one inside it if there is one. */
  function HostCuts(posHost: nat, posEndhost: nat, posSplitHost: nat): seq<nat> {
    if posSplitHost != 0 then [posHost, posSplitHost, posEndhost] else [posHost, posEndhost]
  }

  /** The bytes of the payload from a to b, at their place. */
  function Piece(payload: seq<Byte>, thSeq: nat, a: nat, b: nat): Segment
    requires a <= b <= |payload|
  {
    Segment(U32(thSeq + a), payload[a..b])
  }

  lemma PieceIsPart(payload: seq<Byte>, thSeq: nat, from: nat, to: nat, pos: seq<nat>, i: nat)
    requires i <= |pos| && from == From(pos, i) && to == To(pos, |payload|, i) && from <= to <= |payload|
    ensures IsPart(Piece(payload, thSeq, from, to), payload, thSeq, pos, i, [])
  {
  }

  /** The pieces between the positions, the host after the rest with ordering 1. */
  function HostPieces(payload: seq<Byte>, thSeq: nat, posHost: nat, posEndhost: nat, posSplitHost: nat,
                      ordering: nat): (sent: seq<Segment>)
    requires posHost <= posEndhost <= |payload| && (posSplitHost == 0 || posHost <= posSplitHost <= posEndhost)
    ensures posSplitHost == 0 ==>
              |sent| == 3 && sent[if ordering == 1 then 2 else 1] ==
                             Segment(U32(thSeq + posHost), payload[posHost..posEndhost])
    ensures posSplitHost != 0 ==>
              |sent| == 4 &&
              sent[if ordering == 1 then 2 else 1] == Segment(U32(thSeq + posHost), payload[posHost..posSplitHost]) &&
              sent[if ordering == 1 then 3 else 2] ==
              Segment(U32(thSeq + posSplitHost), payload[posSplitHost..posEndhost])
    ensures sent[0] == Segment(U32(thSeq), payload[..posHost])
    ensures sent[if ordering == 1 then 1 else |sent| - 1] == Segment(U32(thSeq + posEndhost), payload[posEndhost..])
  {
    var before, after := [Piece(payload, thSeq, 0, posHost)], [Piece(payload, thSeq, posEndhost, |payload|)];
    var first := if ordering == 1 then before + after else before;
    var host := if posSplitHost == 0 then first + [Piece(payload, thSeq, posHost, posEndhost)] else
                first + [Piece(payload, thSeq, posHost, posSplitHost)]
                      + [Piece(payload, thSeq, posSplitHost, posEndhost)];
    if ordering == 1 then host else host + after
  }

  /** Before part j is sent. With ordering 1 the part after the host is out early: the receiver keeps it, and hands it
      over when the host has arrived. */
  ghost predicate HostState(job: Job, sent: seq<Segment>, j: nat, early: bool) {
    match job
    case Job(r, d, base, payload, thSeq, pos) =>
      && 0 < j <= |pos| && ReceiveAll(r, sent).isn == r.isn
      && if early && j < |pos| then
           var lo := base + From(pos, |pos|);
           Holding(ReceiveAll(r, sent), d, base + From(pos, j), lo, lo, base + |payload|)
         else Delivered(r, d, base + if early then |payload| else From(pos, j), sent)
  }

  lemma AfterHostEarly(r: Receiver, d: seq<Byte>, base: nat, payload: seq<Byte>, thSeq: nat, pos: seq<nat>,
                       sent: seq<Segment>, s: Segment)
    requires PacketOf(d, base, payload, r.isn, thSeq) && |pos| >= 2 && From(pos, 1) < From(pos, |pos|) < |payload|
    requires HostState(Job(r, d, base, payload, thSeq, pos), sent, 1, false) &&
             IsPart(s, payload, thSeq, pos, |pos|, [])
    ensures HostState(Job(r, d, base, payload, thSeq, pos), sent + [s], 1, true)
  {
    var q, a, b := ReceiveAll(r, sent), base + From(pos, |pos|), base + |payload|;
    PartCarries(d, base, payload, r.isn, thSeq, s, pos, |pos|, []);
    SyncedHolds(q, d, base + From(pos, 1), b);
    ExtendKept(q, d, base + From(pos, 1), b, b, a, a, s);
    ReceivePush(r, sent, s);
  }

  /** A part of the host that is not its end, with the rest of the packet there already. */
  lemma HostNarrow(r: Receiver, d: seq<Byte>, base: nat, payload: seq<Byte>, thSeq: nat, pos: seq<nat>,
                   sent: seq<Segment>, s: Segment, j: nat)
    requires PacketOf(d, base, payload, r.isn, thSeq) && 0 < j && j + 1 < |pos|
    requires To(pos, |payload|, j) < From(pos, |pos|) <= |payload|
    requires HostState(Job(r, d, base, payload, thSeq, pos), sent, j, true) && IsPart(s, payload, thSeq, pos, j, [])
    ensures HostState(Job(r, d, base, payload, thSeq, pos), sent + [s], j + 1, true)
  {
    var q, a, b, lo := ReceiveAll(r, sent), base + From(pos, j), base + To(pos, |payload|, j), base + From(pos, |pos|);
    PartCarries(d, base, payload, r.isn, thSeq, s, pos, j, []);
    NarrowGap(q, d, a, lo, base + |payload|, s, b);
    ReceivePush(r, sent, s);
  }

  /** The end of the host, with the rest of the packet there already. */
  lemma HostFill(r: Receiver, d: seq<Byte>, base: nat, payload: seq<Byte>, thSeq: nat, pos: seq<nat>,
                 sent: seq<Segment>, s: Segment, j: nat)
    requires PacketOf(d, base, payload, r.isn, thSeq) && 0 < j && j + 1 == |pos|
    requires HostState(Job(r, d, base, payload, thSeq, pos), sent, j, true) && IsPart(s, payload, thSeq, pos, j, [])
    ensures HostState(Job(r, d, base, payload, thSeq, pos), sent + [s], j + 1, true)
  {
    var q, a, lo := ReceiveAll(r, sent), base + From(pos, j), base + From(pos, |pos|);
    PartCarries(d, base, payload, r.isn, thSeq, s, pos, j, []);
    FillGap(q, d, a, lo, lo, base + |payload|, a, s, lo);
    ReceivePush(r, sent, s);
  }

  lemma HostLate(r: Receiver, d: seq<Byte>, base: nat, payload: seq<Byte>, thSeq: nat, pos: seq<nat>,
                 sent: seq<Segment>, s: Segment, j: nat)
    requires PacketOf(d, base, payload, r.isn, thSeq) && 0 < j < |pos|
    requires HostState(Job(r, d, base, payload, thSeq, pos), sent, j, false) && IsPart(s, payload, thSeq, pos, j, [])
    ensures HostState(Job(r, d, base, payload, thSeq, pos), sent + [s], j + 1, false)
  {
    DeliverPart(r, d, base, payload, thSeq, sent, s, pos, j, []);
  }

  lemma HostLast(r: Receiver, d: seq<Byte>, base: nat, payload: seq<Byte>, thSeq: nat, pos: seq<nat>,
                 sent: seq<Segment>, s: Segment)
    requires PacketOf(d, base, payload, r.isn, thSeq) && IsPart(s, payload, thSeq, pos, |pos|, [])
    requires HostState(Job(r, d, base, payload, thSeq, pos), sent, |pos|, false)
    ensures HostState(Job(r, d, base, payload, thSeq, pos), sent + [s], |pos|, true)
  {
    DeliverPart(r, d, base, payload, thSeq, sent, s, pos, |pos|, []);
  }

  lemma BeforeHost(r: Receiver, d: seq<Byte>, base: nat, payload: seq<Byte>, thSeq: nat, pos: seq<nat>, s: Segment)
    requires PacketOf(d, base, payload, r.isn, thSeq) && |pos| > 0 && IsPart(s, payload, thSeq, pos, 0, [])
    requires Synced(r, d, base)
    ensures HostState(Job(r, d, base, payload, thSeq, pos), [s], 1, false)
  {
    DeliverPart(r, d, base, payload, thSeq, [], s, pos, 0, []);
    assert [] + [s] == [s];
  }

  lemma HostDone(r: Receiver, d: seq<Byte>, base: nat, payload: seq<Byte>, thSeq: nat, pos: seq<nat>,
                 sent: seq<Segment>)
    requires HostState(Job(r, d, base, payload, thSeq, pos), sent, |pos|, true)
    ensures Delivered(r, d, base + |payload|, sent)
  {
  }

  /** Sends part j of the host. */
  method SendHost(payload: seq<Byte>, thSeq: nat, from: nat, to: nat, sent0: seq<Segment>, ghost r: Receiver,
                  ghost d: seq<Byte>, ghost base: nat, ghost pos: seq<nat>, ghost j: nat, ghost early: bool)
    returns (sent: seq<Segment>)
    requires PacketOf(d, base, payload, r.isn, thSeq) && 0 < j < |pos|
    requires from == From(pos, j) && to == pos[j] && from <= to <= From(pos, |pos|) <= |payload|
    requires j + 1 < |pos| ==> to < From(pos, |pos|)
    requires HostState(Job(r, d, base, payload, thSeq, pos), sent0, j, early)
    ensures HostState(Job(r, d, base, payload, thSeq, pos), sent, j + 1, early)
    ensures sent == sent0 + [Piece(payload, thSeq, from, to)]
  {
    var s := Piece(payload, thSeq, from, to);
    PieceIsPart(payload, thSeq, from, to, pos, j);
    sent := sent0 + [s];
    if !early {
      HostLate(r, d, base, payload, thSeq, pos, sent0, s, j);
    } else if j + 1 == |pos| {
      HostFill(r, d, base, payload, thSeq, pos, sent0, s, j);
    } else {
      HostNarrow(r, d, base, payload, thSeq, pos, sent0, s, j);
    }
  }

  /** The genuine segments of DESYNC_HOSTFAKESPLIT, in both orders. The fake ones are made for the receiver to
      discard. */
  method HostFakeSplit(payload: seq<Byte>, thSeq: nat, posHost: nat, posEndhost: nat, posSplitHost: nat, ordering: nat,
                       ghost r: Receiver, ghost d: seq<Byte>, ghost base: nat)
    returns (sent: seq<Segment>)
    requires 0 < posHost < posEndhost < |payload| && (posSplitHost == 0 || posHost < posSplitHost < posEndhost)
    requires ordering <= 1 && PacketOf(d, base, payload, r.isn, thSeq) && Synced(r, d, base)
    ensures Delivered(r, d, base + |payload|, sent)
    ensures sent == HostPieces(payload, thSeq, posHost, posEndhost, posSplitHost, ordering)
  {
    ghost var pos := HostCuts(posHost, posEndhost, posSplitHost);
    var before := Piece(payload, thSeq, 0, posHost);
    PieceIsPart(payload, thSeq, 0, posHost, pos, 0);
    BeforeHost(r, d, base, payload, thSeq, pos, before);
    sent := [before];
    var after := Piece(payload, thSeq, posEndhost, |payload|);
    PieceIsPart(payload, thSeq, posEndhost, |payload|, pos, |pos|);
    if ordering == 1 {
      AfterHostEarly(r, d, base, payload, thSeq, pos, sent, after);
      sent := sent + [after];
    }
    var to := if posSplitHost != 0 then posSplitHost else posEndhost;
    sent := SendHost(payload, thSeq, posHost, to, sent, r, d, base, pos, 1, ordering == 1);
    if posSplitHost != 0 {
      sent := SendHost(payload, thSeq, posSplitHost, posEndhost, sent, r, d, base, pos, 2, ordering == 1);
    }
    if ordering == 0 {
      HostLast(r, d, base, payload, thSeq, pos, sent, after);
      sent := sent + [after];
    }
    HostDone(r, d, base, payload, thSeq, pos, sent);
  }
}
