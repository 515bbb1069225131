/** replay_queue of upstream/nfq/desync.c: the delayed packets of a message are split and sent one by one. */
module Replay {
  import opened Wire
  import opened TcpReceiver
  import opened Splitting
  import opened SplitPositions

  const MAX_SPLITS := 64

  /** What a desync profile says about splitting: the offset each split marker yields on the message, the overlap (an
      absolute number for a split, an offset for a disorder), its filling, and if a send of it exceeds the MTU. */
  datatype Profile = Profile(disorder: bool, offsets: seq<int>, seqovl: int, pattern: seq<Byte>, mtuExceeded: bool)

  ghost predicate ValidProfile(dp: Profile) {
    |dp.offsets| <= MAX_SPLITS && |dp.pattern| > 0
  }

  /** The positions at which the packet at off is split are those of the message strictly inside it. */
  ghost predicate CutsAt(cuts: seq<nat>, dp: Profile, sz: nat, off: nat, len: nat) {
    Positions(cuts, len) && forall x: nat :: x in cuts <==> 0 < x < len && off + x < sz && off + x in dp.offsets
  }

  /** The segments are the parts between the cuts, or the packet as it is where the overlap is too large. */
  ghost predicate SentParts(sent: seq<Segment>, dp: Profile, payload: seq<Byte>, thSeq: nat, sz: nat, off: nat,
                            cuts: seq<nat>)
    requires ValidProfile(dp)
  {
    if dp.disorder then
      SplitBackwards(sent, payload, thSeq, cuts, PosNormalize(CheckPos(sz, dp.seqovl), off, |payload|), dp.pattern)
    else
      var seqovl := if off == 0 && dp.seqovl > 0 then dp.seqovl else 0;
      SplitInOrder(sent, payload, thSeq, cuts, seqovl, dp.pattern, dp.mtuExceeded)
  }

  /** The split positions of one packet, resolved on a message of sz bytes. */
  method PacketCuts(dp: Profile, sz: nat, off: nat, len: nat) returns (cuts: seq<nat>)
    requires ValidProfile(dp)
    ensures CutsAt(cuts, dp, sz, off, len)
  {
    var pos := new nat[MAX_SPLITS];
    var count := ResolveMultiPos(sz, dp.offsets, pos);
    ghost var s := pos[..count];
    var j := NormalizePos(pos, count, off, len);
    cuts := pos[..j];
    NormalizedPositions(s, off, len);
    forall x: nat ensures x in cuts <==> 0 < x < len && off + x < sz && off + x in dp.offsets {
      NormalizedMembers(s, off, len, x);
    }
  }

  /** A packet at its offset in the message, where it was cut, and what was sent for it. */
  datatype Play = Play(packet: Segment, offset: nat, cuts: seq<nat>, sent: seq<Segment>)

  ghost predicate Played(play: Play, dp: Profile, sz: nat)
    requires ValidProfile(dp)
  {
    match play
    case Play(packet, offset, cuts, sent) =>
      CutsAt(cuts, dp, sz, offset, |packet.data|) && SentParts(sent, dp, packet.data, packet.seqno, sz, offset, cuts)
  }

  /** dpi_desync_packet_play for a TCP packet at reasmOffset in a message of sz bytes, as far as it splits. */
  method PlayPacket(packet: Segment, reasmOffset: nat, sz: nat, dp: Profile, ghost r: Receiver, ghost d: seq<Byte>,
                    ghost base: nat)
    returns (sent: seq<Segment>, ghost play: Play)
    requires ValidProfile(dp) && PacketOf(d, base, packet.data, r.isn, packet.seqno) && Synced(r, d, base)
    ensures Delivered(r, d, base + |packet.data|, sent)
    ensures play == Play(packet, reasmOffset, play.cuts, sent) && Played(play, dp, sz)
  {
    var pos := PacketCuts(dp, sz, reasmOffset, |packet.data|);
    if dp.disorder {
      var seqovlPos := PosNormalize(CheckPos(sz, dp.seqovl), reasmOffset, |packet.data|);
      sent := MultiDisorder(packet.data, packet.seqno, pos, seqovlPos, dp.pattern, r, d, base);
    } else {
      var seqovlPos := if dp.seqovl > 0 then dp.seqovl else 0;
      sent := MultiSplit(packet.data, packet.seqno, pos, seqovlPos, reasmOffset, dp.pattern, dp.mtuExceeded,
                         r, d, base);
    }
    play := Play(packet, reasmOffset, pos, sent);
  }

  ghost function Lengths(queue: seq<Segment>): (lens: seq<nat>)
    ensures |lens| == |queue|
  {
    seq(|queue|, i requires 0 <= i < |queue| => |queue[i].data|)
  }

  ghost predicate IsPacket(d: seq<Byte>, base: nat, queue: seq<Segment>, isn: nat, k: nat)
    requires k < |queue|
  {
    PacketOf(d, base + Offset(Lengths(queue), k), queue[k].data, isn, queue[k].seqno)
  }

  /** Consecutive packets of the stream d, from base on. */
  ghost predicate PacketsOf(d: seq<Byte>, base: nat, queue: seq<Segment>, isn: nat) {
    forall k | 0 <= k < |queue| :: IsPacket(d, base, queue, isn, k)
  }

  lemma {:induction false} ReceiveAppend(r: Receiver, s: seq<Segment>, t: seq<Segment>)
    ensures ReceiveAll(r, s + t) == ReceiveAll(ReceiveAll(r, s), t)
  {
    if t == [] {
      assert s + t == s;
    } else {
      var n, q := |t| - 1, ReceiveAll(r, s);
      var t', x := t[..n], t[n];
      assert t == t' + [x] && s + t == s + t' + [x];
      calc {
        ReceiveAll(r, s + t);
      == { ReceivePush(r, s + t', x); }
        Receive(ReceiveAll(r, s + t'), x);
      == { ReceiveAppend(r, s, t'); }
        Receive(ReceiveAll(q, t'), x);
      == { ReceivePush(q, t', x); }
        ReceiveAll(q, t);
      }
    }
  }

  lemma {:induction false} DeliveredAppend(r: Receiver, d: seq<Byte>, mid: nat, end: nat, s: seq<Segment>,
                                           t: seq<Segment>)
    requires Delivered(r, d, mid, s) && Delivered(ReceiveAll(r, s), d, end, t)
    ensures Delivered(r, d, end, s + t)
  {
    ReceiveAppend(r, s, t);
  }

  /** All that was sent. */
  ghost function AllSent(plays: seq<Play>): seq<Segment> {
    if plays == [] then [] else AllSent(plays[..|plays| - 1]) + plays[|plays| - 1].sent
  }

  /** The first packets of the queue were played, each at its offset. */
  ghost predicate PlaysOf(plays: seq<Play>, queue: seq<Segment>, dp: Profile, sz: nat)
    requires ValidProfile(dp)
  {
    if plays == [] then true else
    var n := |plays| - 1;
    && n < |queue| && plays[n].packet == queue[n] && plays[n].offset == Offset(Lengths(queue), n)
    && Played(plays[n], dp, sz) && PlaysOf(plays[..n], queue, dp, sz)
  }

  lemma {:induction false} PlayAt(plays: seq<Play>, queue: seq<Segment>, dp: Profile, sz: nat, k: nat)
    requires ValidProfile(dp) && PlaysOf(plays, queue, dp, sz) && k < |plays|
    ensures k < |queue| && plays[k].packet == queue[k] && plays[k].offset == Offset(Lengths(queue), k)
    ensures Played(plays[k], dp, sz)
  {
    if k < |plays| - 1 { PlayAt(plays[..|plays| - 1], queue, dp, sz, k); }
  }

  /** The packets of a message, on their way to the receiver r of the stream d. */
  datatype Trip = Trip(queue: seq<Segment>, dp: Profile, sz: nat, r: Receiver, d: seq<Byte>, base: nat)

  /** The packets are consecutive packets of the stream. */
  ghost predicate OnStream(trip: Trip) {
    match trip
    case Trip(queue, _, _, r, d, base) => PacketsOf(d, base, queue, r.isn)
  }

  lemma PacketAt(trip: Trip, k: nat, at: nat)
    requires OnStream(trip) && k < |trip.queue| && at == trip.base + Offset(Lengths(trip.queue), k)
    ensures PacketOf(trip.d, at, trip.queue[k].data, trip.r.isn, trip.queue[k].seqno)
    ensures Offset(Lengths(trip.queue), k + 1) == Offset(Lengths(trip.queue), k) + |trip.queue[k].data|
  {
    assert IsPacket(trip.d, trip.base, trip.queue, trip.r.isn, k);
  }

  /** The state of the loop after some packets were played; the next one begins at position at of the stream. */
  ghost predicate Playing(trip: Trip, plays: seq<Play>, sent: seq<Segment>, at: nat) {
    match trip
    case Trip(queue, dp, sz, r, d, base) =>
      && ValidProfile(dp) && PlaysOf(plays, queue, dp, sz) && sent == AllSent(plays)
      && at == base + Offset(Lengths(queue), |plays|) && Delivered(r, d, at, sent)
  }

  lemma {:induction false} PlaysPush(plays: seq<Play>, queue: seq<Segment>, dp: Profile, sz: nat, play: Play)
    requires ValidProfile(dp) && PlaysOf(plays, queue, dp, sz) && |plays| < |queue| && Played(play, dp, sz)
    requires play.packet == queue[|plays|] && play.offset == Offset(Lengths(queue), |plays|)
    ensures PlaysOf(plays + [play], queue, dp, sz) && AllSent(plays + [play]) == AllSent(plays) + play.sent
  {
    assert (plays + [play])[..|plays|] == plays;
  }

  lemma {:induction false} PlayingStep(trip: Trip, plays: seq<Play>, sent: seq<Segment>, at: nat, play: Play, at': nat)
    requires Playing(trip, plays, sent, at) && |plays| < |trip.queue| && Played(play, trip.dp, trip.sz)
    requires play.packet == trip.queue[|plays|] && play.offset == Offset(Lengths(trip.queue), |plays|)
    requires at' == at + |play.packet.data| && Delivered(ReceiveAll(trip.r, sent), trip.d, at', play.sent)
    ensures Playing(trip, plays + [play], sent + play.sent, at')
  {
    PlaysPush(plays, trip.queue, trip.dp, trip.sz, play);
    DeliveredAppend(trip.r, trip.d, at, at', sent, play.sent);
  }

  lemma {:induction false} PlayingIs(trip: Trip, plays: seq<Play>, sent: seq<Segment>, at: nat)
    requires Playing(trip, plays, sent, at)
    ensures ValidProfile(trip.dp) && PlaysOf(plays, trip.queue, trip.dp, trip.sz) && sent == AllSent(plays)
    ensures at == trip.base + Offset(Lengths(trip.queue), |plays|) && Delivered(trip.r, trip.d, at, sent)
  {
  }

  /** One turn of the loop: a packet is played after those before it. */
  method PlayNext(packet: Segment, offset: nat, sz: nat, dp: Profile, sent0: seq<Segment>, ghost trip: Trip,
                  ghost plays0: seq<Play>, ghost at: nat)
    returns (sent: seq<Segment>, ghost plays: seq<Play>, ghost at': nat)
    requires Playing(trip, plays0, sent0, at) && ValidProfile(dp) && trip.dp == dp && trip.sz == sz
    requires |plays0| < |trip.queue| && packet == trip.queue[|plays0|] &&
             offset == Offset(Lengths(trip.queue), |plays0|)
    requires PacketOf(trip.d, at, packet.data, trip.r.isn, packet.seqno)
    ensures Playing(trip, plays, sent, at') && |plays| == |plays0| + 1 && at' == at + |packet.data|
  {
    PlayingIs(trip, plays0, sent0, at);
    var out;
    ghost var play;
    out, play := PlayPacket(packet, offset, sz, dp, ReceiveAll(trip.r, sent0), trip.d, at);
    at' := at + |packet.data|;
    PlayingStep(trip, plays0, sent0, at, play, at');
    sent, plays := sent0 + out, plays0 + [play];
  }

  lemma PlayingStarts(trip: Trip)
    requires ValidProfile(trip.dp) && Synced(trip.r, trip.d, trip.base)
    requires PacketsOf(trip.d, trip.base, trip.queue, trip.r.isn)
    ensures OnStream(trip) && Playing(trip, [], [], trip.base)
  {
  }

  /** Every packet is split at the positions of the message inside it, and however they are split, the receiver gets the
      message. */
  method ReplayQueue(queue: seq<Segment>, sz: nat, dp: Profile, ghost r: Receiver, ghost d: seq<Byte>, ghost base: nat)
    returns (sent: seq<Segment>, ghost plays: seq<Play>)
    requires ValidProfile(dp) && PacketsOf(d, base, queue, r.isn) && base <= |d| && Synced(r, d, base)
    ensures Delivered(r, d, base + Offset(Lengths(queue), |queue|), sent)
    ensures |plays| == |queue| && PlaysOf(plays, queue, dp, sz) && sent == AllSent(plays)
  {
    sent, plays := [], [];
    var k: nat, offset: nat := 0, 0;
    ghost var trip, at := Trip(queue, dp, sz, r, d, base), base;
    PlayingStarts(trip);
    while k < |queue|
      invariant k == |plays| <= |queue| && offset == Offset(Lengths(queue), k) && at == base + offset
      invariant OnStream(trip) && Playing(trip, plays, sent, at)
    {
      PacketAt(trip, k, at);
      sent, plays, at := PlayNext(queue[k], offset, sz, dp, sent, trip, plays, at);
      offset, k := offset + |queue[k].data|, k + 1;
    }
    PlayingIs(trip, plays, sent, at);
  }
}
