/** Reassembly of a message and the queue of its delayed packets (upstream/nfq/desync.c, upstream/nfq/conntrack.c,
    upstream/nfq/packet_queue.c). */
module Delay {
  import opened Wire
  import opened Tls
  import opened TcpReceiver
  import opened Splitting
  import opened SplitPositions
  import opened Replay

  const TCP_MAX_REASM := 16384
  const UDP_MAX_REASM := 16384

  /** t_reassemble */
  class Reassemble {
    var packet: array?<Byte>
    var size: nat
    var sizePresent: nat
    var seqno: nat

    ghost predicate Valid()
      reads this
    {
      sizePresent <= size && (size > 0 ==> packet != null && packet.Length == size) && seqno < TWO32
    }

    /** The bytes fed so far. */
    ghost function Present(): seq<Byte>
      requires Valid()
      reads this, packet
    {
      if size == 0 then [] else packet[..sizePresent]
    }

    constructor ()
      ensures Valid() && size == 0 && packet == null
    {
      packet, size, sizePresent, seqno := null, 0, 0, 0;
    }

    /** ReasmClear */
    method Clear()
      requires Valid()
      modifies this
      ensures Valid() && size == 0 && packet == null
    {
      packet, size, sizePresent := null, 0, 0;
    }

    /** ReasmInit */
    method Init(sizeRequested: nat, seqStart: nat)
      requires seqStart < TWO32
      modifies this
      ensures Valid() && size == sizeRequested && Present() == [] && seqno == seqStart
      ensures packet != null && fresh(packet)
    {
      packet := new Byte[sizeRequested](_ => 0);
      size, sizePresent, seqno := sizeRequested, 0, seqStart;
    }

    /** ReasmFeed: data is taken only in sequence, and only as much as fits. */
    method Feed(seqno_: nat, payload: seq<Byte>) returns (ok: bool)
      requires Valid() && size > 0
      modifies this, packet
      ensures Valid() && packet == old(packet) && size == old(size) && ok == (old(seqno) == seqno_)
      ensures !ok ==> Present() == old(Present()) && seqno == old(seqno)
      ensures ok ==> Present() == Truncated(old(Present()) + payload, size)
      ensures ok ==> seqno == U32(seqno_ + (sizePresent - old(sizePresent)))
    {
      if seqno != seqno_ {
        return false;
      }
      var szcopy := if |payload| < size - sizePresent then |payload| else size - sizePresent;
      forall i | 0 <= i < szcopy { packet[sizePresent + i] := payload[i]; }
      sizePresent := sizePresent + szcopy;
      seqno := U32(seqno + szcopy);
      ok := true;
    }
  }

  function Truncated(s: seq<Byte>, size: nat): (t: seq<Byte>)
    ensures |t| <= size && t <= s
  {
    if |s| <= size then s else s[..size]
  }

  ghost function Joined(queue: seq<Segment>): (d: seq<Byte>) {
    if queue == [] then [] else Joined(queue[..|queue| - 1]) + queue[|queue| - 1].data
  }

  lemma {:induction false} JoinedPush(queue: seq<Segment>, p: Segment)
    ensures Joined(queue + [p]) == Joined(queue) + p.data
  {
    assert (queue + [p])[..|queue|] == queue;
  }

  /** The packets follow each other in sequence, from start on. */
  ghost predicate Chained(queue: seq<Segment>, start: nat) {
    if queue == [] then true else
    var init, last := queue[..|queue| - 1], queue[|queue| - 1];
    Chained(init, start) && last.seqno == U32(start + |Joined(init)|)
  }

  lemma {:induction false} ChainedPush(queue: seq<Segment>, start: nat, p: Segment)
    requires Chained(queue, start) && p.seqno == U32(start + |Joined(queue)|)
    ensures Chained(queue + [p], start)
  {
    assert (queue + [p])[..|queue|] == queue;
  }

  /** How a packet leaves: sent at once, whole or split; flushed from the queue as it came; or replayed at an offset
      of the reassembled message. */
  datatype Leave =
    | Passed(packet: Segment)
    | Flushed(packet: Segment)
    | Replayed(packet: Segment, offset: nat, message: seq<Byte>)

  ghost function Packets(out: seq<Leave>): (r: seq<Segment>)
    ensures |r| == |out|
  {
    if out == [] then [] else Packets(out[..|out| - 1]) + [out[|out| - 1].packet]
  }

  lemma {:induction false} PacketsPush(out: seq<Leave>, x: Leave)
    ensures Packets(out + [x]) == Packets(out) + [x.packet]
  {
    assert (out + [x])[..|out|] == out;
  }

  /** The message of a queue starts with these packets: what the replay of the first k of them looks like. */
  ghost predicate IsReplay(out: seq<Leave>, queue: seq<Segment>, message: seq<Byte>) {
    if |queue| != |out| then false else if queue == [] then true else
    var k := |queue| - 1;
    && out[k] == Replayed(queue[k], |Joined(queue[..k])|, message)
    && IsReplay(out[..k], queue[..k], message)
  }

  lemma {:induction false} ReplayPush(out: seq<Leave>, queue: seq<Segment>, p: Segment, message: seq<Byte>)
    requires IsReplay(out, queue, message)
    ensures IsReplay(out + [Replayed(p, |Joined(queue)|, message)], queue + [p], message)
  {
    assert (queue + [p])[..|queue|] == queue;
    assert (out + [Replayed(p, |Joined(queue)|, message)])[..|queue|] == out;
  }

  lemma {:induction false} ReplayPackets(sent0: seq<Leave>, out: seq<Leave>, queue: seq<Segment>, message: seq<Byte>)
    requires IsReplay(out, queue, message)
    ensures Packets(sent0 + out) == Packets(sent0) + queue
  {
    if queue == [] {
      assert sent0 + out == sent0;
    } else {
      var k := |queue| - 1;
      ReplayPackets(sent0, out[..k], queue[..k], message);
      PacketsPush(sent0 + out[..k], out[k]);
      assert sent0 + out == sent0 + out[..k] + [out[k]];
    }
  }

  lemma Moved(done: seq<Segment>, left: seq<Segment>, sent0: seq<Leave>, out: seq<Leave>, p: Segment, x: Leave)
    requires left != [] && left[0] == p
    ensures (done + [p]) + left[1..] == done + left && sent0 + (out + [x]) == sent0 + out + [x]
  {
  }

  /** The sequence number that follows a packet. */
  function After(p: Segment): nat {
    U32(p.seqno + |p.data|)
  }

  /** The packet is the next one in sequence. */
  ghost predicate Continues(queue: seq<Segment>, p: Segment) {
    queue != [] && p.seqno == After(queue[|queue| - 1])
  }

  lemma {:induction false} ChainedAfter(queue: seq<Segment>, start: nat, p: Segment)
    requires Chained(queue, start) && queue != []
    ensures Continues(queue, p) <==> p.seqno == U32(start + |Joined(queue)|)
  {
    var n := |queue| - 1;
    SumU32(start + |Joined(queue[..n])|, |queue[n].data|);
  }

  /** The queue leaves as it came. */
  ghost function Flush(queue: seq<Segment>): (r: seq<Leave>)
    ensures |r| == |queue|
  {
    seq(|queue|, i requires 0 <= i < |queue| => Flushed(queue[i]))
  }

  lemma FlushOne(sent0: seq<Leave>, done: seq<Segment>, p: Segment)
    ensures sent0 + Flush(done + [p]) == sent0 + Flush(done) + [Flushed(p)]
  {
    assert Flush(done + [p]) == Flush(done) + [Flushed(p)];
  }

  /** The queue, and what has left. */
  datatype Stage = Stage(delayed: seq<Segment>, sent: seq<Leave>)

  /** A packet that continues the message is queued, and completes it when the length in the record is reached. */
  ghost predicate Joins(queue: seq<Segment>, sent0: seq<Leave>, now: Stage, replayed: bool) {
    match now
    case Stage(delayed, sent) =>
      var d := Joined(queue);
      && |d| >= 6 && (replayed <==> |d| >= 5 + 256 * (d[3] as int) + d[4] as int)
      && (!replayed ==> delayed == queue && sent == sent0)
  }

  /** Any other packet flushes the queue; it is delayed exactly if it begins a longer record, and passes at once
      otherwise. */
  ghost predicate Begins(p: Segment, ready: bool, queue: seq<Segment>, sent0: seq<Leave>, now: Stage) {
    match now
    case Stage(delayed, sent) =>
      if ready && BeginsRecord(p.data) then delayed == [p] && sent == sent0 + Flush(queue)
      else delayed == [] && sent == sent0 + Flush(queue) + [Passed(p)]
  }

  // ----- recognising a ClientHello -----

  const HTTP_METHODS := ["GET /", "POST /", "HEAD /", "OPTIONS ", "PUT /", "DELETE /", "CONNECT ", "TRACE /"]

  predicate StartsWith(data: seq<Byte>, s: string) {
    |s| <= |data| && forall i | 0 <= i < |s| :: data[i] == (s[i] as int)
  }

  predicate IsHttp(data: seq<Byte>) {
    exists k | 0 <= k < |HTTP_METHODS| :: StartsWith(data, HTTP_METHODS[k])
  }

  /** The bytes of a packet that begins a ClientHello record of at most 16 KiB and does not hold all of it. */
  ghost predicate BeginsRecord(d: seq<Byte>) {
    && |d| >= 6 && d[0] == 22 && d[1] == 3 && d[2] <= 3 && d[5] == 1
    && |d| < 5 + 256 * (d[3] as int) + d[4] as int <= 16384
  }

  /** What the CRYPTO frames of a decrypted QUIC payload amount to. */
  datatype QuicResult = NoCrypto | PartCovered | Covered(hello: bool, reqFull: bool)

  /** What becomes of a QUIC packet: it goes on, it is delayed, or all delayed packets leave with it. */
  datatype QuicStep = Let | Hold | Finish

  ghost function QuicAction(readable: bool, going: bool, result: QuicResult): (step: QuicStep)
    ensures step == Finish <==> readable && going && result == Covered(true, true)
    ensures step == Hold <==>
              && readable
              && (result == PartCovered ||
                  (result.Covered? && (going || result.hello) && !(result.hello && result.reqFull)))
  {
    if !readable then Let else
    match result
    case NoCrypto => Let
    case PartCovered => Hold
    case Covered(hello, reqFull) =>
      if hello && reqFull then if going then Finish else Let
      else if going || hello then Hold else Let
  }

  // ----- the flow -----

  /** The reassembly and the queue of one tracked connection. */
  class Flow {
    const tcp: bool
    const reasm: Reassemble
    var delayed: seq<Segment>
    var sent: seq<Leave>
    ghost var arrived: seq<Segment>
    ghost var start: nat

    /** Every packet that arrived has left or is in the queue, in the order of arrival. A queue without a reassembly
        is empty; for TCP the buffer holds the joined payloads of the queue, and it is not full. */
    ghost predicate Valid()
      reads this, reasm, reasm.packet
    {
      && reasm.Valid() && Packets(sent) + delayed == arrived
      && (delayed == [] <==> reasm.size == 0)
      && if tcp then
           reasm.size > 0 ==> InSequence()
         else reasm.size > 0 ==> reasm.size == UDP_MAX_REASM && reasm.seqno == reasm.sizePresent
    }

    /** The part of the invariant about TCP. */
    ghost predicate InSequence()
      requires reasm.Valid()
      reads this, reasm, reasm.packet
    {
      && Chained(delayed, start) && reasm.Present() == Joined(delayed) && |Joined(delayed)| < reasm.size
      && reasm.seqno == U32(start + |Joined(delayed)|)
      && IsTlsClientHello(Joined(delayed), true) && reasm.size == TlsRecordLen(Joined(delayed)) <= TCP_MAX_REASM
    }

    constructor (tcp: bool)
      ensures Valid() && sent == [] && arrived == [] && this.tcp == tcp && fresh(reasm) && reasm.packet == null
    {
      this.tcp := tcp;
      reasm := new Reassemble();
      delayed, sent, arrived, start := [], [], [], 0;
    }

    /** send_delayed */
    method SendDelayed()
      modifies this`delayed, this`sent
      ensures delayed == [] && sent == old(sent) + Flush(old(delayed))
      ensures Packets(sent) == old(Packets(sent) + delayed)
    {
      ghost var queue, done := delayed, [];
      while delayed != []
        invariant done + delayed == queue && sent == old(sent) + Flush(done)
        invariant Packets(sent) + delayed == old(Packets(sent) + delayed)
        decreases |delayed|
      {
        PacketsPush(sent, Flushed(delayed[0]));
        FlushOne(old(sent), done, delayed[0]);
        done := done + [delayed[0]];
        sent, delayed := sent + [Flushed(delayed[0])], delayed[1..];
      }
      assert done == queue;
    }

    /** reasm_orig_stop */
    method Stop()
      requires reasm.Valid()
      modifies this`delayed, this`sent, reasm
      ensures reasm.Valid() && reasm.size == 0 && delayed == [] && Packets(sent) == old(Packets(sent) + delayed)
      ensures reasm.packet == null || reasm.packet == old(reasm.packet)
      ensures sent == old(sent) + Flush(old(delayed))
    {
      if reasm.size != 0 {
        reasm.Clear();
      }
      SendDelayed();
    }

    /** What every path does that lets the packet at hand go on at once: the queue goes first. */
    method Pass(p: Segment)
      requires reasm.Valid() && Packets(sent) + delayed + [p] == arrived
      modifies this`delayed, this`sent, reasm
      ensures Valid() && delayed == [] && sent == old(sent) + Flush(old(delayed)) + [Passed(p)]
      ensures reasm.packet == null || reasm.packet == old(reasm.packet)
    {
      Stop();
      PacketsPush(sent, Passed(p));
      sent := sent + [Passed(p)];
    }

    /** reasm_orig_start */
    method Start(sz: nat, szMax: nat, seqno: nat, payload: seq<Byte>) returns (ok: bool)
      requires reasm.Valid() && seqno < TWO32 && sz > 0
      modifies reasm
      ensures reasm.Valid() && ok == (sz <= szMax) &&
              (ok ==> reasm.size == sz && reasm.Present() == Truncated(payload, sz))
      ensures ok ==> reasm.seqno == U32(seqno + reasm.sizePresent) && reasm.packet != null && fresh(reasm.packet)
      ensures !ok ==> reasm.size == 0 && reasm.packet == null
    {
      reasm.Clear();
      ok := sz <= szMax;
      if ok {
        reasm.Init(sz, seqno);
        var _ := reasm.Feed(seqno, payload);
      }
    }

    /** replay_queue: the packets leave in order, each with its offset in the message. */
    method DequeueAll(message: seq<Byte>) returns (ghost out: seq<Leave>)
      modifies this`delayed, this`sent
      ensures delayed == [] && sent == old(sent) + out && IsReplay(out, old(delayed), message)
      ensures Packets(sent) == old(Packets(sent) + delayed)
    {
      var offset := 0;
      ghost var queue, done, sent0 := delayed, [], sent;
      out := [];
      while delayed != []
        invariant done + delayed == queue && offset == |Joined(done)|
        invariant sent == sent0 + out && IsReplay(out, done, message)
        decreases |delayed|
      {
        var p := delayed[0];
        var x := Replayed(p, offset, message);
        ReplayPush(out, done, p, message);
        JoinedPush(done, p);
        Moved(done, delayed, sent0, out, p, x);
        done, out := done + [p], out + [x];
        sent, delayed, offset := sent + [x], delayed[1..], offset + |p.data|;
      }
      assert done == queue;
      ReplayPackets(sent0, out, queue, message);
    }

    /** replay_queue, then reasm_orig_fin. */
    method ReplayDelayed() returns (ghost out: seq<Leave>)
      requires reasm.Valid() && reasm.size > 0 && Packets(sent) + delayed == arrived
      modifies this`delayed, this`sent, reasm
      ensures Valid() && delayed == [] && sent == old(sent) + out
      ensures IsReplay(out, old(delayed), old(reasm.Present()))
      ensures reasm.packet == null || reasm.packet == old(reasm.packet)
    {
      out := DequeueAll(reasm.packet[..reasm.sizePresent]);
      Stop();
    }

    /** The reassembly has taken p, which is not queued yet. */
    ghost predicate FedWith(p: Segment)
      reads this, reasm, reasm.packet
    {
      var all := Joined(delayed) + p.data;
      && reasm.Valid() && Chained(delayed, start) && p.seqno == U32(start + |Joined(delayed)|)
      && 6 <= |Joined(delayed)| < reasm.size && reasm.Present() == Truncated(all, reasm.size)
      && IsTlsClientHello(all, true) && reasm.size == TlsRecordLen(all) <= TCP_MAX_REASM
      && reasm.seqno == U32(start + reasm.sizePresent)
    }

    /** reasm_orig_feed for TCP: a packet out of sequence ends the reassembly, and the queue is flushed. */
    method FeedNext(p: Segment) returns (fed: bool)
      requires reasm.Valid() && reasm.size > 0 && InSequence() && delayed != []
      requires Packets(sent) + delayed + [p] == arrived
      modifies this`delayed, this`sent, reasm, reasm.packet
      ensures fed <==> Continues(old(delayed), p)
      ensures fed ==> FedWith(p) && delayed == old(delayed) && sent == old(sent) && reasm.packet == old(reasm.packet)
      ensures !fed ==> reasm.Valid() && reasm.size == 0 && delayed == [] && Packets(sent) + [p] == arrived
      ensures !fed ==> sent == old(sent) + Flush(old(delayed))
      ensures reasm.packet == null || reasm.packet == old(reasm.packet)
    {
      ChainedAfter(delayed, start, p);
      SumU32(start + |Joined(delayed)|, Fitting(p.data));
      fed := reasm.Feed(p.seqno, p.data);
      if !fed {
        Stop();
      }
    }

    ghost function Fitting(data: seq<Byte>): nat
      requires reasm.Valid()
      reads reasm
    {
      if |data| < reasm.size - reasm.sizePresent then |data| else reasm.size - reasm.sizePresent
    }

    /** The packet is delayed; if it completes the message, all packets are replayed. */
    method Enqueue(p: Segment) returns (ghost out: seq<Leave>)
      requires tcp && FedWith(p) && Packets(sent) + delayed + [p] == arrived
      modifies this`delayed, this`sent, reasm
      ensures Valid() && (reasm.packet == null || reasm.packet == old(reasm.packet))
      ensures var queue := old(delayed) + [p]; var message := old(reasm.Present());
        && Chained(queue, start) && sent == old(sent) + out
        && if |Joined(queue)| < old(reasm.size) then out == [] && delayed == queue
           else message == Joined(queue)[..old(reasm.size)] && IsReplay(out, queue, message) && delayed == []
    {
      JoinedPush(delayed, p);
      ChainedPush(delayed, start, p);
      delayed := delayed + [p];
      out := [];
      if reasm.size == reasm.sizePresent {
        out := ReplayDelayed();
      }
    }

    /** A data packet of a TCP connection. intervalOk: within the limits of the profile; retrans: part of a request
        that was seen to its end, or was abandoned. replayed: this packet completed the message. */
    method OnTcpData(p: Segment, intervalOk: bool, retrans: bool) returns (ghost out: seq<Leave>, ghost replayed: bool)
      requires Valid() && tcp && p.data != [] && p.seqno < TWO32
      modifies this, reasm, reasm.packet
      ensures Valid() && arrived == old(arrived) + [p]
      ensures reasm.packet == null || reasm.packet == old(reasm.packet) || fresh(reasm.packet)
      ensures replayed ==> Completed(old(delayed) + [p], out) && sent == old(sent) + out
      ensures if intervalOk && Continues(old(delayed), p) then
                Joins(old(delayed) + [p], old(sent), Stage(delayed, sent), replayed)
              else
                !replayed && Begins(p, intervalOk && !retrans, old(delayed), old(sent), Stage(delayed, sent))
    {
      arrived := arrived + [p];
      if !intervalOk {
        out, replayed := [], false;
        Pass(p);
        return;
      }
      out, replayed := OnTcpReady(p, retrans);
    }

    /** The packet is within the limits of the profile. */
    method OnTcpReady(p: Segment, retrans: bool) returns (ghost out: seq<Leave>, ghost replayed: bool)
      requires tcp && reasm.Valid() && Packets(sent) + delayed + [p] == arrived && p.seqno < TWO32
      requires (delayed == [] <==> reasm.size == 0) && (reasm.size > 0 ==> InSequence())
      modifies this`delayed, this`sent, this`start, reasm, reasm.packet
      ensures Valid() && (reasm.packet == null || reasm.packet == old(reasm.packet) || fresh(reasm.packet))
      ensures replayed ==> Completed(old(delayed) + [p], out) && sent == old(sent) + out
      ensures if Continues(old(delayed), p) then
                Joins(old(delayed) + [p], old(sent), Stage(delayed, sent), replayed)
              else !replayed && Begins(p, !retrans, old(delayed), old(sent), Stage(delayed, sent))
    {
      out, replayed := [], false;
      if reasm.size != 0 {
        var fed := FeedNext(p);
        if fed {
          out, replayed := OnTcpFed(p);
          return;
        }
      }
      ghost var flushed := sent;
      assert delayed == [] && flushed == old(sent) + Flush(old(delayed));
      OnTcpFresh(p, retrans);
    }

    /** All packets of the message have left, replayed in order. */
    ghost predicate Completed(queue: seq<Segment>, out: seq<Leave>)
      reads this
    {
      && delayed == [] && Chained(queue, start) && IsTlsClientHello(Joined(queue), false)
      && IsReplay(out, queue, Joined(queue)[..TlsRecordLen(Joined(queue))])
    }

    /** A packet of a TCP connection without payload. It passes at once and is never delayed; out of the limits of the
        profile it ends the reassembly, and the queue is flushed. */
    method OnTcpEmpty(intervalOk: bool)
      requires Valid() && tcp
      modifies this`delayed, this`sent, reasm
      ensures Valid() && arrived == old(arrived)
      ensures intervalOk ==> delayed == old(delayed) && sent == old(sent) && reasm.size == old(reasm.size)
      ensures !intervalOk ==> delayed == [] && sent == old(sent) + Flush(old(delayed))
    {
      if !intervalOk {
        Stop();
      }
    }

    /** The packet continues the message: what is there is a ClientHello, and the packet is delayed. */
    method OnTcpFed(p: Segment) returns (ghost out: seq<Leave>, ghost replayed: bool)
      requires tcp && FedWith(p) && Packets(sent) + delayed + [p] == arrived
      modifies this`delayed, this`sent, reasm
      ensures Valid() && (reasm.packet == null || reasm.packet == old(reasm.packet))
      ensures var queue := old(delayed) + [p];
        && Joins(queue, old(sent), Stage(delayed, sent), replayed) && sent == old(sent) + out
        && (replayed ==> Completed(queue, out))
    {
      out, replayed := [], false;
      var rdata := reasm.packet[..reasm.sizePresent];
      HelloPrefix(Joined(delayed) + p.data, reasm.size);
      JoinedPush(delayed, p);
      if IsHttp(rdata) || !IsTlsClientHello(rdata, true) {
        assert false;
      }
      replayed := reasm.size == reasm.sizePresent;
      out := Enqueue(p);
    }

    /** The packet the reassembly was started with. */
    method QueueFirst(p: Segment)
      requires tcp && reasm.Valid() && delayed == [] && Packets(sent) + [p] == arrived && p.seqno < TWO32
      requires IsTlsClientHello(p.data, true) && |p.data| < reasm.size == TlsRecordLen(p.data) <= TCP_MAX_REASM
      requires reasm.Present() == p.data && reasm.seqno == U32(p.seqno + |p.data|)
      modifies this`delayed, this`start
      ensures Valid() && delayed == [p]
    {
      JoinedPush([], p);
      ChainedPush([], p.seqno, p);
      assert [] + [p] == [p];
      start, delayed := p.seqno, [p];
    }

    /** No reassembly is going on. */
    method OnTcpFresh(p: Segment, retrans: bool)
      requires tcp && reasm.Valid() && reasm.size == 0 && delayed == [] && Packets(sent) + [p] == arrived
      requires p.seqno < TWO32
      modifies this`delayed, this`sent, this`start, reasm
      ensures Valid()
      ensures if !retrans && BeginsRecord(p.data) then delayed == [p] && sent == old(sent)
              else delayed == [] && sent == old(sent) + [Passed(p)]
      ensures reasm.packet == null || reasm.packet == old(reasm.packet) || fresh(reasm.packet)
    {
      if !IsHttp(p.data) && IsTlsClientHello(p.data, true) && !IsTlsRecordFull(p.data) && !retrans {
        var ok := Start(TlsRecordLen(p.data), TCP_MAX_REASM, p.seqno, p.data);
        if ok {
          QueueFirst(p);
          return;
        }
      }
      Pass(p);
    }

    /** reasm_orig_feed for UDP: the bytes present serve as the sequence number, so it never fails. */
    method FeedQuic(clean: seq<Byte>)
      requires reasm.Valid() && reasm.size == UDP_MAX_REASM && reasm.seqno == reasm.sizePresent
      requires reasm.sizePresent + |clean| <= reasm.size
      modifies reasm, reasm.packet
      ensures reasm.Valid() && reasm.packet == old(reasm.packet) && reasm.Present() == old(reasm.Present()) + clean
      ensures reasm.size == UDP_MAX_REASM && reasm.seqno == reasm.sizePresent
    {
      var ok := reasm.Feed(U32(reasm.sizePresent), clean);
    }

    /** A packet of a QUIC connection: initial and decrypted by the caller, defrag says what a payload amounts to. It is
        delayed while the payloads so far leave something of the ClientHello to come, and completes it when they do
        not. */
    method OnQuic(p: Segment, intervalOk: bool, initial: bool, decrypted: bool, clean: seq<Byte>,
                  defrag: seq<Byte> -> QuicResult)
      returns (ghost out: seq<Leave>)
      requires Valid() && !tcp && |clean| <= UDP_MAX_REASM
      modifies this, reasm, reasm.packet
      ensures Valid() && arrived == old(arrived) + [p]
      ensures reasm.packet == null || reasm.packet == old(reasm.packet) || fresh(reasm.packet)
      ensures var queue, all := old(delayed) + [p], old(reasm.Present()) + clean;
        match QuicAction(intervalOk && initial && decrypted && (old(delayed) == [] || |all| <= 16384),
                         old(delayed) != [], defrag(all))
        case Let => delayed == [] && sent == old(sent) + Flush(old(delayed)) + [Passed(p)]
        case Hold => delayed == queue && sent == old(sent) && reasm.Present() == all
        case Finish => delayed == [] && sent == old(sent) + out && IsReplay(out, queue, all)
    {
      out, arrived := [], arrived + [p];
      if !intervalOk || !initial || !decrypted || (reasm.size != 0 && reasm.sizePresent + |clean| > reasm.size) {
        Pass(p);
        return;
      }
      var pclean := clean;
      if reasm.size != 0 {
        FeedQuic(clean);
        pclean := reasm.packet[..reasm.sizePresent];
      } else {
        assert [] + clean == clean;
      }
      match defrag(pclean) {
        case NoCrypto =>
          Pass(p);
        case PartCovered =>
          DelayQuic(p, clean);
        case Covered(hello, reqFull) =>
          if reasm.size != 0 || (hello && !reqFull) {
            DelayQuic(p, clean);
            if hello && reqFull {
              out := ReplayDelayed();
            }
          } else {
            Pass(p);
          }
      }
    }

    /** The packet is delayed, with a new reassembly if there is none. */
    method DelayQuic(p: Segment, clean: seq<Byte>)
      requires !tcp && reasm.Valid() && |clean| <= UDP_MAX_REASM && Packets(sent) + delayed + [p] == arrived
      requires reasm.size == 0 ==> delayed == []
      requires reasm.size > 0 ==> reasm.size == UDP_MAX_REASM && reasm.seqno == reasm.sizePresent
      modifies this`delayed, reasm
      ensures Valid() && delayed == old(delayed) + [p] && sent == old(sent)
      ensures reasm.packet == old(reasm.packet) || fresh(reasm.packet)
      ensures reasm.Present() == if old(reasm.size) == 0 then clean else old(reasm.Present())
    {
      if reasm.size == 0 {
        var _ := Start(UDP_MAX_REASM, UDP_MAX_REASM, 0, clean);
      }
      delayed := delayed + [p];
    }

    /** ConntrackReInitTrack, ConntrackFreeElem: the only way for delayed packets to be lost. */
    method Reset() returns (ghost lost: seq<Segment>)
      requires Valid()
      modifies this, reasm
      ensures Valid() && delayed == [] && sent == old(sent) && old(arrived) == arrived + lost && lost == old(delayed)
      ensures reasm.packet == null
    {
      lost, arrived := delayed, Packets(sent);
      reasm.Clear();
      while delayed != []
        invariant reasm.Valid() && reasm.size == 0 && Packets(sent) == arrived
        modifies this`delayed
      {
        delayed := delayed[1..];
      }
    }
  }

  lemma {:induction false} JoinedLength(queue: seq<Segment>, k: nat)
    requires k <= |queue|
    ensures |Joined(queue[..k])| == Offset(Lengths(queue), k)
  {
    if k > 0 {
      assert queue[..k][..k - 1] == queue[..k - 1];
      JoinedLength(queue, k - 1);
    }
  }

  lemma {:induction false} ChainedAt(queue: seq<Segment>, start: nat, k: nat)
    requires Chained(queue, start) && k < |queue|
    ensures queue[k].seqno == U32(start + |Joined(queue[..k])|)
    ensures |Joined(queue[..k + 1])| <= |Joined(queue)|
    ensures Joined(queue[..k + 1]) == Joined(queue)[..|Joined(queue[..k + 1])|]
  {
    var n := |queue| - 1;
    if k < n {
      ChainedAt(queue[..n], start, k);
      assert queue[..n][..k] == queue[..k] && queue[..n][..k + 1] == queue[..k + 1];
    } else {
      assert queue[..k + 1] == queue;
    }
  }

  /** A chained queue is a row of packets of the stream it continues: what ReplayQueue asks for. Together with the
      replay of a completed message, the receiver gets the message whatever the splitting. */
  lemma {:induction false} ChainedPackets(queue: seq<Segment>, start: nat, before: seq<Byte>, isn: nat)
    requires Chained(queue, start) && start == U32(isn + |before|) && |before| + |Joined(queue)| < 0x7fff_0000
    ensures PacketsOf(before + Joined(queue), |before|, queue, isn)
    ensures |Joined(queue)| == Offset(Lengths(queue), |queue|)
  {
    var d := before + Joined(queue);
    JoinedLength(queue, |queue|);
    assert queue[..|queue|] == queue;
    forall k | 0 <= k < |queue| ensures IsPacket(d, |before|, queue, isn, k) {
      ChainedPacket(queue, start, before, isn, k);
    }
  }

  lemma {:induction false} ChainedPacket(queue: seq<Segment>, start: nat, before: seq<Byte>, isn: nat, k: nat)
    requires Chained(queue, start) && start == U32(isn + |before|) && |before| + |Joined(queue)| < 0x7fff_0000
    requires k < |queue|
    ensures IsPacket(before + Joined(queue), |before|, queue, isn, k)
  {
    ChainedAt(queue, start, k);
    JoinedLength(queue, k);
    SumU32(isn + |before|, |Joined(queue[..k])|);
    PieceAt(queue, before, k);
  }

  lemma PieceAt(queue: seq<Segment>, before: seq<Byte>, k: nat)
    requires k < |queue| && |Joined(queue[..k + 1])| <= |Joined(queue)|
    requires Joined(queue[..k + 1]) == Joined(queue)[..|Joined(queue[..k + 1])|]
    ensures var a := |before| + |Joined(queue[..k])|;
      a + |queue[k].data| <= |before + Joined(queue)| &&
        queue[k].data == (before + Joined(queue))[a..a + |queue[k].data|]
  {
    var j, n, x := Joined(queue[..k + 1]), |Joined(queue[..k])|, queue[k].data;
    assert queue[..k + 1] == queue[..k] + [queue[k]];
    JoinedPush(queue[..k], queue[k]);
    assert x == j[n..n + |x|];
  }

  lemma {:induction false} ReplayAt(out: seq<Leave>, queue: seq<Segment>, message: seq<Byte>, k: nat)
    requires IsReplay(out, queue, message) && k < |queue|
    ensures k < |out| && out[k] == Replayed(queue[k], |Joined(queue[..k])|, message)
  {
    var n := |queue| - 1;
    if k < n {
      ReplayAt(out[..n], queue[..n], message, k);
      assert queue[..n][..k] == queue[..k];
    }
  }

  /** The replay of a completed message, as OnTcpData describes it: every packet is played at the offset it left the
      queue with, split at the positions of the message inside it, and the receiver gets the joined payloads. */
  method PlayMessage(queue: seq<Segment>, message: seq<Byte>, dp: Profile, ghost out: seq<Leave>, ghost start: nat,
                     ghost r: Receiver, ghost before: seq<Byte>)
    returns (segments: seq<Segment>, ghost plays: seq<Play>)
    requires ValidProfile(dp) && Chained(queue, start) && IsReplay(out, queue, message)
    requires start == U32(r.isn + |before|) && |before| + |Joined(queue)| < 0x7fff_0000
    requires Synced(r, before + Joined(queue), |before|)
    ensures Delivered(r, before + Joined(queue), |before| + |Joined(queue)|, segments)
    ensures |plays| == |out| == |queue| && segments == AllSent(plays)
    ensures forall k | 0 <= k < |queue| :: out[k] == Replayed(plays[k].packet, plays[k].offset, message)
    ensures forall k | 0 <= k < |queue| :: Played(plays[k], dp, |message|)
  {
    ChainedPackets(queue, start, before, r.isn);
    segments, plays := ReplayQueue(queue, |message|, dp, r, before + Joined(queue), |before|);
    forall k | 0 <= k < |queue|
      ensures out[k] == Replayed(plays[k].packet, plays[k].offset, message) && Played(plays[k], dp, |message|)
    {
      PlayAt(plays, queue, dp, |message|, k);
      ReplayAt(out, queue, message, k);
      JoinedLength(queue, k);
    }
  }

  /** A buffer that holds the beginning of a ClientHello record, at least one of its packets, holds no HTTP request. */
  lemma HelloPrefix(all: seq<Byte>, size: nat)
    requires IsTlsClientHello(all, true) && size == TlsRecordLen(all) && size >= 6
    ensures IsTlsClientHello(Truncated(all, size), true) && !IsHttp(Truncated(all, size))
    ensures TlsRecordLen(Truncated(all, size)) == size
  {
    var t := Truncated(all, size);
    forall k | 0 <= k < |HTTP_METHODS| ensures !StartsWith(t, HTTP_METHODS[k]) {
      assert HTTP_METHODS[k][0] as int != 0x16;
    }
  }
}
