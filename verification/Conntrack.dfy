/** upstream/nfq/conntrack.c: the table of tracked connections and the state of each. */
module Conntrack {
  import opened Wire
  import opened Uthash

  /** tcphdr, as far as the tracker looks at it. */
  datatype Tcp = Tcp(syn: bool, ack: bool, fin: bool, rst: bool, urgOrPush: bool, seqno: nat, ackno: nat)

  datatype Transport = IsTcp(tcp: Tcp) | IsUdp | IsOther

  /** tcp_syn_segment, tcp_synack_segment: exactly these flags */
  predicate SynSegment(t: Tcp) {
    t.syn && !t.ack && !t.fin && !t.rst && !t.urgOrPush
  }

  predicate SynAckSegment(t: Tcp) {
    t.syn && t.ack && !t.fin && !t.rst && !t.urgOrPush
  }

  datatype ConnState = Syn | Established | Fin

  /** Where a connection stands: its state and the sequence number it began with. */
  datatype Progress = Progress(state: ConnState, seq0: nat)

  /** How a TCP segment moves it. */
  function Next(p: Progress, t: Tcp): Progress {
    if SynSegment(t) then Progress(Syn, U32(t.seqno))
    else if SynAckSegment(t) then
      var seq0 := U32(t.ackno - 1);
      if p.state != Syn && p.seq0 != seq0 then Progress(Syn, seq0)
      else p.(seq0 := if p.seq0 == 0 then seq0 else p.seq0)
    else if t.fin || t.rst then p.(state := Fin)
    else if p.state == Syn then p.(state := Established) else p
  }

  /** The segments that make the tracker forget the connection. */
  predicate Reinitialises(p: Progress, t: Tcp) {
    p.state != Syn && (SynSegment(t) || (SynAckSegment(t) && p.seq0 != U32(t.ackno - 1)))
  }

  function Rank(s: ConnState): nat {
    match s
    case Syn => 0
    case Established => 1
    case Fin => 2
  }

  /** The segments of a connection, one after the other. */
  function Run(p: Progress, segments: seq<Tcp>): Progress
    decreases |segments|
  {
    if segments == [] then p else Run(Next(p, segments[0]), segments[1..])
  }

  /** The positions in a run at which the connection is forgotten. */
  function Restarts(p: Progress, segments: seq<Tcp>): nat
    decreases |segments|
  {
    if segments == [] then 0
    else (if Reinitialises(p, segments[0]) then 1 else 0) + Restarts(Next(p, segments[0]), segments[1..])
  }

  /** Over any run the state only moves forward, SYN, ESTABLISHED, FIN, unless the connection is begun anew; and a
      connection past SYN keeps the sequence number it began with. */
  lemma {:induction false} StateForward(p: Progress, segments: seq<Tcp>)
    ensures Restarts(p, segments) == 0 ==> Rank(p.state) <= Rank(Run(p, segments).state)
    ensures Restarts(p, segments) == 0 && p.state != Syn && p.seq0 != 0 ==> Run(p, segments).seq0 == p.seq0
    decreases |segments|
  {
    if segments != [] { StateForward(Next(p, segments[0]), segments[1..]); }
  }

  /** The state a run without a re-initialisation ends in: closed by the first FIN or RST; otherwise established by the
      first segment that is neither a SYN nor a SYN/ACK. */
  lemma {:induction false} RunMeaning(p: Progress, segments: seq<Tcp>)
    requires Restarts(p, segments) == 0
    ensures Run(p, segments).state == Fin <==>
              p.state == Fin || exists t | t in segments :: t.fin || t.rst
    ensures Run(p, segments).state == Syn <==>
              p.state == Syn && forall t | t in segments :: t.syn && !t.fin && !t.rst && !t.urgOrPush
    decreases |segments|
  {
    if segments != [] {
      assert segments == [segments[0]] + segments[1..];
      RunMeaning(Next(p, segments[0]), segments[1..]);
    }
  }

  /** Exactly the segments that begin it anew take a connection back. */
  lemma {:induction false} RestartsAreSteps(p: Progress, t: Tcp)
    ensures Restarts(p, [t]) == 1 <==> Rank(Next(p, t).state) < Rank(p.state)
    ensures Restarts(p, [t]) == 1 ==> Next(p, t).state == Syn
  {
    assert [t][1..] == [];
  }

  /** The number a connection begins with is that of its SYN, or the one its SYN/ACK answers; only a SYN/ACK that does
      not match the SYN before it is ignored. */
  lemma InitialNumber(p: Progress, t: Tcp)
    ensures t.syn && !t.ack && !t.fin && !t.rst && !t.urgOrPush ==> Next(p, t) == Progress(Syn, U32(t.seqno))
    ensures t.syn && t.ack && !t.fin && !t.rst && !t.urgOrPush ==>
              Next(p, t).seq0 == if p.state == Syn && p.seq0 != 0 then p.seq0 else U32(t.ackno - 1)
    ensures !t.syn || t.fin || t.rst || t.urgOrPush ==> Next(p, t).seq0 == p.seq0
  {
  }

  /** t_ctrack, as far as the tracker itself uses it. */
  datatype Track = Track(state: ConnState, seq0: nat, ack0: nat, seqLast: nat, posOrig: nat, ackLast: nat,
                         posReply: nat, pcounterOrig: nat, pcounterReply: nat, tLast: int, bCutoff: bool)

  /** ConntrackInitTrack, and what ConntrackReInitTrack leaves. */
  const NEW_TRACK := Track(Syn, 0, 0, 0, 0, 0, 0, 0, 0, 0, false)

  function ProgressOf(t: Track): Progress {
    Progress(t.state, t.seq0)
  }

  /** The first number of the answering side: from a SYN/ACK, otherwise from the first acknowledgement. */
  predicate Answered(t0: Track, t: Track, bReverse: bool, tcp: Tcp) {
    t.ack0 == if SynAckSegment(tcp) then U32(tcp.seqno)
              else if Reinitialises(ProgressOf(t0), tcp) then 0
              else if t0.state == Syn && Next(ProgressOf(t0), tcp).state == Established && !bReverse && t0.ack0 == 0
              then U32(tcp.ackno - 1)
              else t0.ack0
  }

  /** The TCP part of ConntrackFeedPacket that concerns the state. */
  method FeedState(t0: Track, bReverse: bool, tcp: Tcp) returns (t: Track)
    ensures ProgressOf(t) == Next(ProgressOf(t0), tcp) && Answered(t0, t, bReverse, tcp)
    ensures Reinitialises(ProgressOf(t0), tcp) ==> t.pcounterOrig == t.pcounterReply == 0 && !t.bCutoff
    ensures !Reinitialises(ProgressOf(t0), tcp) ==>
              t.pcounterOrig == t0.pcounterOrig && t.pcounterReply == t0.pcounterReply && t.bCutoff == t0.bCutoff
  {
    t := t0;
    if SynSegment(tcp) {
      if t.state != Syn {
        t := NEW_TRACK;
      }
      t := t.(seq0 := U32(tcp.seqno));
    } else if SynAckSegment(tcp) {
      var seq0 := U32(tcp.ackno - 1);
      if t.state != Syn && t.seq0 != seq0 {
        t := NEW_TRACK;
      }
      if t.seq0 == 0 {
        t := t.(seq0 := seq0);
      }
      t := t.(ack0 := U32(tcp.seqno));
    } else if tcp.fin || tcp.rst {
      t := t.(state := Fin);
    } else if t.state == Syn {
      t := t.(state := Established);
      if !bReverse && t.ack0 == 0 {
        t := t.(ack0 := U32(tcp.ackno - 1));
      }
    }
  }

  /** The packet is counted in its direction. */
  predicate Counted(t0: Track, t: Track, bReverse: bool) {
    && t.pcounterOrig == t0.pcounterOrig + (if bReverse then 0 else 1)
    && t.pcounterReply == t0.pcounterReply + (if bReverse then 1 else 0)
    && t.bCutoff == t0.bCutoff
  }

  /** What a packet does to a track: TCP positions are those of the packet; otherwise payload lengths add up. */
  predicate Fed(t0: Track, t: Track, bReverse: bool, transport: Transport, lenPayload: nat, now: int) {
    match transport
    case IsTcp(tcp) =>
      && t.tLast == now && ProgressOf(t) == Next(ProgressOf(t0), tcp) && Answered(t0, t, bReverse, tcp)
      && t.seqLast == U32(if bReverse then tcp.ackno else tcp.seqno)
      && t.ackLast == U32(if bReverse then tcp.seqno else tcp.ackno)
      && t.posOrig == U32(if bReverse then tcp.ackno else tcp.seqno + lenPayload)
      && t.posReply == U32(if bReverse then tcp.seqno + lenPayload else tcp.ackno)
      && if Reinitialises(ProgressOf(t0), tcp) then t.pcounterOrig == t.pcounterReply == 0 && !t.bCutoff
         else Counted(t0, t, bReverse)
    case _ =>
      && t.tLast == now && ProgressOf(t) == ProgressOf(t0) && t.ack0 == t0.ack0 && Counted(t0, t, bReverse)
      && if bReverse then
           t.ackLast == t0.posReply && t.posReply == U32(t0.posReply + lenPayload) && t.seqLast == t0.seqLast &&
           t.posOrig == t0.posOrig
         else
           t.seqLast == t0.posOrig && t.posOrig == U32(t0.posOrig + lenPayload) && t.ackLast == t0.ackLast &&
           t.posReply == t0.posReply
  }

  /** ConntrackFeedPacket */
  method FeedPacket(t0: Track, bReverse: bool, transport: Transport, lenPayload: nat, now: int) returns (t: Track)
    ensures Fed(t0, t, bReverse, transport, lenPayload, now)
  {
    t := t0;
    if bReverse {
      t := t.(pcounterReply := t.pcounterReply + 1);
    } else {
      t := t.(pcounterOrig := t.pcounterOrig + 1);
    }
    if transport.IsTcp? {
      var tcp := transport.tcp;
      t := FeedState(t, bReverse, tcp);
      if bReverse {
        t := t.(seqLast := U32(tcp.ackno), posOrig := U32(tcp.ackno));
        t := t.(ackLast := U32(tcp.seqno), posReply := U32(tcp.seqno + lenPayload));
      } else {
        t := t.(seqLast := U32(tcp.seqno), posOrig := U32(tcp.seqno + lenPayload));
        t := t.(ackLast := U32(tcp.ackno), posReply := U32(tcp.ackno));
      }
    } else if bReverse {
      t := t.(ackLast := t.posReply);
      t := t.(posReply := U32(t.posReply + lenPayload));
    } else {
      t := t.(seqLast := t.posOrig);
      t := t.(posOrig := U32(t.posOrig + lenPayload));
    }
    t := t.(tLast := now);
  }

  /** A packet that makes the tracker open an entry. */
  predicate Starts(transport: Transport) {
    transport.IsUdp? || (transport.IsTcp? && (SynSegment(transport.tcp) || SynAckSegment(transport.tcp)))
  }

  // ----- keys -----

  const L4 := 1
  const IPPROTO_TCP := 6
  const IPPROTO_UDP := 17

  /** connswap. A t_conn is a key of six numbers: protocols, ports and addresses, source before destination. */
  function Swap(k: seq<nat>): (r: seq<nat>)
    requires |k| == 6
    ensures |r| == 6 && r[L4] == k[L4]
  {
    [k[0], k[1], k[3], k[2], k[5], k[4]]
  }

  /** One side of a connection. */
  datatype Endpoint = Endpoint(address: nat, port: nat)

  /** ConntrackExtractConn: the key of a packet from src to dst. */
  function KeyOf(l3: nat, l4: nat, src: Endpoint, dst: Endpoint): (k: seq<nat>)
    ensures |k| == 6 && k[L4] == l4
  {
    [l3, l4, src.port, dst.port, src.address, dst.address]
  }

  /** Packets have the same key only if they have the same protocols and endpoints. */
  lemma KeyInjective(l3: nat, l4: nat, src: Endpoint, dst: Endpoint, l3': nat, l4': nat, src': Endpoint,
                     dst': Endpoint)
    requires KeyOf(l3, l4, src, dst) == KeyOf(l3', l4', src', dst')
    ensures l3 == l3' && l4 == l4' && src == src' && dst == dst'
  {
    var k, k' := KeyOf(l3, l4, src, dst), KeyOf(l3', l4', src', dst');
    assert k[0] == k'[0] && k[1] == k'[1] && k[2] == k'[2] && k[3] == k'[3] && k[4] == k'[4] && k[5] == k'[5];
  }

  /** Swapping gives the key of the answer. */
  lemma SwapIsAnswer(l3: nat, l4: nat, src: Endpoint, dst: Endpoint)
    ensures Swap(KeyOf(l3, l4, src, dst)) == KeyOf(l3, l4, dst, src)
  {
  }

  lemma SwapTwice(k: seq<nat>)
    requires |k| == 6
    ensures Swap(Swap(k)) == k
  {
  }

  // ----- the pool -----

  /** All keys have the shape of a connection, and no connection is there in both directions. */
  ghost predicate OnePerPair(m: map<seq<nat>, Handle<Track>>) {
    && (forall k | k in m :: |k| == 6)
    && forall k | k in m && |k| == 6 && Swap(k) in m :: Swap(k) == k
  }

  /** That is: all keys are keys of connections, and no two entries have the same pair of endpoints. */
  lemma OnePerPairMeaning(m: map<seq<nat>, Handle<Track>>)
    ensures OnePerPair(m) <==>
              && (forall k | k in m :: exists l3, l4, src, dst :: k == KeyOf(l3, l4, src, dst))
              && forall l3, l4, src, dst | KeyOf(l3, l4, src, dst) in m && KeyOf(l3, l4, dst, src) in m :: src == dst
  {
    forall k: seq<nat> | |k| == 6 ensures exists l3, l4, src, dst :: k == KeyOf(l3, l4, src, dst) {
      assert k == KeyOf(k[0], k[1], Endpoint(k[4], k[2]), Endpoint(k[5], k[3]));
    }
    forall l3, l4, src, dst
      ensures Swap(KeyOf(l3, l4, src, dst)) == KeyOf(l3, l4, dst, src)
      ensures KeyOf(l3, l4, src, dst) == KeyOf(l3, l4, dst, src) <==> src == dst
    {
      SwapIsAnswer(l3, l4, src, dst);
      if KeyOf(l3, l4, src, dst) == KeyOf(l3, l4, dst, src) { KeyInjective(l3, l4, src, dst, l3, l4, dst, src); }
    }
  }

  /** The entry of a connection, in whichever direction it was stored. */
  ghost function Entry(m: map<seq<nat>, Handle<Track>>, key: seq<nat>): Handle?<Track>
    requires |key| == 6
  {
    if key in m then m[key] else if Swap(key) in m then m[Swap(key)] else null
  }

  lemma SwappedEntry(m: map<seq<nat>, Handle<Track>>, key: seq<nat>)
    requires OnePerPair(m) && |key| == 6
    ensures Entry(m, key) == Entry(m, Swap(key))
    ensures Entry(m, key) != null && Swap(key) != key ==> (key in m <==> Swap(key) !in m)
  {
    SwapTwice(key);
  }

  /** Both directions of a flow lead to the same entry, and exactly one of them is the stored one. */
  lemma SameEntry(m: map<seq<nat>, Handle<Track>>, l3: nat, l4: nat, src: Endpoint, dst: Endpoint)
    requires OnePerPair(m)
    ensures Entry(m, KeyOf(l3, l4, src, dst)) == Entry(m, KeyOf(l3, l4, dst, src))
    ensures Entry(m, KeyOf(l3, l4, src, dst)) != null && src != dst ==>
              (KeyOf(l3, l4, src, dst) in m <==> KeyOf(l3, l4, dst, src) !in m)
  {
    SwapIsAnswer(l3, l4, src, dst);
    SwappedEntry(m, KeyOf(l3, l4, src, dst));
    if KeyOf(l3, l4, src, dst) == KeyOf(l3, l4, dst, src) { KeyInjective(l3, l4, src, dst, l3, l4, dst, src); }
  }

  lemma OnePerPairAdd(m: map<seq<nat>, Handle<Track>>, key: seq<nat>, h: Handle<Track>)
    requires OnePerPair(m) && |key| == 6 && Entry(m, key) == null
    ensures OnePerPair(m[key := h]) && Entry(m[key := h], key) == h
    ensures OnePerPair(m[Swap(key) := h]) && Entry(m[Swap(key) := h], key) == h
    ensures key !in m && Swap(key) !in m
  {
    SwapTwice(key);
    forall k | k in m && |k| == 6 ensures Swap(k) != key && Swap(k) != Swap(key) {
      SwapTwice(k);
    }
  }

  datatype Timeouts = Timeouts(syn: nat, established: nat, fin: nat, udp: nat)

  /** The entries that ConntrackPoolPurge removes: those cut off, and those idle for the timeout of their kind. */
  predicate Expired(t: Track, l4: nat, timeouts: Timeouts, now: int): (yes: bool)
    ensures t.bCutoff ==> yes
    ensures !t.bCutoff && l4 == 6 && t.state == Syn ==> (yes <==> now >= t.tLast + timeouts.syn)
    ensures !t.bCutoff && l4 == 6 && t.state == Established ==> (yes <==> now >= t.tLast + timeouts.established)
    ensures !t.bCutoff && l4 == 6 && t.state == Fin ==> (yes <==> now >= t.tLast + timeouts.fin)
    ensures !t.bCutoff && l4 == 17 ==> (yes <==> now >= t.tLast + timeouts.udp)
    ensures !t.bCutoff && l4 != 6 && l4 != 17 ==> !yes
  {
    var idle := now - t.tLast;
    || t.bCutoff
    || (l4 == IPPROTO_TCP && idle >= match t.state
                                     case Syn => timeouts.syn
                                     case Established => timeouts.established
                                     case Fin => timeouts.fin)
    || (l4 == IPPROTO_UDP && idle >= timeouts.udp)
  }

  lemma KeyAbsent(order: seq<Handle<Track>>, key: seq<nat>)
    requires Keyed(order) && key !in MapOf(order)
    ensures forall h | h in order :: h.key != key
  {
    forall h | h in order ensures h.key != key {
      assert h.key in MapOf(order);
    }
  }

  /** How many entries a walk has passed. */
  datatype Visited = Visited(k: nat)

  /** t_conntrack */
  class Pool {
    const table: HashTable<Track>
    var tLastPurge: int
    const timeouts: Timeouts
    const purgeInterval: nat

    ghost predicate Valid()
      reads table, table.order
    {
      table.Valid() && OnePerPair(MapOf(table.order))
    }

    ghost function Map(): map<seq<nat>, Handle<Track>>
      requires Keyed(table.order)
      reads table
    {
      MapOf(table.order)
    }

    constructor (hash: seq<nat> -> nat, purgeInterval: nat, timeouts: Timeouts, now: int)
      ensures Valid() && table.order == [] && fresh(table)
    {
      table := new HashTable(hash);
      tLastPurge, this.purgeInterval, this.timeouts := now, purgeInterval, timeouts;
    }

    /** The two searches, for the key and for the swapped key. */
    method Search(key: seq<nat>) returns (h: Handle?<Track>, bReverse: bool)
      requires Valid() && |key| == 6
      ensures h == Entry(Map(), key)
      ensures h != null ==> h in table.order && h.key == if bReverse then Swap(key) else key
      ensures bReverse <==> h != null && key !in Map()
    {
      h := table.Find(key);
      bReverse := false;
      if h == null {
        h := table.Find(Swap(key));
        bReverse := h != null;
      }
    }

    /** ConntrackPoolDoubleSearch */
    method DoubleSearch(l3: nat, l4: nat, src: Endpoint, dst: Endpoint) returns (h: Handle?<Track>, bReverse: bool)
      requires Valid()
      ensures h == if KeyOf(l3, l4, src, dst) in Map() then Map()[KeyOf(l3, l4, src, dst)]
                   else if KeyOf(l3, l4, dst, src) in Map() then Map()[KeyOf(l3, l4, dst, src)]
                   else null
      ensures bReverse <==> h != null && KeyOf(l3, l4, src, dst) !in Map()
      ensures h != null ==> h in table.order
    {
      SwapIsAnswer(l3, l4, src, dst);
      h, bReverse := Search(KeyOf(l3, l4, src, dst));
    }

    /** ConntrackNew */
    method New(key: seq<nat>) returns (h: Handle<Track>)
      requires table.Valid() && forall g | g in table.order :: g.key != key
      modifies table, table.order`next, table.order`hhPrev, table.order`hhNext
      ensures table.Valid() && fresh(h) && h.key == key && h.elem == NEW_TRACK && table.order == old(table.order) + [h]
      ensures Map() == old(Map())[key := h]
    {
      ghost var order := table.order;
      assert allocated(order);
      h := new Handle(key, NEW_TRACK);
      table.Add(h);
    }

    /** An entry for a packet that starts a connection. */
    method Create(key: seq<nat>, transport: Transport) returns (h: Handle?<Track>, bReverse: bool)
      requires Valid() && |key| == 6 && Entry(Map(), key) == null
      modifies table, table.order`next, table.order`hhPrev, table.order`hhNext
      ensures Valid() && h == Entry(Map(), key)
      ensures if Starts(transport) then
                && h != null && fresh(h) && h.elem == NEW_TRACK && table.order == old(table.order) + [h]
                && bReverse == (transport.IsTcp? && SynAckSegment(transport.tcp)) &&
                   h.key == (if bReverse then Swap(key) else key)
              else h == null && table.order == old(table.order)
    {
      h, bReverse := null, transport.IsTcp? && SynAckSegment(transport.tcp);
      if (transport.IsTcp? && SynSegment(transport.tcp)) || bReverse || transport.IsUdp? {
        SwappedEntry(Map(), key);
        ghost var m := Map();
        KeyAbsent(table.order, if bReverse then Swap(key) else key);
        h := New(if bReverse then Swap(key) else key);
        OnePerPairAdd(m, key, h);
      }
    }

    /** The track of an entry is stored; the table is not touched. */
    method Store(h: Handle<Track>, t: Track)
      requires Valid() && h in table.order
      modifies h`elem
      ensures Valid() && h.elem == t
    {
      h.elem := t;
      TableKept(table);
    }

    /** The entry is updated; nothing else is. */
    method FeedEntry(h: Handle<Track>, bReverse: bool, transport: Transport, lenPayload: nat, now: int)
      requires Valid() && h in table.order
      modifies h`elem
      ensures Valid() && Fed(old(h.elem), h.elem, bReverse, transport, lenPayload, now)
    {
      var t := FeedPacket(h.elem, bReverse, transport, lenPayload, now);
      Store(h, t);
    }

    /** How an entry comes about: one that was there is found, in either direction; otherwise one is made for a SYN, a
        SYN/ACK, then in the direction of its answer, or a UDP packet. */
    twostate predicate Found(l3: nat, l4: nat, src: Endpoint, dst: Endpoint, transport: Transport,
                             new h: Handle?<Track>, bReverse: bool)
      requires old(Valid())
      reads table
    {
      var m, there, back := old(Map()), KeyOf(l3, l4, src, dst), KeyOf(l3, l4, dst, src);
      if there in m then h == m[there] && !bReverse && table.order == old(table.order)
      else if back in m then h == m[back] && bReverse && table.order == old(table.order)
      else if transport.IsUdp? then
        h != null && fresh(h) && table.order == old(table.order) + [h] && h.key == there && !bReverse
      else if transport.IsTcp? && transport.tcp.syn && !transport.tcp.fin && !transport.tcp.rst &&
              !transport.tcp.urgOrPush then
        && h != null && fresh(h) && table.order == old(table.order) + [h]
        && bReverse == transport.tcp.ack && h.key == if bReverse then back else there
      else h == null && table.order == old(table.order)
    }

    /** The search of ConntrackPoolFeedPool, and the new entry if nothing was found. */
    method Open(l3: nat, l4: nat, src: Endpoint, dst: Endpoint, transport: Transport)
      returns (h: Handle?<Track>, bReverse: bool)
      requires Valid()
      modifies table, table.order`next, table.order`hhPrev, table.order`hhNext
      ensures Valid() && h == Entry(Map(), KeyOf(l3, l4, src, dst))
      ensures Found(l3, l4, src, dst, transport, h, bReverse)
      ensures h != null ==> h in table.order && (fresh(h) ==> h.elem == NEW_TRACK)
    {
      SwapIsAnswer(l3, l4, src, dst);
      var key := KeyOf(l3, l4, src, dst);
      h, bReverse := Search(key);
      if h == null {
        h, bReverse := Create(key, transport);
      }
    }

    /** ConntrackPoolFeed: the entry found or made is that of both directions from then on; only it is updated. */
    method Feed(l3: nat, l4: nat, src: Endpoint, dst: Endpoint, transport: Transport, lenPayload: nat, now: int)
      returns (h: Handle?<Track>, bReverse: bool)
      requires Valid()
      modifies table, table.order`next, table.order`hhPrev, table.order`hhNext, table.order`elem
      ensures Valid() && Found(l3, l4, src, dst, transport, h, bReverse)
      ensures h == Entry(Map(), KeyOf(l3, l4, src, dst)) == Entry(Map(), KeyOf(l3, l4, dst, src))
      ensures h != null ==>
                && h in table.order
                && Fed(if fresh(h) then NEW_TRACK else old(h.elem), h.elem, bReverse, transport, lenPayload, now)
      ensures forall g | g in old(table.order) && g != h :: g.elem == old(g.elem)
    {
      h, bReverse := Open(l3, l4, src, dst, transport);
      SameEntry(Map(), l3, l4, src, dst);
      if h != null {
        FeedEntry(h, bReverse, transport, lenPayload, now);
      }
    }

    /** ConntrackPoolDrop */
    method Drop(l3: nat, l4: nat, src: Endpoint, dst: Endpoint) returns (ok: bool)
      requires Valid()
      modifies table, table.order`prev, table.order`next, table.order`hhPrev, table.order`hhNext
      ensures Valid()
      ensures var m, there, back := old(Map()), KeyOf(l3, l4, src, dst), KeyOf(l3, l4, dst, src);
        && ok == (there in m || back in m)
        && (!ok ==> table.order == old(table.order))
        && (ok ==> Map() == m - {if there in m then there else back} && there !in Map() && back !in Map())
    {
      var h, bReverse := DoubleSearch(l3, l4, src, dst);
      ok := h != null;
      if ok {
        SameEntry(Map(), l3, l4, src, dst);
        var _ := Remove(h);
      }
    }

    /** HASH_DEL and ConntrackFreeElem */
    method Remove(h: Handle<Track>) returns (ghost k: nat)
      requires Valid() && h in table.order
      modifies table, table.order`prev, table.order`next, table.order`hhPrev, table.order`hhNext
      ensures Valid() && k < |old(table.order)| && old(table.order)[k] == h
      ensures table.order == Without(old(table.order), k) && Map() == old(Map()) - {h.key}
    {
      k := table.Delete(h);
    }

    // ----- purging -----

    /** One turn of the loop of ConntrackPoolPurge; next is taken before the entry may go. */
    method PurgeOne(t: Handle<Track>, now: int, ghost order: seq<Handle<Track>>, ghost k: nat,
                    ghost due: set<Handle<Track>>)
      returns (next: Handle?<Track>, ghost k': nat)
      requires Valid() && k < |order| && t == order[k] && table.order == Spared(order[..k], due) + order[k..]
      requires |t.key| == 6 && (Expired(t.elem, t.key[L4], timeouts, now) <==> t in due)
      modifies table, table.order`prev, table.order`next, table.order`hhPrev, table.order`hhNext
      ensures Valid() && k' == k + 1 && next == At(order, k') && table.order == Spared(order[..k'], due) + order[k'..]
    {
      ghost var cur, i := table.order, |Spared(order[..k], due)|;
      CurrentAt(order, k, due, cur, i);
      assert t == cur[i] && t.next == At(cur, i + 1);
      next, k' := t.next, k + 1;
      var tidle, l4, state := now - t.elem.tLast, t.key[L4], t.elem.state;
      if t.elem.bCutoff ||
         (l4 == IPPROTO_TCP && ((state == Syn && tidle >= timeouts.syn) ||
                                (state == Established && tidle >= timeouts.established) ||
                                (state == Fin && tidle >= timeouts.fin))) ||
         (l4 == IPPROTO_UDP && tidle >= timeouts.udp)
      {
        ghost var j := Remove(t);
        SparedRemoved(order, k, due, cur, i, j);
      }
    }

    /** due are the expired ones among the entries in order. */
    ghost predicate AreDue(order: seq<Handle<Track>>, due: set<Handle<Track>>, now: int)
      reads order`elem
    {
      forall h | h in order :: |h.key| == 6 && (h in due <==> Expired(h.elem, h.key[L4], timeouts, now))
    }

    /** The state of the loop, after some of the entries in order were visited. */
    ghost predicate Purging(order: seq<Handle<Track>>, done: Visited, due: set<Handle<Track>>, now: int,
                            t: Handle?<Track>)
      reads table, table.order, order`elem
    {
      match done
      case Visited(k) =>
        && Valid() && AreDue(order, due, now) && k <= |order| && t == At(order, k)
        && table.order == Spared(order[..k], due) + order[k..]
    }

    lemma PurgeStarts(due: set<Handle<Track>>, now: int)
      requires Valid() && AreDue(table.order, due, now)
      ensures Purging(table.order, Visited(0), due, now, table.head)
    {
      assert table.order[..0] == [] && table.order[0..] == table.order;
    }

    lemma {:induction false} PurgingAt(order: seq<Handle<Track>>, k: nat, due: set<Handle<Track>>, now: int,
                                       t: Handle<Track>)
      requires Purging(order, Visited(k), due, now, t)
      ensures k < |order| && t == order[k] && Valid() && table.order == Spared(order[..k], due) + order[k..]
      ensures t in table.order && forall h | h in table.order :: h in order
    {
      CurrentAt(order, k, due, table.order, |Spared(order[..k], due)|);
    }

    lemma {:induction false} PurgeEnds(order: seq<Handle<Track>>, k: nat, due: set<Handle<Track>>, now: int)
      requires Purging(order, Visited(k), due, now, null)
      ensures Valid() && table.order == Spared(order, due)
    {
      assert order[..k] == order;
    }

    method PurgeNext(t: Handle<Track>, now: int, ghost order: seq<Handle<Track>>, ghost k0: nat,
                     ghost due: set<Handle<Track>>, ghost frame: set<Handle<Track>>)
      returns (next: Handle?<Track>, ghost k: nat)
      requires Purging(order, Visited(k0), due, now, t) && frame == SetOf(order)
      modifies table, frame`prev, frame`next, frame`hhPrev, frame`hhNext
      ensures k == k0 + 1 <= |order| && Purging(order, Visited(k), due, now, next)
    {
      PurgingAt(order, k0, due, now, t);
      assert AreDue(order, due, now);
      assert forall h | h in table.order :: h in frame;
      next, k := PurgeOne(t, now, order, k0, due);
    }

    /** The loop of ConntrackPoolPurge. */
    method PurgeAll(now: int, ghost due: set<Handle<Track>>, ghost frame: set<Handle<Track>>)
      requires Valid() && frame == SetOf(table.order) && AreDue(table.order, due, now)
      modifies table, frame`prev, frame`next, frame`hhPrev, frame`hhNext
      ensures Valid() && table.order == Spared(old(table.order), due)
    {
      PurgeStarts(due, now);
      ghost var order := table.order;
      var t := table.head;
      ghost var k := 0;
      while t != null
        invariant k <= |order| && Purging(order, Visited(k), due, now, t)
        decreases |order| - k
      {
        t, k := PurgeNext(t, now, order, k, due, frame);
      }
      PurgeEnds(order, k, due, now);
    }

    /** ConntrackPoolPurge: every entry is visited once, though entries are deleted on the way; exactly the expired
        ones go, and the order of the others is kept. */
    method Purge(now: int) returns (ghost due: set<Handle<Track>>)
      requires Valid()
      modifies this`tLastPurge, table
      modifies SetOf(table.order)`prev, SetOf(table.order)`next, SetOf(table.order)`hhPrev, SetOf(table.order)`hhNext
      ensures Valid()
      ensures AreDue(old(table.order), due, now)
      ensures now - old(tLastPurge) < purgeInterval ==> table.order == old(table.order)
      ensures now - old(tLastPurge) >= purgeInterval ==>
                tLastPurge == now && table.order == Spared(old(table.order), due)
    {
      due := Due(now);
      if now - tLastPurge >= purgeInterval {
        PurgeAll(now, due, SetOf(table.order));
        tLastPurge := now;
      }
    }

    /** The expired entries. */
    lemma Due(now: int) returns (due: set<Handle<Track>>)
      requires Valid()
      ensures AreDue(table.order, due, now)
    {
      forall h | h in table.order ensures |h.key| == 6 {
        assert h.key in MapOf(table.order);
      }
      due := set h | h in table.order && Expired(h.elem, h.key[L4], timeouts, now);
    }
  }

  /** The elements that are not in dead, in order. */
  ghost function Spared(order: seq<Handle<Track>>, dead: set<Handle<Track>>): seq<Handle<Track>> {
    if order == [] then [] else
    var r, h := Spared(order[..|order| - 1], dead), order[|order| - 1];
    if h in dead then r else r + [h]
  }

  lemma {:induction false} SparedFrom(order: seq<Handle<Track>>, dead: set<Handle<Track>>, h: Handle<Track>)
    requires h in Spared(order, dead)
    ensures h in order
  {
    var n := |order| - 1;
    assert order == order[..n] + [order[n]];
    if h in Spared(order[..n], dead) { SparedFrom(order[..n], dead, h); }
  }

  lemma {:induction false} SparedStep(order: seq<Handle<Track>>, k: nat, dead: set<Handle<Track>>)
    requires k < |order|
    ensures Spared(order[..k + 1], dead) ==
            if order[k] in dead then Spared(order[..k], dead) else Spared(order[..k], dead) + [order[k]]
  {
    assert order[..k + 1][..k] == order[..k];
  }

  /** Where the iteration stands in the list that is left. */
  lemma {:induction false} CurrentAt(order: seq<Handle<Track>>, k: nat, dead: set<Handle<Track>>,
                                     cur: seq<Handle<Track>>, i: nat)
    requires k < |order| && cur == Spared(order[..k], dead) + order[k..] && i == |Spared(order[..k], dead)|
    ensures i < |cur| && cur[i] == order[k] && At(cur, i + 1) == At(order, k + 1)
    ensures order[k] !in dead ==> cur == Spared(order[..k + 1], dead) + order[k + 1..]
    ensures forall h | h in cur :: h in order
  {
    var r := Spared(order[..k], dead);
    SparedStep(order, k, dead);
    assert order[k..] == [order[k]] + order[k + 1..];
    forall h | h in cur ensures h in order {
      if h in r { SparedFrom(order[..k], dead, h); }
    }
  }

  lemma {:induction false} SparedRemoved(order: seq<Handle<Track>>, k: nat, dead: set<Handle<Track>>,
                                         cur: seq<Handle<Track>>, i: nat, j: nat)
    requires k < |order| && cur == Spared(order[..k], dead) + order[k..] && i == |Spared(order[..k], dead)|
    requires Distinct(cur) && j < |cur| && cur[j] == order[k] && order[k] in dead
    ensures Without(cur, j) == Spared(order[..k + 1], dead) + order[k + 1..]
  {
    CurrentAt(order, k, dead, cur, i);
    SparedStep(order, k, dead);
    assert i == j;
  }
}
