/** A ClientHello as it is written (section 4.1.2 of RFC 8446), against the parser of upstream/nfq/protocol.c and the
    replacement of the server name in upstream/nfq/nfqws.c. */
module Hello {
  import opened Sni
  import opened Tls
  import opened Wire

  datatype Ext = Ext(type_: nat, data: seq<Byte>)

  datatype ClientHello = ClientHello(minor: Byte, version: seq<Byte>, random: seq<Byte>, session: seq<Byte>,
                                     ciphers: seq<Byte>, compression: seq<Byte>, exts: seq<Ext>)

  // ----- the serialiser -----

  /** Vectors behind their length. */
  ghost function Vec8(b: seq<Byte>): seq<Byte> {
    NetworkBytes(|b|, 1) + b
  }

  ghost function Vec16(b: seq<Byte>): seq<Byte> {
    NetworkBytes(|b|, 2) + b
  }

  ghost function Vec24(b: seq<Byte>): seq<Byte> {
    NetworkBytes(|b|, 3) + b
  }

  ghost function ExtBytes(e: Ext): seq<Byte> {
    NetworkBytes(e.type_, 2) + Vec16(e.data)
  }

  ghost function Exts(es: seq<Ext>): seq<Byte> {
    if es == [] then [] else ExtBytes(es[0]) + Exts(es[1..])
  }

  /** What precedes the extensions. */
  ghost function Opening(h: ClientHello): seq<Byte> {
    h.version + h.random + Vec8(h.session) + Vec16(h.ciphers) + Vec8(h.compression)
  }

  ghost function Body(h: ClientHello): seq<Byte> {
    Opening(h) + Vec16(Exts(h.exts))
  }

  /** The handshake message in one record. */
  ghost function Serialised(h: ClientHello): seq<Byte> {
    [0x16, 3, h.minor] + Vec16([1] + Vec24(Body(h)))
  }

  /** Everything has the size it must have, or fits its length field. */
  ghost predicate WellSized(h: ClientHello) {
    && h.minor <= 3 && |h.version| == 2 && |h.random| == 32
    && |h.session| < 0x100 && |h.ciphers| < 0x1_0000 && |h.compression| < 0x100
    && (forall i | 0 <= i < |h.exts| :: h.exts[i].type_ < 0x1_0000 && |h.exts[i].data| < 0x1_0000)
    && |Exts(h.exts)| < 0x1_0000 && 4 + |Body(h)| < 0x1_0000
  }

  /** A server_name extension: a list of one host name, and perhaps more (section 3 of RFC 6066). */
  ghost function ServerName(name: seq<Byte>, more: seq<Byte>): Ext {
    Ext(0, Vec16([0] + Vec16(name) + more))
  }

  // ----- reading numbers and pieces -----

  lemma {:induction false} Written8(data: seq<Byte>, i: nat, v: nat)
    requires i + 1 <= |data| && data[i..i + 1] == NetworkBytes(v, 1) && v < 0x100
    ensures data[i] == v
  {
    assert data[i] == data[i..i + 1][0];
    assert NetworkBytes(v, 1) == NetworkBytes(v / 256, 0) + [v % 256];
  }

  lemma {:induction false} Written16(data: seq<Byte>, i: nat, v: nat)
    requires i + 2 <= |data| && data[i..i + 2] == NetworkBytes(v, 2) && v < 0x1_0000
    ensures U16At(data, i) == v
  {
    assert data[i] == data[i..i + 2][0] && data[i + 1] == data[i..i + 2][1];
    assert NetworkBytes(v / 256, 1) == NetworkBytes(v / 256 / 256, 0) + [v / 256 % 256];
  }

  lemma {:induction false} Written24(data: seq<Byte>, i: nat, v: nat)
    requires i + 3 <= |data| && data[i..i + 3] == NetworkBytes(v, 3) && v < 0x100_0000
    ensures U24At(data, i) == v
  {
    assert data[i] == data[i..i + 3][0] && data[i + 1] == data[i..i + 3][1] && data[i + 2] == data[i..i + 3][2];
    assert NetworkBytes(v / 256, 2) == NetworkBytes(v / 256 / 256, 1) + [v / 256 % 256];
    assert NetworkBytes(v / 256 / 256, 1) == NetworkBytes(v / 256 / 256 / 256, 0) + [v / 256 / 256 % 256];
  }

  /** A piece of the data from i to j that consists of two parts. */
  lemma Cut(data: seq<Byte>, i: nat, k: nat, j: nat, a: seq<Byte>, b: seq<Byte>)
    requires i <= k <= j <= |data| && data[i..j] == a + b && |a| == k - i
    ensures data[i..k] == a && data[k..j] == b
  {
    assert data[i..k] == data[i..j][..k - i] && data[k..j] == data[i..j][k - i..];
    assert (a + b)[..|a|] == a && (a + b)[|a|..] == b;
  }

  // ----- where things are -----

  /** The offset of the extensions length. */
  ghost function OffsetOf(h: ClientHello): nat {
    44 + |h.session| + 2 + |h.ciphers| + 1 + |h.compression|
  }

  /** The pieces of a message. */
  ghost predicate Parts(data: seq<Byte>, h: ClientHello, off: nat, end: nat) {
    && off == OffsetOf(h) && end == off + 2 + |Exts(h.exts)| <= |data|
    && data[..3] == [0x16, 3, h.minor] && data[3..5] == NetworkBytes(end - 5, 2) && data[5] == 1
    && data[6..9] == NetworkBytes(end - 9, 3) && data[9..off] == Opening(h)
    && data[off..off + 2] == NetworkBytes(end - off - 2, 2) && data[off + 2..end] == Exts(h.exts)
  }

  lemma SerialisedParts(h: ClientHello, rest: seq<Byte>, off: nat, end: nat)
    requires WellSized(h) && off == OffsetOf(h) && end == off + 2 + |Exts(h.exts)|
    ensures |Serialised(h)| == end && Parts(Serialised(h) + rest, h, off, end)
  {
    var data, e := Serialised(h) + rest, Exts(h.exts);
    var m := [1] + Vec24(Body(h));
    assert |Body(h)| == end - 9 && |m| == end - 5;
    assert data[0..end] == Serialised(h);
    Cut(data, 0, 3, end, [0x16, 3, h.minor], Vec16(m));
    Cut(data, 3, 5, end, NetworkBytes(|m|, 2), m);
    Cut(data, 5, 6, end, [1], Vec24(Body(h)));
    Cut(data, 6, 9, end, NetworkBytes(|Body(h)|, 3), Body(h));
    Cut(data, 9, off, end, Opening(h), Vec16(e));
    Cut(data, off, off + 2, end, NetworkBytes(|e|, 2), e);
    assert data[5] == data[5..6][0];
  }

  /** The parser finds the offset. */
  lemma OffsetFound(data: seq<Byte>, h: ClientHello, off: nat, end: nat)
    requires WellSized(h) && Parts(data, h, off, end)
    ensures ExtLenOffset(data) == Some(off)
  {
    var s, c, z := h.session, h.ciphers, h.compression;
    var l1 := 44 + |s|;
    var l2 := l1 + 2 + |c|;
    Cut(data, 9, l2, off, h.version + h.random + Vec8(s) + Vec16(c), Vec8(z));
    Cut(data, 9, l1, l2, h.version + h.random + Vec8(s), Vec16(c));
    Cut(data, 9, 43, l1, h.version + h.random, Vec8(s));
    Cut(data, 43, 44, l1, NetworkBytes(|s|, 1), s);
    Cut(data, l1, l1 + 2, l2, NetworkBytes(|c|, 2), c);
    Cut(data, l2, l2 + 1, off, NetworkBytes(|z|, 1), z);
    Written8(data, 43, |s|);
    Written16(data, l1, |c|);
    Written8(data, l2, |z|);
  }

  lemma Numbers(data: seq<Byte>, h: ClientHello, off: nat, end: nat)
    requires WellSized(h) && Parts(data, h, off, end)
    ensures U16At(data, 3) == end - 5 && U24At(data, 6) == end - 9 && U16At(data, off) == end - off - 2
  {
    assert |Body(h)| == end - 9;
    Written16(data, 3, end - 5);
    Written24(data, 6, end - 9);
    Written16(data, off, end - off - 2);
  }

  lemma FirstBytes(data: seq<Byte>, h: ClientHello, off: nat, end: nat)
    requires WellSized(h) && Parts(data, h, off, end)
    ensures 9 <= off && off + 2 <= end <= |data|
    ensures data[0] == 0x16 && data[1] == 3 && data[2] == h.minor <= 3 && data[5] == 1
  {
    assert data[0] == data[..3][0] && data[1] == data[..3][1] && data[2] == data[..3][2];
  }

  /** The message is framed as the parser demands, so its extensions are searched. */
  lemma {:induction false} Framed(data: seq<Byte>, h: ClientHello, off: nat, end: nat, t: nat, p: nat,
                                  l: nat)
    requires WellSized(h) && Parts(data, h, off, end) && p == off + 2 && l == end - off - 2
    ensures IsTlsClientHello(data, false) && TlsRecordLen(data) == end
    ensures p + l == end <= |data| && ExtOf(data, t) == Walk(data, p, l, t)
  {
    OffsetFound(data, h, off, end);
    FirstBytes(data, h, off, end);
    Numbers(data, h, off, end);
    ExtFrom(data, off, l, t);
  }

  // ----- the extensions -----

  ghost predicate FitExts(es: seq<Ext>) {
    forall i | 0 <= i < |es| :: es[i].type_ < 0x1_0000 && |es[i].data| < 0x1_0000
  }

  ghost predicate NoneOf(es: seq<Ext>, t: nat) {
    forall i | 0 <= i < |es| :: es[i].type_ != t
  }

  lemma {:induction false} ExtsJoin(a: seq<Ext>, b: seq<Ext>)
    ensures Exts(a + b) == Exts(a) + Exts(b)
  {
    if a == [] {
      assert a + b == b && Exts(a) + Exts(b) == Exts(b);
    } else {
      assert (a + b)[0] == a[0] && (a + b)[1..] == a[1..] + b;
      ExtsJoin(a[1..], b);
      assert ExtBytes(a[0]) + (Exts(a[1..]) + Exts(b)) == ExtBytes(a[0]) + Exts(a[1..]) + Exts(b);
    }
  }

  /** One extension in the data: its own data from a to b. */
  lemma ExtAt(data: seq<Byte>, p: nat, a: nat, b: nat, q: nat, e: Ext, rest: seq<Byte>)
    requires p <= q <= |data| && data[p..q] == ExtBytes(e) + rest && e.type_ < 0x1_0000 && |e.data| < 0x1_0000
    requires a == p + 4 && b == a + |e.data|
    ensures b <= q && U16At(data, p) == e.type_ && U16At(data, p + 2) == |e.data|
    ensures data[a..b] == e.data && data[b..q] == rest
  {
    Cut(data, p, b, q, ExtBytes(e), rest);
    Cut(data, p, p + 2, b, NetworkBytes(e.type_, 2), Vec16(e.data));
    Cut(data, p + 2, a, b, NetworkBytes(|e.data|, 2), e.data);
    Written16(data, p, e.type_);
    Written16(data, p + 2, |e.data|);
  }

  lemma {:induction false} WalkNone(data: seq<Byte>, p: nat, l: nat, q: nat, es: seq<Ext>, t: nat)
    requires q == p + l <= |data| && data[p..q] == Exts(es) && FitExts(es) && NoneOf(es, t)
    ensures Walk(data, p, l, t) == None
    decreases |es|
  {
    if es != [] {
      var x, rest := es[0], es[1..];
      var p', l' := p + 4 + |x.data|, l - 4 - |x.data|;
      ExtAt(data, p, p + 4, p', q, x, Exts(rest));
      WalkNone(data, p', l', q, rest, t);
      WalkStep(data, p, l, t, p', l');
    }
  }

  lemma {:induction false} WalkFirst(data: seq<Byte>, p: nat, l: nat, q: nat, before: seq<Ext>, e: Ext,
                                     tail: seq<Byte>, x: Extension)
    requires q == p + l <= |data| && data[p..q] == Exts(before) + (ExtBytes(e) + tail)
    requires x.off == p + |Exts(before)| + 4 && x.len == |e.data|
    requires FitExts(before) && e.type_ < 0x1_0000 && |e.data| < 0x1_0000 && NoneOf(before, e.type_)
    ensures Walk(data, p, l, e.type_) == Some(x)
    decreases |before|
  {
    if before == [] {
      assert Exts(before) + (ExtBytes(e) + tail) == ExtBytes(e) + tail;
      ExtAt(data, p, p + 4, p + 4 + |e.data|, q, e, tail);
    } else {
      var y, b := before[0], before[1..];
      Assoc(ExtBytes(y), Exts(b), ExtBytes(e) + tail);
      var p', l' := p + 4 + |y.data|, l - 4 - |y.data|;
      ExtAt(data, p, p + 4, p', q, y, Exts(b) + (ExtBytes(e) + tail));
      WalkFirst(data, p', l', q, b, e, tail, x);
      WalkStep(data, p, l, e.type_, p', l');
    }
  }

  lemma Assoc(x: seq<Byte>, y: seq<Byte>, z: seq<Byte>)
    ensures x + y + z == x + (y + z)
  {
  }

  /** With an extension in the middle. */
  ghost predicate Around(h: ClientHello, before: seq<Ext>, e: Ext, after: seq<Ext>) {
    WellSized(h) && h.exts == before + [e] + after
  }

  lemma {:induction false} AroundBytes(h: ClientHello, before: seq<Ext>, e: Ext, after: seq<Ext>)
    requires Around(h, before, e, after)
    ensures Exts(h.exts) == Exts(before) + (ExtBytes(e) + Exts(after))
  {
    ExtsJoin(before + [e], after);
    ExtsJoin(before, [e]);
    assert [e][0] == e && [e][1..] == [] && Exts([e]) == ExtBytes(e) + [] == ExtBytes(e);
    Assoc(Exts(before), ExtBytes(e), Exts(after));
  }

  lemma AroundFits(h: ClientHello, before: seq<Ext>, e: Ext, after: seq<Ext>)
    requires Around(h, before, e, after)
    ensures FitExts(before) && e.type_ < 0x1_0000 && |e.data| < 0x1_0000
  {
    assert h.exts[|before|] == e;
    forall i | 0 <= i < |before| ensures before[i].type_ < 0x1_0000 && |before[i].data| < 0x1_0000 {
      assert h.exts[i] == before[i];
    }
  }

  lemma {:induction false} FirstIn(data: seq<Byte>, h: ClientHello, off: nat, end: nat, before: seq<Ext>, e: Ext,
                                   after: seq<Ext>, at: nat, x: Extension, b: nat)
    requires Around(h, before, e, after) && NoneOf(before, e.type_) && Parts(data, h, off, end)
    requires at == off + 2 + |Exts(before)| && x.off == at + 4 && x.len == |e.data| && b == x.off + x.len
    ensures ExtOf(data, e.type_) == Some(x) && b <= |data| && data[x.off..b] == e.data
  {
    var p, l, t := off + 2, end - off - 2, ExtBytes(e) + Exts(after);
    Framed(data, h, off, end, e.type_, p, l);
    AroundBytes(h, before, e, after);
    AroundFits(h, before, e, after);
    WalkFirst(data, p, l, end, before, e, Exts(after), x);
    Cut(data, p, at, end, Exts(before), t);
    ExtAt(data, at, x.off, b, end, e, Exts(after));
  }

  lemma {:induction false} FoundIn(data: seq<Byte>, h: ClientHello, off: nat, end: nat, before: seq<Ext>, e: Ext,
                                   after: seq<Ext>, x: Extension)
    requires Around(h, before, e, after) && NoneOf(before, e.type_) && Parts(data, h, off, end)
    requires x.off == off + 2 + |Exts(before)| + 4 && x.len == |e.data|
    ensures ExtLenOffset(data) == Some(off)
    ensures ExtOf(data, e.type_) == Some(x) && x.off + x.len <= |data| && data[x.off..x.off + x.len] == e.data
  {
    OffsetFound(data, h, off, end);
    FirstIn(data, h, off, end, before, e, after, off + 2 + |Exts(before)|, x, x.off + x.len);
  }

  /** In a message as it is written, the parser finds the extensions where they are, and of every type the first. */
  lemma {:induction false} ExtensionFound(h: ClientHello, rest: seq<Byte>, before: seq<Ext>, e: Ext, after: seq<Ext>,
                                          data: seq<Byte>, off: nat, x: Extension)
    requires Around(h, before, e, after) && NoneOf(before, e.type_) && data == Serialised(h) + rest
    requires off == 44 + |h.session| + 2 + |h.ciphers| + 1 + |h.compression|
    requires x.off == off + 2 + |Exts(before)| + 4 && x.len == |e.data|
    ensures ExtLenOffset(data) == Some(off)
    ensures ExtOf(data, e.type_) == Some(x) && x.off + x.len <= |data| && data[x.off..x.off + x.len] == e.data
  {
    var end := off + 2 + |Exts(h.exts)|;
    SerialisedParts(h, rest, off, end);
    FoundIn(data, h, off, end, before, e, after, x);
  }

  /** A type that is not there is not found. */
  lemma ExtensionMissing(h: ClientHello, rest: seq<Byte>, t: nat, data: seq<Byte>)
    requires WellSized(h) && NoneOf(h.exts, t) && data == Serialised(h) + rest
    ensures ExtOf(data, t) == None
  {
    var off := OffsetOf(h);
    var end := off + 2 + |Exts(h.exts)|;
    SerialisedParts(h, rest, off, end);
    MissingIn(data, h, off, end, t);
  }

  lemma PartsExts(data: seq<Byte>, h: ClientHello, off: nat, end: nat, p: nat)
    requires WellSized(h) && Parts(data, h, off, end) && p == off + 2
    ensures p <= end <= |data| && data[p..end] == Exts(h.exts) && FitExts(h.exts)
  {
  }

  lemma MissingIn(data: seq<Byte>, h: ClientHello, off: nat, end: nat, t: nat)
    requires WellSized(h) && NoneOf(h.exts, t) && Parts(data, h, off, end)
    ensures ExtOf(data, t) == None
  {
    var p, l := off + 2, end - off - 2;
    Framed(data, h, off, end, t, p, l);
    PartsExts(data, h, off, end, p);
    WalkNone(data, p, l, end, h.exts, t);
  }

  // ----- the server name -----

  /** The pieces of the data of a server_name extension. */
  lemma NameParts(data: seq<Byte>, a: nat, name: seq<Byte>, more: seq<Byte>)
    requires a + 5 + |name| + |more| <= |data|
    requires data[a..a + 5 + |name| + |more|] == ServerName(name, more).data && 3 + |name| + |more| < 0x1_0000
    ensures U16At(data, a) == 3 + |name| + |more| && data[a + 2] == 0 && U16At(data, a + 3) == |name|
    ensures data[a + 5..a + 5 + |name|] == name && data[a + 5 + |name|..a + 5 + |name| + |more|] == more
  {
    var b, n := a + 5 + |name| + |more|, a + 5 + |name|;
    Cut(data, a, a + 2, b, NetworkBytes(3 + |name| + |more|, 2), [0] + Vec16(name) + more);
    Cut(data, a + 2, n, b, [0] + Vec16(name), more);
    Cut(data, a + 2, a + 3, n, [0], Vec16(name));
    Cut(data, a + 3, a + 5, n, NetworkBytes(|name|, 2), name);
    Written16(data, a, 3 + |name| + |more|);
    Written16(data, a + 3, |name|);
    assert data[a + 2] == data[a + 2..a + 3][0];
  }

  /** A message around its server name: the pieces that do not depend on the name, what follows it in its extension
      and in the message, and where things are: the extensions length, the extension, its data, and the name. */
  datatype Frame = Frame(first: seq<Byte>, opening: seq<Byte>, before: seq<Byte>, tail: seq<Byte>, more: seq<Byte>,
                         off: nat, at: nat, a: nat, n: nat)

  /** The message with a name that ends at m. */
  ghost predicate Named(data: seq<Byte>, f: Frame, end: nat, name: seq<Byte>, m: nat) {
    match f
    case Frame(first, opening, before, tail, more, off, at, a, n) =>
      && 43 < off && off + 2 <= at && a == at + 4 && n == a + 5 && m == n + |name| && m <= end <= |data|
      && data[..3] == first && data[5] == 1 && data[9..off] == opening && data[off + 2..at] == before
      && data[at..at + 2] == NetworkBytes(0, 2) && data[a + 2] == 0
      && U16At(data, 3) == end - 5 && U24At(data, 6) == end - 9 && U16At(data, off) == end - off - 2
      && U16At(data, at + 2) == 5 + |name| + |more| && U16At(data, a) == 3 + |name| + |more|
      && U16At(data, a + 3) == |name| && data[n..m] == name && data[m..] == tail
  }

  lemma TailIs(data: seq<Byte>, n: nat, m: nat, end: nat, more: seq<Byte>, after: seq<Byte>, rest: seq<Byte>)
    requires n <= m <= end <= |data| && data[n..m] == more && data[m..end] == after && data[end..] == rest
    ensures data[n..] == more + (after + rest)
  {
    assert data[n..] == data[n..m] + (data[m..end] + data[end..]);
  }

  /** The server_name extension in the message: at is where it begins, n the name, m what follows it, b the next
      extension. */
  lemma NameIn(data: seq<Byte>, at: nat, a: nat, n: nat, m: nat, b: nat, end: nat, name: seq<Byte>, more: seq<Byte>,
               after: seq<Byte>)
    requires at <= end <= |data| && data[at..end] == ExtBytes(ServerName(name, more)) + after
    requires 5 + |name| + |more| < 0x1_0000
    requires a == at + 4 && n == a + 5 && m == n + |name| && b == m + |more|
    ensures b <= end && data[at..at + 2] == NetworkBytes(0, 2) && U16At(data, at + 2) == 5 + |name| + |more|
    ensures U16At(data, a) == 3 + |name| + |more| && data[a + 2] == 0 && U16At(data, a + 3) == |name|
    ensures data[n..m] == name && data[m..b] == more && data[b..end] == after
  {
    var e := ServerName(name, more);
    assert |e.data| == 5 + |name| + |more|;
    ExtAt(data, at, a, b, end, e, after);
    Cut(data, at, b, end, ExtBytes(e), after);
    Cut(data, at, at + 2, b, NetworkBytes(0, 2), Vec16(e.data));
    NameParts(data, a, name, more);
  }

  lemma NamePieces(data: seq<Byte>, p: nat, end: nat, before: seq<Byte>, name: seq<Byte>, more: seq<Byte>,
                   after: seq<Byte>, rest: seq<Byte>, at: nat, a: nat, n: nat, m: nat)
    requires p <= at <= end <= |data| && data[p..end] == before + (ExtBytes(ServerName(name, more)) + after)
    requires data[end..] == rest && 5 + |name| + |more| < 0x1_0000
    requires at == p + |before| && a == at + 4 && n == a + 5 && m == n + |name|
    ensures m <= end && data[p..at] == before && data[at..at + 2] == NetworkBytes(0, 2)
    ensures U16At(data, at + 2) == 5 + |name| + |more| && U16At(data, a) == 3 + |name| + |more| && data[a + 2] == 0
    ensures U16At(data, a + 3) == |name| && data[n..m] == name && data[m..] == more + (after + rest)
  {
    var b := m + |more|;
    Cut(data, p, at, end, before, ExtBytes(ServerName(name, more)) + after);
    NameIn(data, at, a, n, m, b, end, name, more, after);
    TailIs(data, m, b, end, more, after, rest);
  }

  lemma {:induction false} SniBytes(h: ClientHello, before: seq<Ext>, name: seq<Byte>, more: seq<Byte>, after: seq<Ext>)
    requires Around(h, before, ServerName(name, more), after)
    ensures Exts(h.exts) == Exts(before) + (ExtBytes(ServerName(name, more)) + Exts(after))
    ensures 5 + |name| + |more| < 0x1_0000
  {
    AroundBytes(h, before, ServerName(name, more), after);
    AroundFits(h, before, ServerName(name, more), after);
  }

  /** The frame of a message with a server name. */
  ghost function FrameOf(h: ClientHello, before: seq<Ext>, more: seq<Byte>, after: seq<Ext>, rest: seq<Byte>): Frame {
    var off := OffsetOf(h);
    var at := off + 2 + |Exts(before)|;
    Frame([0x16, 3, h.minor], Opening(h), Exts(before), more + (Exts(after) + rest), more, off, at, at + 4, at + 9)
  }

  lemma NamedBy(data: seq<Byte>, f: Frame, end: nat, name: seq<Byte>, m: nat)
    requires 43 < f.off && f.off + 2 <= f.at && f.a == f.at + 4 && f.n == f.a + 5 && m == f.n + |name| <= end <= |data|
    requires data[..3] == f.first && data[5] == 1 && data[9..f.off] == f.opening && data[f.off + 2..f.at] == f.before
    requires data[f.at..f.at + 2] == NetworkBytes(0, 2) && data[f.a + 2] == 0
    requires U16At(data, 3) == end - 5 && U24At(data, 6) == end - 9 && U16At(data, f.off) == end - f.off - 2
    requires U16At(data, f.at + 2) == 5 + |name| + |f.more| && U16At(data, f.a) == 3 + |name| + |f.more|
    requires U16At(data, f.a + 3) == |name| && data[f.n..m] == name && data[m..] == f.tail
    ensures Named(data, f, end, name, m)
  {
  }

  lemma NamedHello(data: seq<Byte>, h: ClientHello, f: Frame, end: nat, before: seq<Ext>, name: seq<Byte>,
                   more: seq<Byte>, after: seq<Ext>, rest: seq<Byte>, m: nat)
    requires Around(h, before, ServerName(name, more), after) && Parts(data, h, f.off, end) && data[end..] == rest
    requires f == FrameOf(h, before, more, after, rest) && m == f.n + |name|
    ensures Named(data, f, end, name, m)
  {
    var t := Exts(after);
    Numbers(data, h, f.off, end);
    SniBytes(h, before, name, more, after);
    assert f.before == Exts(before) && f.more == more && f.tail == f.more + (t + rest) && f.opening == Opening(h);
    assert f.at == f.off + 2 + |f.before| && f.a == f.at + 4 && f.n == f.a + 5;
    NamePieces(data, f.off + 2, end, f.before, name, f.more, t, rest, f.at, f.a, f.n, m);
    NamedBy(data, f, end, name, m);
  }

  // ----- another name -----

  lemma SameSegment(data: seq<Byte>, new_: seq<Byte>, i: nat, j: nat)
    requires i <= j <= |data| && j <= |new_| && data[i..j] == new_[i..j]
    ensures forall k | i <= k < j :: SameAt(data, new_, k)
  {
    forall k | i <= k < j ensures SameAt(data, new_, k) {
      assert data[i..j][k - i] == new_[i..j][k - i];
    }
  }

  /** Outside the length fields, two messages with the same frame are the same up to the name. */
  lemma SameFrame(data: seq<Byte>, new_: seq<Byte>, f: Frame, p: Place, end: nat, name: seq<Byte>, m: nat, end': nat,
                  name': seq<Byte>, m': nat)
    requires Named(data, f, end, name, m) && Named(new_, f, end', name', m') && p.off == f.off && p.a == f.a
    ensures forall i | 0 <= i < p.a + 5 && !IsField(p, i) :: SameAt(data, new_, i)
  {
    assert data[..3] == data[0..3] && new_[..3] == new_[0..3];
    SameSegment(data, new_, 0, 3);
    SameSegment(data, new_, 9, f.off);
    SameSegment(data, new_, f.off + 2, f.at);
    SameSegment(data, new_, f.at, f.at + 2);
    assert SameAt(data, new_, 5) && SameAt(data, new_, f.a + 2);
  }

  lemma NamedLayout(data: seq<Byte>, f: Frame, end: nat, name: seq<Byte>, m: nat)
    requires Named(data, f, end, name, m)
    ensures f.a == f.at + 4 && f.n == f.a + 5 && m == f.n + |name| <= |data| && data[f.n..m] == name
    ensures data[m..] == f.tail && |data| == m + |f.tail| && 43 < f.off && f.off + 6 <= f.a && end <= |data|
  {
  }

  lemma NamedNumbers(data: seq<Byte>, f: Frame, end: nat, name: seq<Byte>, m: nat)
    requires Named(data, f, end, name, m) && f.off + 6 <= f.a && f.a + 5 <= |data| && 9 <= end
    ensures U16At(data, 3) == end - 5 && U24At(data, 6) == end - 9 && U16At(data, f.off) == end - f.off - 2
    ensures U16At(data, f.a - 2) == 5 + |name| + |f.more| && U16At(data, f.a) == 3 + |name| + |f.more|
    ensures U16At(data, f.a + 3) == |name|
  {
    assert f.a - 2 == f.at + 2;
  }

  lemma NamedRenewed(data: seq<Byte>, new_: seq<Byte>, f: Frame, p: Place, end: nat, name: seq<Byte>, m: nat,
                     end': nat, name': seq<Byte>, m': nat)
    requires Named(data, f, end, name, m) && Named(new_, f, end', name', m') && end' - end == |name'| - |name|
    requires p == Place(f.off, f.a, 5 + |name| + |f.more|, |name|) && Layout(data, p)
    ensures Renewed(data, new_, p, name')
    ensures U16At(new_, p.a) == U16At(data, p.a) + |name'| - |name|
  {
    NamedLayout(data, f, end, name, m);
    NamedLayout(new_, f, end', name', m');
    NamedNumbers(data, f, end, name, m);
    NamedNumbers(new_, f, end', name', m');
    SameFrame(data, new_, f, p, end, name, m, end', name', m');
  }

  lemma Digits(a: Byte, b: Byte, c: Byte, d: Byte)
    requires 256 * (a as int) + b as int == 256 * (c as int) + d as int
    ensures a == c && b == d
  {
  }

  lemma SameNumber(x: seq<Byte>, y: seq<Byte>, i: nat)
    requires i + 2 <= |x| == |y| && U16At(x, i) == U16At(y, i)
    ensures x[i] == y[i] && x[i + 1] == y[i + 1]
  {
    Digits(x[i], x[i + 1], y[i], y[i + 1]);
  }

  /** What is known about the new message determines it. */
  lemma RenewedUnique(data: seq<Byte>, x: seq<Byte>, y: seq<Byte>, p: Place, name: seq<Byte>)
    requires Layout(data, p) && Renewed(data, x, p, name) && Renewed(data, y, p, name)
    requires U16At(x, p.a) == U16At(y, p.a)
    ensures x == y
  {
    var n := p.a + 5;
    SameNumber(x, y, 3);
    SameNumber(x, y, p.off);
    SameNumber(x, y, p.a - 2);
    SameNumber(x, y, p.a);
    SameNumber(x, y, p.a + 3);
    Digits24(x, y, 6);
    forall i | 0 <= i < n ensures x[i] == y[i] {
      if !IsField(p, i) { assert SameAt(data, x, i) && SameAt(data, y, i); }
    }
    Joined3(x, y, n, n + |name|);
  }

  lemma Digits24(x: seq<Byte>, y: seq<Byte>, i: nat)
    requires i + 3 <= |x| == |y| && U24At(x, i) == U24At(y, i)
    ensures x[i] == y[i] && x[i + 1] == y[i + 1] && x[i + 2] == y[i + 2]
  {
  }

  lemma Joined3(x: seq<Byte>, y: seq<Byte>, n: nat, m: nat)
    requires |x| == |y| && n <= m <= |x| && forall i | 0 <= i < n :: x[i] == y[i]
    requires x[n..m] == y[n..m] && x[m..] == y[m..]
    ensures x == y
  {
    assert x == x[..n] + x[n..m] + x[m..] && y == y[..n] + y[n..m] + y[m..];
  }

  /** The message with another name. */
  ghost function Renaming(h: ClientHello, before: seq<Ext>, name: seq<Byte>, more: seq<Byte>,
                          after: seq<Ext>): ClientHello
  {
    h.(exts := before + [ServerName(name, more)] + after)
  }

  lemma NameFound(h: ClientHello, before: seq<Ext>, name: seq<Byte>, more: seq<Byte>, after: seq<Ext>, rest: seq<Byte>,
                  data: seq<Byte>, f: Frame, p: Place, end: nat, m: nat)
    requires Around(h, before, ServerName(name, more), after) && NoneOf(before, 0) && data == Serialised(h) + rest
    requires f == FrameOf(h, before, more, after, rest) && Named(data, f, end, name, m)
    requires p == Place(f.off, f.a, 5 + |name| + |more|, |name|)
    ensures Found(data, p)
  {
    var e := ServerName(name, more);
    assert |e.data| == p.elen;
    ExtensionFound(h, rest, before, e, after, data, p.off, Extension(p.a, p.elen));
    NamedLayout(data, f, end, name, m);
    NamedNumbers(data, f, end, name, m);
    FoundBy(data, p.off, p.a, p.elen, p.slen);
  }

  lemma {:induction false} EndOf(h: ClientHello, before: seq<Ext>, name: seq<Byte>, more: seq<Byte>, after: seq<Ext>)
    requires Around(h, before, ServerName(name, more), after)
    ensures |Exts(h.exts)| == |Exts(before)| + 9 + |name| + |more| + |Exts(after)|
  {
    SniBytes(h, before, name, more, after);
  }

  lemma Room(h: ClientHello, off: nat, end: nat)
    requires WellSized(h) && off == OffsetOf(h) && end == off + 2 + |Exts(h.exts)|
    ensures end - 5 < 0x1_0000 && end - off - 2 < 0x1_0000
  {
    assert |Body(h)| == end - 9;
  }

  lemma NewNamed(h: ClientHello, before: seq<Ext>, name: seq<Byte>, more: seq<Byte>, after: seq<Ext>, rest: seq<Byte>,
                 f: Frame, end: nat, m: nat)
    requires Around(h, before, ServerName(name, more), after) && f == FrameOf(h, before, more, after, rest)
    requires end == f.off + 2 + |Exts(h.exts)| && m == f.n + |name|
    ensures Named(Serialised(h) + rest, f, end, name, m)
  {
    SerialisedParts(h, rest, f.off, end);
    assert (Serialised(h) + rest)[end..] == rest;
    NamedHello(Serialised(h) + rest, h, f, end, before, name, more, after, rest, m);
  }

  lemma NamedFits(data: seq<Byte>, f: Frame, p: Place, end: nat, name: seq<Byte>, m: nat, delta: int)
    requires Named(data, f, end, name, m) && p.off == f.off && f.off + 6 <= f.a && f.a + 5 <= |data| && 9 <= end
    requires 9 <= end + delta && end + delta < 0x1_0005 && p.elen + delta < 0x1_0000
    ensures NoOverflow(data, p, delta)
  {
    NamedNumbers(data, f, end, name, m);
  }

  lemma NamedRewritten(data: seq<Byte>, new_: seq<Byte>, f: Frame, p: Place, end: nat, name: seq<Byte>, m: nat,
                       end': nat, name': seq<Byte>, m': nat, delta: int)
    requires Named(data, f, end, name, m) && Named(new_, f, end', name', m') && Found(data, p)
    requires p == Place(f.off, f.a, 5 + |name| + |f.more|, |name|)
    requires delta == |name'| - |name| && end' == end + delta < 0x1_0005 && p.elen + delta < 0x1_0000
    ensures Layout(data, p) && Rewritten(data, p, name') == new_
  {
    FoundLayout(data, p);
    NamedRenewed(data, new_, f, p, end, name, m, end', name', m');
    NamedFits(data, f, p, end, name, m, delta);
    RewrittenRenewed(data, p, name', delta);
    NamedNumbers(new_, f, end', name', m');
    ListLengthKept(data, p, name', delta);
    RenewedUnique(data, Rewritten(data, p, name'), new_, p, name');
  }

  /** Replacing the name in a message as it is written gives the message as it is written with the new name, provided
      that everything still fits its length field; what follows the record is kept. */
  lemma {:induction false} HelloRenamed(h: ClientHello, before: seq<Ext>, old_: seq<Byte>, more: seq<Byte>,
                                        after: seq<Ext>, rest: seq<Byte>, name: seq<Byte>, data: seq<Byte>, p: Place)
    requires Around(h, before, ServerName(old_, more), after) && NoneOf(before, 0)
    requires WellSized(Renaming(h, before, name, more, after)) && data == Serialised(h) + rest
    requires p.off == 44 + |h.session| + 2 + |h.ciphers| + 1 + |h.compression|
    requires p.a == p.off + 2 + |Exts(before)| + 4 && p.elen == 5 + |old_| + |more| && p.slen == |old_|
    ensures Found(data, p) && Layout(data, p) && forall q | Found(data, q) :: q == p
    ensures Rewritten(data, p, name) == Serialised(Renaming(h, before, name, more, after)) + rest
  {
    var h', f := Renaming(h, before, name, more, after), FrameOf(h, before, more, after, rest);
    var end, end', m, m' := p.off + 2 + |Exts(h.exts)|, p.off + 2 + |Exts(h'.exts)|, f.n + |old_|, f.n + |name|;
    assert f == FrameOf(h', before, more, after, rest) && f.off == p.off && f.a == p.a && f.more == more;
    NewNamed(h, before, old_, more, after, rest, f, end, m);
    NewNamed(h', before, name, more, after, rest, f, end', m');
    NameFound(h, before, old_, more, after, rest, data, f, p, end, m);
    EndOf(h, before, old_, more, after);
    EndOf(h', before, name, more, after);
    Room(h', p.off, end');
    SniBytes(h', before, name, more, after);
    NamedRewritten(data, Serialised(h') + rest, f, p, end, old_, m, end', name, m', |name| - |old_|);
  }
}
