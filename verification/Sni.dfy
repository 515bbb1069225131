/** Replacing the server name of a ClientHello (onetime_tls_mod_blob of upstream/nfq/nfqws.c): the name is exchanged in
    place, and six nested length fields are adjusted. */
module Sni {
  import opened Wire
  import opened Tls

  /** phton16, phton24: the value is cut to the width of the field. */
  ghost function Put16(s: seq<Byte>, i: nat, v: int): (r: seq<Byte>)
    requires i + 2 <= |s|
    ensures |r| == |s|
  {
    s[i := v / 256 % 256][i + 1 := v % 256]
  }

  ghost function Put24(s: seq<Byte>, i: nat, v: int): (r: seq<Byte>)
    requires i + 3 <= |s|
    ensures |r| == |s|
  {
    s[i := v / 65536 % 256][i + 1 := v / 256 % 256][i + 2 := v % 256]
  }

  lemma Digits16(v: int)
    requires 0 <= v < 0x1_0000
    ensures 256 * (v / 256 % 256) + v % 256 == v
  {
  }

  lemma Digits24(v: int)
    requires 0 <= v < 0x100_0000
    ensures 65536 * (v / 65536 % 256) + 256 * (v / 256 % 256) + v % 256 == v
  {
  }

  /** A length field. */
  datatype Field = U16(pos: nat) | U24(pos: nat)

  ghost predicate InField(f: Field, i: int) {
    f.pos <= i < f.pos + if f.U16? then 2 else 3
  }

  ghost predicate Fits(f: Field, s: seq<Byte>) {
    f.pos + (if f.U16? then 2 else 3) <= |s|
  }

  ghost function Value(s: seq<Byte>, f: Field): nat
    requires Fits(f, s)
  {
    if f.U16? then U16At(s, f.pos) else U24At(s, f.pos)
  }

  /** field += delta */
  ghost function Bump(s: seq<Byte>, f: Field, delta: int): (r: seq<Byte>)
    requires Fits(f, s)
    ensures |r| == |s|
  {
    if f.U16? then Put16(s, f.pos, U16At(s, f.pos) + delta) else Put24(s, f.pos, U24At(s, f.pos) + delta)
  }

  /** All the fields, one after the other. */
  ghost function Adjusted(m: seq<Byte>, fields: seq<Field>, delta: int): (r: seq<Byte>)
    requires forall k | 0 <= k < |fields| :: Fits(fields[k], m)
    ensures |r| == |m|
  {
    if fields == [] then m else
    assert Fits(fields[|fields| - 1], m);
    Bump(Adjusted(m, fields[..|fields| - 1], delta), fields[|fields| - 1], delta)
  }

  ghost predicate SameAt(data: seq<Byte>, new_: seq<Byte>, i: int) {
    0 <= i < |data| && i < |new_| && new_[i] == data[i]
  }

  lemma BumpElsewhere(s: seq<Byte>, f: Field, delta: int, i: nat)
    requires Fits(f, s) && i < |s| && !InField(f, i)
    ensures SameAt(s, Bump(s, f, delta), i)
  {
  }

  lemma BumpValue(s: seq<Byte>, f: Field, delta: int)
    requires Fits(f, s) && 0 <= Value(s, f) + delta < if f.U16? then 0x1_0000 else 0x100_0000
    ensures Value(Bump(s, f, delta), f) == Value(s, f) + delta
  {
    if f.U16? { Digits16(Value(s, f) + delta); } else { Digits24(Value(s, f) + delta); }
  }

  lemma SameValue(s: seq<Byte>, r: seq<Byte>, f: Field)
    requires Fits(f, s) && |r| == |s| && forall i | InField(f, i) :: SameAt(s, r, i)
    ensures Value(r, f) == Value(s, f)
  {
    assert SameAt(s, r, f.pos) && SameAt(s, r, f.pos + 1) && (f.U24? ==> SameAt(s, r, f.pos + 2));
  }

  /** Only the fields change. */
  lemma {:induction false} AdjustedElsewhere(m: seq<Byte>, fields: seq<Field>, delta: int, i: nat)
    requires (forall k | 0 <= k < |fields| :: Fits(fields[k], m) && !InField(fields[k], i)) && i < |m|
    ensures SameAt(m, Adjusted(m, fields, delta), i)
    decreases |fields|
  {
    if fields != [] {
      var init, last := fields[..|fields| - 1], fields[|fields| - 1];
      assert Fits(last, m) && !InField(last, i);
      AdjustedElsewhere(m, init, delta, i);
      BumpElsewhere(Adjusted(m, init, delta), last, delta, i);
    }
  }

  ghost predicate Apart(f: Field, g: Field) {
    forall i | InField(f, i) :: !InField(g, i)
  }

  /** A field apart from the others grows by delta, if it does not overflow. */
  lemma {:induction false} AdjustedValue(m: seq<Byte>, fields: seq<Field>, delta: int, k: nat)
    requires (forall j | 0 <= j < |fields| :: Fits(fields[j], m)) && k < |fields|
    requires forall j | 0 <= j < |fields| && j != k :: Apart(fields[k], fields[j])
    requires 0 <= Value(m, fields[k]) + delta < if fields[k].U16? then 0x1_0000 else 0x100_0000
    ensures Value(Adjusted(m, fields, delta), fields[k]) == Value(m, fields[k]) + delta
    decreases |fields|
  {
    var n := |fields| - 1;
    var init, last, f := fields[..n], fields[n], fields[k];
    var r := Adjusted(m, init, delta);
    assert Fits(last, m);
    if k == n {
      forall i | InField(f, i) ensures SameAt(m, r, i) {
        AdjustedElsewhere(m, init, delta, i);
      }
      SameValue(m, r, f);
      BumpValue(r, f, delta);
    } else {
      AdjustedValue(m, init, delta, k);
      forall i | InField(f, i) ensures SameAt(r, Bump(r, last, delta), i) {
        BumpElsewhere(r, last, delta, i);
      }
      SameValue(r, Bump(r, last, delta), f);
    }
  }

  /** Where things are: the extensions length, the data of the server_name extension, the lengths of it and of the
      name. */
  datatype Place = Place(off: nat, a: nat, elen: nat, slen: nat)

  /** What the parser finds. */
  ghost predicate Found(data: seq<Byte>, p: Place) {
    match p
    case Place(off, a, elen, slen) =>
      && ExtLenOffset(data) == Some(off) && ExtOf(data, 0) == Some(Extension(a, elen))
      && HostInSni(data, Extension(a, elen)) == Some(Extension(a + 5, slen))
  }

  /** The six length fields: of the record, the handshake, the extensions, the extension, the list and the name. */
  ghost function Fields(p: Place): (fs: seq<Field>)
    requires p.a >= 2
  {
    [U16(3), U24(6), U16(p.off), U16(p.a - 2), U16(p.a), U16(p.a + 3)]
  }

  ghost predicate IsField(p: Place, i: int) {
    i == 3 || i == 4 || 6 <= i <= 8 || p.off <= i <= p.off + 1 || p.a - 2 <= i <= p.a + 1 || p.a + 3 <= i <= p.a + 4
  }

  /** All the fields that are parsed stay within their widths. */
  ghost predicate NoOverflow(data: seq<Byte>, p: Place, delta: int) {
    && |data| >= 9 && p.off + 2 <= |data| && U16At(data, 3) + delta < 0x1_0000 &&
       0 <= U24At(data, 6) + delta < 0x100_0000
    && U16At(data, p.off) + delta < 0x1_0000 && p.elen + delta < 0x1_0000
  }

  lemma {:induction false} WalkBounds(data: seq<Byte>, p: nat, l: nat, t: nat, ext: Extension)
    requires p + l <= |data| && Walk(data, p, l, t) == Some(ext)
    ensures p + 4 <= ext.off && ext.off + ext.len <= p + l
    ensures U16At(data, ext.off - 2) == ext.len && U16At(data, ext.off - 4) == t
    decreases l
  {
    var etype, elen := U16At(data, p), U16At(data, p + 2);
    if etype != t { WalkBounds(data, p + 4 + elen, l - 4 - elen, t, ext); }
  }

  lemma OffsetOfPrefix(data: seq<Byte>, rec: seq<Byte>)
    requires rec <= data && ExtLenOffset(rec).Some?
    ensures ExtLenOffset(data) == ExtLenOffset(rec)
  {
    assert forall i | 0 <= i < |rec| :: data[i] == rec[i];
  }

  /** What the parse of the message tells about its bytes. */
  ghost predicate Layout(data: seq<Byte>, p: Place) {
    match p
    case Place(off, a, elen, slen) =>
      && |data| >= 9 && 9 <= TlsRecordLen(data) <= |data| && 4 + U24At(data, 6) <= TlsRecordLen(data) - 5
      && 43 < off && off + 2 + 4 <= a && a + elen <= |data|
      && a + elen <= off + 2 + U16At(data, off) <= TlsRecordLen(data) && slen + 5 <= elen
      && U16At(data, a - 4) == 0 && U16At(data, a - 2) == elen && data[a + 2] == 0 && U16At(data, a + 3) == slen
      && Walk(data, off + 2, U16At(data, off), 0) == Some(Extension(a, elen))
  }

  lemma {:induction false} WalkPrefix(data: seq<Byte>, rec: seq<Byte>, p: nat, l: nat, t: nat)
    requires rec <= data && p + l <= |rec|
    ensures Walk(data, p, l, t) == Walk(rec, p, l, t)
    decreases l
  {
    if l >= 4 {
      assert data[p] == rec[p] && data[p + 1] == rec[p + 1] && data[p + 2] == rec[p + 2] && data[p + 3] == rec[p + 3];
      var elen := U16At(data, p + 2);
      if elen <= l - 4 { WalkPrefix(data, rec, p + 4 + elen, l - 4 - elen, t); }
    }
  }

  lemma FoundLayout(data: seq<Byte>, p: Place)
    requires Found(data, p)
    ensures Layout(data, p)
  {
    var rec := Record(data);
    OffsetOfPrefix(data, rec);
    var l := U16At(rec, p.off);
    assert U16At(data, p.off) == l && U24At(data, 6) == U24At(rec, 6);
    WalkPrefix(data, rec, p.off + 2, l, 0);
    WalkBounds(data, p.off + 2, l, 0, Extension(p.a, p.elen));
  }

  /** Extensions behind the name move with it. */
  ghost function Moved(x: Option<Extension>, a: nat, delta: int): (r: Option<Extension>)
  {
    if x.Some? && x.value.off >= a && x.value.off + delta >= 0 then Some(Extension(x.value.off + delta, x.value.len))
    else x
  }

  lemma Shifted16(data: seq<Byte>, new_: seq<Byte>, n: nat, n': nat, x: nat, x': nat)
    requires n <= x && x + 2 <= |data| && n' <= |new_| && data[n..] == new_[n'..] && x' - n' == x - n
    ensures x' + 2 <= |new_| && U16At(new_, x') == U16At(data, x)
  {
    var i := x - n;
    assert data[n..][i] == new_[n'..][i] && data[n..][i + 1] == new_[n'..][i + 1];
  }

  /** Two messages with the same tail: it is walked alike. */
  lemma {:induction false} WalkBehind(data: seq<Byte>, new_: seq<Byte>, n: nat, n': nat, delta: int, x: nat, x': nat,
                                      l: nat, t: nat, a: nat)
    requires n <= |data| && n' <= |new_| && data[n..] == new_[n'..] && n' == n + delta
    requires a <= n <= x && x + l <= |data| && x' == x + delta && x' + l <= |new_|
    ensures Walk(new_, x', l, t) == Moved(Walk(data, x, l, t), a, delta)
    decreases l
  {
    if l >= 4 {
      Shifted16(data, new_, n, n', x, x');
      Shifted16(data, new_, n, n', x + 2, x' + 2);
      var elen := U16At(data, x + 2);
      if elen <= l - 4 && U16At(data, x) != t {
        WalkBehind(data, new_, n, n', delta, x + 4 + elen, x' + 4 + elen, l - 4 - elen, t, a);
      }
    }
  }

  lemma Same16(data: seq<Byte>, new_: seq<Byte>, i: nat)
    requires SameAt(data, new_, i) && SameAt(data, new_, i + 1)
    ensures U16At(new_, i) == U16At(data, i)
  {
  }

  /** The name and nothing else before the tail of the message was exchanged, but for the fields; delta: how much
      longer it got. */
  ghost predicate Exchanged(data: seq<Byte>, new_: seq<Byte>, p: Place, delta: int) {
    match p
    case Place(off, a, elen, slen) =>
      var n := a + 5 + slen;
      && off + 6 <= a && slen + delta >= 0 && slen + 5 <= elen
      && n <= |data| && n + delta <= |new_| && data[n..] == new_[n + delta..]
      && (forall i | off + 2 <= i < a - 2 :: SameAt(data, new_, i))
      && U16At(new_, a - 2) == elen + delta
  }

  /** The walk from the server_name extension on finds it, */
  lemma WalkHere(data: seq<Byte>, new_: seq<Byte>, p: Place, delta: int, q: nat, l: nat, l': nat)
    requires Exchanged(data, new_, p, delta) && q + 4 == p.a && q + l <= |data| && l' == l + delta
    requires U16At(data, q) == 0 && l >= 4 + p.elen
    ensures l' >= 4 + p.elen + delta >= 4 && q + l' <= |new_|
    ensures U16At(new_, q) == 0 && U16At(new_, q + 2) == p.elen + delta
  {
    assert p.a - 2 == q + 2;
    Same16(data, new_, q);
  }

  lemma {:induction false} WalkStep(data: seq<Byte>, q: nat, l: nat, t: nat, x: nat, r: nat)
    requires q + l <= |data| && l >= 4 && U16At(data, q) != t
    requires x == q + 4 + U16At(data, q + 2) && r + 4 + U16At(data, q + 2) == l
    ensures Walk(data, q, l, t) == Walk(data, x, r, t)
  {
  }

  /** or passes it, and is the same behind it. */
  lemma {:induction false} WalkOver(data: seq<Byte>, new_: seq<Byte>, p: Place, delta: int, q: nat, l: nat, l': nat,
                                    t: nat)
    requires Exchanged(data, new_, p, delta) && q + 4 == p.a && q + l <= |data| && t != 0 && l' == l + delta
    requires U16At(data, q) == 0 && U16At(data, q + 2) == p.elen && l >= 4 + p.elen
    ensures q + l' <= |new_| && Walk(new_, q, l', t) == Moved(Walk(data, q, l, t), p.a, delta)
  {
    WalkHere(data, new_, p, delta, q, l, l');
    var x, x', r := q + 4 + U16At(data, q + 2), q + 4 + U16At(new_, q + 2), l - 4 - U16At(data, q + 2);
    WalkBehind(data, new_, p.a + 5 + p.slen, p.a + 5 + p.slen + delta, delta, x, x', r, t, p.a);
    WalkStep(data, q, l, t, x, r);
    WalkStep(new_, q, l', t, x', r);
  }

  /** One step of the walk before the server_name extension. */
  lemma WalkPast(data: seq<Byte>, new_: seq<Byte>, p: Place, delta: int, q: nat, l: nat, l': nat) returns (elen: nat)
    requires Exchanged(data, new_, p, delta) && p.off + 2 <= q && q + l <= |data| && l' == l + delta
    requires Walk(data, q, l, 0) == Some(Extension(p.a, p.elen)) && U16At(data, q) != 0
    ensures q + l' <= |new_| && 4 + elen <= l && 4 + elen <= l' && q + 4 + elen + 4 <= p.a
    ensures elen == U16At(data, q + 2) == U16At(new_, q + 2) && U16At(new_, q) == U16At(data, q)
    ensures Walk(data, q + 4 + elen, l - 4 - elen, 0) == Some(Extension(p.a, p.elen))
  {
    elen := U16At(data, q + 2);
    WalkBounds(data, q, l, 0, Extension(p.a, p.elen));
    WalkBounds(data, q + 4 + elen, l - 4 - elen, 0, Extension(p.a, p.elen));
    Same16(data, new_, q);
    Same16(data, new_, q + 2);
  }

  /** The walk from q on, up to the server_name extension: it is found, */
  lemma {:induction false} WalkToSni(data: seq<Byte>, new_: seq<Byte>, p: Place, delta: int, q: nat, l: nat, l': nat)
    requires Exchanged(data, new_, p, delta) && p.off + 2 <= q && q + l <= |data| && l' == l + delta
    requires Walk(data, q, l, 0) == Some(Extension(p.a, p.elen))
    ensures q + l' <= |new_| && Walk(new_, q, l', 0) == Some(Extension(p.a, p.elen + delta))
    decreases l
  {
    if U16At(data, q) == 0 {
      WalkHere(data, new_, p, delta, q, l, l');
    } else {
      var elen := WalkPast(data, new_, p, delta, q, l, l');
      WalkToSni(data, new_, p, delta, q + 4 + elen, l - 4 - elen, l' - 4 - elen);
    }
  }

  /** and others are found before or behind it. */
  lemma {:induction false} WalkTo(data: seq<Byte>, new_: seq<Byte>, p: Place, delta: int, q: nat, l: nat, l': nat,
                                  t: nat)
    requires Exchanged(data, new_, p, delta) && p.off + 2 <= q && q + l <= |data| && t != 0 && l' == l + delta
    requires Walk(data, q, l, 0) == Some(Extension(p.a, p.elen))
    ensures q + l' <= |new_| && Walk(new_, q, l', t) == Moved(Walk(data, q, l, t), p.a, delta)
    decreases l
  {
    if U16At(data, q) == 0 {
      WalkOver(data, new_, p, delta, q, l, l', t);
    } else {
      var elen := WalkPast(data, new_, p, delta, q, l, l');
      if U16At(data, q) != t {
        WalkStep(data, q, l, t, q + 4 + elen, l - 4 - elen);
        WalkStep(new_, q, l', t, q + 4 + elen, l' - 4 - elen);
        WalkTo(data, new_, p, delta, q + 4 + elen, l - 4 - elen, l' - 4 - elen, t);
      }
    }
  }

  // ----- parsing from the offset of the extensions length -----

  lemma OffsetInPrefix(data: seq<Byte>, rec: seq<Byte>, off: nat)
    requires rec <= data && ExtLenOffset(data) == Some(off) && off + 2 <= |rec|
    ensures ExtLenOffset(rec) == Some(off)
  {
    assert forall i | 0 <= i < |rec| :: data[i] == rec[i];
  }

  /** A well framed message is searched from its extensions on. */
  lemma {:induction false} ExtFrom(data: seq<Byte>, off: nat, l: nat, t: nat)
    requires IsTlsClientHello(data, false) && ExtLenOffset(data) == Some(off) && l == U16At(data, off)
    requires off + 2 + l <= TlsRecordLen(data) && 4 + U24At(data, 6) <= TlsRecordLen(data) - 5
    ensures ExtOf(data, t) == Walk(data, off + 2, l, t)
  {
    var rec := Record(data);
    OffsetInPrefix(data, rec, off);
    assert U16At(rec, off) == U16At(data, off) && U24At(rec, 6) == U24At(data, 6);
    WalkPrefix(data, rec, off + 2, U16At(data, off), t);
  }

  /** The offset of the extensions length depends on the bytes from the session id on. */
  lemma OffsetKept(data: seq<Byte>, new_: seq<Byte>, off: nat)
    requires ExtLenOffset(data) == Some(off) && off + 2 <= |new_| && forall i | 43 <= i < off :: SameAt(data, new_, i)
    ensures ExtLenOffset(new_) == Some(off)
  {
    assert SameAt(data, new_, 43);
    var l1 := 44 + data[43] as nat;
    assert U16At(data, l1) == U16At(new_, l1) by { Same16(data, new_, l1); }
    var l2 := l1 + U16At(data, l1) + 2;
    assert SameAt(data, new_, l2);
  }

  // ----- the new message -----

  /** The message with the name exchanged, before the fields are adjusted. */
  ghost function Spliced(data: seq<Byte>, p: Place, name: seq<Byte>): (m: seq<Byte>)
    requires p.a + 5 + p.slen <= |data|
  {
    data[..p.a + 5] + name + data[p.a + 5 + p.slen..]
  }

  lemma SplicedAt(data: seq<Byte>, p: Place, name: seq<Byte>, i: nat)
    requires p.a + 5 + p.slen <= |data| && i < p.a + 5
    ensures SameAt(data, Spliced(data, p, name), i)
  {
  }

  lemma SplicedParts(data: seq<Byte>, p: Place, name: seq<Byte>)
    requires p.a + 5 + p.slen <= |data|
    ensures var m, s := Spliced(data, p, name), p.a + 5;
      |m| == |data| + |name| - p.slen && m[s..s + |name|] == name && m[s + |name|..] == data[s + p.slen..]
  {
  }

  /** What is known about the new message. */
  ghost predicate Renewed(data: seq<Byte>, new_: seq<Byte>, p: Place, name: seq<Byte>)
    requires Layout(data, p)
  {
    match p
    case Place(off, a, elen, slen) =>
      var delta := |name| - slen;
      && |new_| == |data| + delta && (forall i | 0 <= i < a + 5 && !IsField(p, i) :: SameAt(data, new_, i))
      && new_[a + 5..a + 5 + |name|] == name && new_[a + 5 + |name|..] == data[a + 5 + slen..]
      && U16At(new_, 3) == U16At(data, 3) + delta && U24At(new_, 6) == U24At(data, 6) + delta
      && U16At(new_, off) == U16At(data, off) + delta && U16At(new_, a - 2) == elen + delta
      && U16At(new_, a + 3) == |name|
  }

  /** r is m with the fields grown. */
  ghost predicate Grown(m: seq<Byte>, r: seq<Byte>, p: Place, delta: int) {
    && 43 < p.off && p.off + 6 <= p.a && p.a + 5 <= |m| == |r|
    && (forall i | 0 <= i < |m| && !IsField(p, i) :: SameAt(m, r, i))
    && U16At(r, 3) == U16At(m, 3) + delta && U24At(r, 6) == U24At(m, 6) + delta
    && U16At(r, p.off) == U16At(m, p.off) + delta && U16At(r, p.a - 2) == U16At(m, p.a - 2) + delta
    && U16At(r, p.a + 3) == U16At(m, p.a + 3) + delta
  }

  lemma {:induction false} AdjustedGrown(m: seq<Byte>, p: Place, delta: int)
    requires 43 < p.off && p.off + 6 <= p.a && p.a + 5 <= |m|
    requires 0 <= U16At(m, 3) + delta < 0x1_0000 && 0 <= U24At(m, 6) + delta < 0x100_0000
    requires 0 <= U16At(m, p.off) + delta < 0x1_0000 && 0 <= U16At(m, p.a - 2) + delta < 0x1_0000
    requires 0 <= U16At(m, p.a + 3) + delta < 0x1_0000
    ensures Grown(m, Adjusted(m, Fields(p), delta), p, delta)
  {
    var fs := Fields(p);
    AdjustedValue(m, fs, delta, 0);
    AdjustedValue(m, fs, delta, 1);
    AdjustedValue(m, fs, delta, 2);
    AdjustedValue(m, fs, delta, 3);
    AdjustedValue(m, fs, delta, 5);
    forall i | 0 <= i < |m| && !IsField(p, i) ensures SameAt(m, Adjusted(m, fs, delta), i) {
      AdjustedElsewhere(m, fs, delta, i);
    }
  }

  /** The tail and the name are beyond the fields. */
  lemma GrownSuffix(m: seq<Byte>, r: seq<Byte>, p: Place, delta: int, n: nat, n': nat)
    requires Grown(m, r, p, delta) && p.a + 5 <= n <= n' <= |m|
    ensures r[n..n'] == m[n..n']
  {
    forall i | n <= i < n' ensures r[i] == m[i] {
      assert SameAt(m, r, i);
    }
  }

  lemma SplicedFields(data: seq<Byte>, p: Place, name: seq<Byte>)
    requires Layout(data, p)
    ensures var m := Spliced(data, p, name);
      && |m| >= p.a + 5 && U16At(m, 3) == U16At(data, 3) && U24At(m, 6) == U24At(data, 6)
      && U16At(m, p.off) == U16At(data, p.off) && U16At(m, p.a - 2) == p.elen && U16At(m, p.a + 3) == p.slen
  {
    var m := Spliced(data, p, name);
    Same16(data, m, 3);
    SplicedAt(data, p, name, 8);
    Same16(data, m, p.off);
    Same16(data, m, p.a - 2);
    Same16(data, m, p.a + 3);
  }

  lemma GrownTail(data: seq<Byte>, m: seq<Byte>, new_: seq<Byte>, p: Place, name: seq<Byte>, delta: int, s: nat)
    requires s == p.a + 5 && s + p.slen <= |data| && m == Spliced(data, p, name) && Grown(m, new_, p, delta)
    ensures s + |name| <= |new_| && new_[s..s + |name|] == name && new_[s + |name|..] == data[s + p.slen..]
  {
    SplicedParts(data, p, name);
    GrownSuffix(m, new_, p, delta, s, s + |name|);
    GrownSuffix(m, new_, p, delta, s + |name|, |m|);
    assert new_[s + |name|..|m|] == new_[s + |name|..] && m[s + |name|..|m|] == m[s + |name|..];
  }

  lemma GrownRenewed(data: seq<Byte>, m: seq<Byte>, new_: seq<Byte>, p: Place, name: seq<Byte>, delta: int)
    requires Layout(data, p) && m == Spliced(data, p, name) && delta == |name| - p.slen && Grown(m, new_, p, delta)
    ensures Renewed(data, new_, p, name)
  {
    GrownTail(data, m, new_, p, name, delta, p.a + 5);
    SplicedFields(data, p, name);
    forall i | 0 <= i < p.a + 5 && !IsField(p, i) ensures SameAt(data, new_, i) {
      SplicedAt(data, p, name, i);
      assert SameAt(m, new_, i);
    }
  }

  /** Fields in the head of a message are adjusted there. */
  lemma {:induction false} AdjustedHead(m: seq<Byte>, fields: seq<Field>, delta: int, n: nat)
    requires n <= |m| && forall k | 0 <= k < |fields| :: Fits(fields[k], m) && Fits(fields[k], m[..n])
    ensures Adjusted(m, fields, delta) == Adjusted(m[..n], fields, delta) + m[n..]
    decreases |fields|
  {
    if fields == [] {
      assert m == m[..n] + m[n..];
    } else {
      var k := |fields| - 1;
      assert Fits(fields[k], m) && Fits(fields[k], m[..n]);
      AdjustedHead(m, fields[..k], delta, n);
      BumpHead(Adjusted(m[..n], fields[..k], delta), m[n..], fields[k], delta);
    }
  }

  lemma BumpHead(h: seq<Byte>, tail: seq<Byte>, f: Field, delta: int)
    requires Fits(f, h)
    ensures Fits(f, h + tail) && Bump(h + tail, f, delta) == Bump(h, f, delta) + tail
  {
    assert Value(h + tail, f) == Value(h, f);
  }

  /** The head of the new message, with the fields. */
  ghost function Head(data: seq<Byte>, p: Place, delta: int): (h: seq<Byte>)
    requires 43 < p.off && p.off + 6 <= p.a && p.a + 5 <= |data|
    ensures |h| == p.a + 5
  {
    Adjusted(data[..p.a + 5], Fields(p), delta)
  }

  /** The new message. */
  ghost function Rewritten(data: seq<Byte>, p: Place, name: seq<Byte>): (r: seq<Byte>)
    requires 43 < p.off && p.off + 6 <= p.a && p.a + 5 + p.slen <= |data|
    ensures |r| == |data| + |name| - p.slen
  {
    Head(data, p, |name| - p.slen) + (name + data[p.a + 5 + p.slen..])
  }

  lemma RewrittenDef(data: seq<Byte>, p: Place, name: seq<Byte>, delta: int, h: seq<Byte>, tail: seq<Byte>)
    requires 43 < p.off && p.off + 6 <= p.a && p.a + 5 + p.slen <= |data|
    requires delta == |name| - p.slen && h == Head(data, p, delta) && tail == data[p.a + 5 + p.slen..]
    ensures Rewritten(data, p, name) == h + (name + tail)
  {
  }

  lemma {:induction false} RewrittenIs(data: seq<Byte>, p: Place, name: seq<Byte>, delta: int)
    requires 43 < p.off && p.off + 6 <= p.a && p.a + 5 + p.slen <= |data| && delta == |name| - p.slen
    ensures var t := Spliced(data, p, name);
      |t| >= p.a + 5 && Rewritten(data, p, name) == Adjusted(t, Fields(p), delta)
  {
    var s := p.a + 5;
    SplicedParts(data, p, name);
    var t := Spliced(data, p, name);
    assert t[..s] == data[..s] && t[s..] == name + data[s + p.slen..];
    AdjustedHead(t, Fields(p), delta, s);
  }

  lemma RewrittenRenewed(data: seq<Byte>, p: Place, name: seq<Byte>, delta: int)
    requires Layout(data, p) && delta == |name| - p.slen && NoOverflow(data, p, delta)
    ensures Renewed(data, Rewritten(data, p, name), p, name)
  {
    var m := Spliced(data, p, name);
    SplicedFields(data, p, name);
    AdjustedGrown(m, p, delta);
    RewrittenIs(data, p, name, delta);
    GrownRenewed(data, m, Rewritten(data, p, name), p, name, delta);
  }

  lemma RenewedExchanged(data: seq<Byte>, new_: seq<Byte>, p: Place, name: seq<Byte>, delta: int)
    requires Layout(data, p) && Renewed(data, new_, p, name) && delta == |name| - p.slen
    ensures Exchanged(data, new_, p, delta)
  {
  }

  /** The new message is as well framed as the old one. */
  lemma FramingKept(data: seq<Byte>, new_: seq<Byte>, p: Place, name: seq<Byte>)
    requires Found(data, p) && Layout(data, p) && Renewed(data, new_, p, name)
    ensures IsTlsClientHello(new_, false) && TlsRecordLen(new_) == TlsRecordLen(data) + |name| - p.slen
    ensures ExtLenOffset(new_) == Some(p.off) && 4 + U24At(new_, 6) <= TlsRecordLen(new_) - 5
    ensures p.off + 2 + U16At(new_, p.off) <= TlsRecordLen(new_)
  {
    assert SameAt(data, new_, 0) && SameAt(data, new_, 1) && SameAt(data, new_, 2) && SameAt(data, new_, 5);
    OffsetKept(data, new_, p.off);
  }

  /** The two searches, before and after. */
  ghost predicate Searches(data: seq<Byte>, new_: seq<Byte>, p: Place, delta: int, t: nat) {
    match p
    case Place(off, a, elen, _) =>
      off + 2 <= |data| && off + 2 <= |new_| && var l, l' := U16At(data, off), U16At(new_, off);
      && off + 2 + l <= |data| && off + 2 + l' <= |new_| && l' == l + delta
      && ExtOf(new_, t) == Walk(new_, off + 2, l', t) && ExtOf(data, t) == Walk(data, off + 2, l, t)
      && Walk(data, off + 2, l, 0) == Some(Extension(a, elen))
  }

  lemma {:induction false} RenewedSearch(data: seq<Byte>, new_: seq<Byte>, p: Place, name: seq<Byte>, delta: int,
                                         t: nat)
    requires Found(data, p) && Layout(data, p) && Renewed(data, new_, p, name) && delta == |name| - p.slen
    ensures Searches(data, new_, p, delta, t)
  {
    FramingKept(data, new_, p, name);
    ExtFrom(new_, p.off, U16At(new_, p.off), t);
    ExtFrom(data, p.off, U16At(data, p.off), t);
  }

  lemma SniMoved(data: seq<Byte>, new_: seq<Byte>, p: Place, delta: int)
    requires Searches(data, new_, p, delta, 0) && Exchanged(data, new_, p, delta)
    ensures ExtOf(new_, 0) == Some(Extension(p.a, p.elen + delta))
  {
    WalkToSni(data, new_, p, delta, p.off + 2, U16At(data, p.off), U16At(new_, p.off));
  }

  lemma SearchMoved(data: seq<Byte>, new_: seq<Byte>, p: Place, delta: int, t: nat)
    requires Searches(data, new_, p, delta, t) && Exchanged(data, new_, p, delta) && t != 0
    ensures ExtOf(new_, t) == Moved(ExtOf(data, t), p.a, delta)
  {
    WalkTo(data, new_, p, delta, p.off + 2, U16At(data, p.off), U16At(new_, p.off), t);
  }

  lemma {:induction false} RenewedSni(data: seq<Byte>, new_: seq<Byte>, p: Place, name: seq<Byte>, delta: int,
                                      elen: nat)
    requires Found(data, p) && Layout(data, p) && Renewed(data, new_, p, name) && delta == |name| - p.slen
    requires elen == p.elen + delta
    ensures ExtOf(new_, 0) == Some(Extension(p.a, elen)) && ExtLenOffset(new_) == Some(p.off)
  {
    RenewedSearch(data, new_, p, name, delta, 0);
    RenewedExchanged(data, new_, p, name, delta);
    SniMoved(data, new_, p, delta);
    FramingKept(data, new_, p, name);
  }

  lemma FoundBy(data: seq<Byte>, off: nat, a: nat, elen: nat, slen: nat)
    requires ExtLenOffset(data) == Some(off) && ExtOf(data, 0) == Some(Extension(a, elen))
    requires a + elen <= |data| && HostInSni(data, Extension(a, elen)) == Some(Extension(a + 5, slen))
    ensures Found(data, Place(off, a, elen, slen))
  {
  }

  lemma RenewedFound(data: seq<Byte>, new_: seq<Byte>, p: Place, name: seq<Byte>, delta: int, elen: nat)
    requires Found(data, p) && Layout(data, p) && Renewed(data, new_, p, name) && delta == |name| - p.slen
    requires elen == p.elen + delta
    ensures Found(new_, Place(p.off, p.a, elen, |name|))
  {
    RenewedSni(data, new_, p, name, delta, elen);
    RenewedHost(data, new_, p, name, delta, elen);
    FoundBy(new_, p.off, p.a, elen, |name|);
  }

  lemma RenewedHost(data: seq<Byte>, new_: seq<Byte>, p: Place, name: seq<Byte>, delta: int, elen: nat)
    requires Layout(data, p) && Renewed(data, new_, p, name) && delta == |name| - p.slen && elen == p.elen + delta
    ensures p.a + elen <= |new_| && HostInSni(new_, Extension(p.a, elen)) == Some(Extension(p.a + 5, |name|))
  {
    assert SameAt(data, new_, p.a + 2);
  }

  /** Reading the new message finds exactly the new name as server name, and the lengths of the record, the handshake,
      the extensions, the extension and the name have all changed by the same amount. */
  ghost predicate Renamed(data: seq<Byte>, new_: seq<Byte>, p: Place, name: seq<Byte>, delta: int)
    requires Layout(data, p) && delta == |name| - p.slen
  {
    match p
    case Place(off, a, elen, slen) =>
      && |new_| == |data| + delta && U16At(new_, a - 2) == elen + delta &&
         Found(new_, Place(off, a, U16At(new_, a - 2), |name|))
      && new_[a + 5..a + 5 + |name|] == name && TlsRecordLen(new_) == TlsRecordLen(data) + delta
      && U24At(new_, 6) == U24At(data, 6) + delta && U16At(new_, off) == U16At(data, off) + delta
  }

  lemma RenewedIs(data: seq<Byte>, new_: seq<Byte>, p: Place, name: seq<Byte>, delta: int)
    requires Found(data, p) && Layout(data, p) && delta == |name| - p.slen && Renewed(data, new_, p, name)
    ensures Renamed(data, new_, p, name, delta)
  {
    RenewedFound(data, new_, p, name, delta, U16At(new_, p.a - 2));
  }

  lemma RenamedFits(data: seq<Byte>, new_: seq<Byte>, p: Place, name: seq<Byte>, delta: int)
    requires Layout(data, p) && delta == |name| - p.slen && Renamed(data, new_, p, name, delta)
    ensures NoOverflow(data, p, delta)
  {
    FoundLayout(new_, Place(p.off, p.a, U16At(new_, p.a - 2), |name|));
  }

  /** The name is replaced as it should exactly if no length field that is parsed overflows. */
  lemma SniReplaced(data: seq<Byte>, p: Place, name: seq<Byte>, delta: int)
    requires Found(data, p) && delta == |name| - p.slen
    ensures Layout(data, p)
    ensures Renamed(data, Rewritten(data, p, name), p, name, delta) <==> NoOverflow(data, p, delta)
  {
    FoundLayout(data, p);
    if NoOverflow(data, p, delta) {
      RewrittenRenewed(data, p, name, delta);
      RenewedIs(data, Rewritten(data, p, name), p, name, delta);
    } else if Renamed(data, Rewritten(data, p, name), p, name, delta) {
      RenamedFits(data, Rewritten(data, p, name), p, name, delta);
    }
  }

  /** The list length, which is not parsed, changes by the same amount, if that fits. */
  lemma ListLengthKept(data: seq<Byte>, p: Place, name: seq<Byte>, delta: int)
    requires Layout(data, p) && delta == |name| - p.slen && 0 <= U16At(data, p.a) + delta < 0x1_0000
    ensures U16At(Rewritten(data, p, name), p.a) == U16At(data, p.a) + delta
  {
    var m := Spliced(data, p, name);
    Same16(data, m, p.a);
    RewrittenIs(data, p, name, delta);
    AdjustedValue(m, Fields(p), delta, 4);
  }

  /** Another extension lies before the server_name extension or behind it. */
  lemma {:induction false} WalkSides(data: seq<Byte>, q: nat, l: nat, t: nat, sni: Extension, e: Extension)
    requires q + l <= |data| && t != 0
    requires Walk(data, q, l, 0) == Some(sni) && Walk(data, q, l, t) == Some(e)
    ensures q + 4 <= e.off && (e.off + e.len + 4 <= sni.off || sni.off + sni.len + 4 <= e.off)
    decreases l
  {
    var etype, elen := U16At(data, q), U16At(data, q + 2);
    WalkBounds(data, q, l, 0, sni);
    WalkBounds(data, q, l, t, e);
    if etype == 0 {
      WalkBounds(data, q + 4 + elen, l - 4 - elen, t, e);
    } else if etype == t {
      WalkBounds(data, q + 4 + elen, l - 4 - elen, 0, sni);
    } else {
      WalkSides(data, q + 4 + elen, l - 4 - elen, t, sni, e);
    }
  }

  lemma SameSlice(data: seq<Byte>, new_: seq<Byte>, a: nat, b: nat)
    requires a <= b <= |data| && b <= |new_| && forall i | a <= i < b :: SameAt(data, new_, i)
    ensures new_[a..b] == data[a..b]
  {
    forall i | a <= i < b ensures new_[i] == data[i] { assert SameAt(data, new_, i); }
  }

  lemma TailSlice(data: seq<Byte>, new_: seq<Byte>, n: nat, n': nat, a: nat, a': nat, len: nat)
    requires n <= a && a + len <= |data| && n' <= |new_| && new_[n'..] == data[n..] && a' == a - n + n'
    ensures a' + len <= |new_| && new_[a'..a' + len] == data[a..a + len]
  {
    forall j | a' <= j < a' + len ensures new_[j] == data[j - a' + a] {
      assert new_[n'..][j - n'] == data[n..][j - n'];
    }
  }

  ghost predicate SameData(data: seq<Byte>, e: Extension, new_: seq<Byte>, e': Extension) {
    match e'
    case Extension(off', len') =>
      e.off + e.len <= |data| && off' + len' <= |new_| && new_[off'..off' + len'] == data[e.off..e.off + e.len]
  }

  lemma DataBefore(data: seq<Byte>, new_: seq<Byte>, p: Place, delta: int, e: Extension)
    requires Exchanged(data, new_, p, delta) && p.off + 2 <= e.off && e.off + e.len + 4 <= p.a
    ensures SameData(data, e, new_, e)
  {
    SameSlice(data, new_, e.off, e.off + e.len);
  }

  lemma DataBehind(data: seq<Byte>, new_: seq<Byte>, p: Place, delta: int, e: Extension, e': Extension)
    requires Exchanged(data, new_, p, delta) && p.a + p.elen <= e.off && e.off + e.len <= |data|
    requires e'.off == e.off + delta && e'.len == e.len
    ensures SameData(data, e, new_, e')
  {
    var n := p.a + 5 + p.slen;
    TailSlice(data, new_, n, n + delta, e.off, e'.off, e.len);
  }

  lemma {:induction false} DataMoved(data: seq<Byte>, new_: seq<Byte>, p: Place, delta: int, t: nat, e: Extension,
                                     e': Extension)
    requires Searches(data, new_, p, delta, t) && Exchanged(data, new_, p, delta) && t != 0 && ExtOf(data, t) == Some(e)
    requires Some(e') == Moved(Some(e), p.a, delta)
    ensures SameData(data, e, new_, e')
  {
    WalkSides(data, p.off + 2, U16At(data, p.off), t, Extension(p.a, p.elen), e);
    if e.off < p.a {
      DataBefore(data, new_, p, delta, e);
      assert e' == e;
    } else {
      DataBehind(data, new_, p, delta, e, e');
    }
  }

  lemma {:induction false} OthersMoved(data: seq<Byte>, new_: seq<Byte>, p: Place, delta: int, t: nat,
                                       e: Option<Extension>, e': Option<Extension>)
    requires Searches(data, new_, p, delta, t) && Exchanged(data, new_, p, delta) && t != 0
    requires e == ExtOf(data, t) && e' == ExtOf(new_, t)
    ensures e' == Moved(e, p.a, delta) && (e.Some? ==> SameData(data, e.value, new_, e'.value))
  {
    SearchMoved(data, new_, p, delta, t);
    if e.Some? { DataMoved(data, new_, p, delta, t, e.value, e'.value); }
  }

  lemma {:induction false} RenewedOthers(data: seq<Byte>, new_: seq<Byte>, p: Place, name: seq<Byte>, delta: int,
                                         t: nat, e: Option<Extension>, e': Option<Extension>)
    requires Found(data, p) && Layout(data, p) && Renewed(data, new_, p, name) && delta == |name| - p.slen && t != 0
    requires e == ExtOf(data, t) && e' == ExtOf(new_, t)
    ensures e' == Moved(e, p.a, delta) && (e.Some? ==> SameData(data, e.value, new_, e'.value))
  {
    RenewedSearch(data, new_, p, name, delta, t);
    RenewedExchanged(data, new_, p, name, delta);
    OthersMoved(data, new_, p, delta, t, e, e');
  }

  /** Every other extension is found again, and only if it was there, with the same data. */
  lemma {:induction false} OthersKept(data: seq<Byte>, p: Place, name: seq<Byte>, delta: int, t: nat)
    requires Found(data, p) && delta == |name| - p.slen && NoOverflow(data, p, delta) && t != 0
    ensures Layout(data, p) && ExtOf(Rewritten(data, p, name), t) == Moved(ExtOf(data, t), p.a, delta)
    ensures ExtOf(data, t).Some? ==>
              SameData(data, ExtOf(data, t).value, Rewritten(data, p, name), ExtOf(Rewritten(data, p, name), t).value)
  {
    FoundLayout(data, p);
    RewrittenRenewed(data, p, name, delta);
    var r := Rewritten(data, p, name);
    RenewedOthers(data, r, p, name, delta, t, ExtOf(data, t), ExtOf(r, t));
  }

  // ----- the code -----

  /** fields[k] += delta, in the buffer. */
  method AddToField(buf: array<Byte>, size: nat, f: Field, delta: int, ghost m: seq<Byte>, ghost fields: seq<Field>,
                    ghost k: nat)
    requires size <= buf.Length && |m| == size && forall j | 0 <= j < |fields| :: Fits(fields[j], m)
    requires k < |fields| && f == fields[k] && buf[..size] == Adjusted(m, fields[..k], delta)
    modifies buf
    ensures buf[..size] == Adjusted(m, fields[..k + 1], delta)
  {
    ghost var s := buf[..size];
    assert fields[..k + 1][..k] == fields[..k];
    if f.U16? {
      var v := U16At(buf[..size], f.pos) + delta;
      buf[f.pos], buf[f.pos + 1] := v / 256 % 256, v % 256;
    } else {
      var v := U24At(buf[..size], f.pos) + delta;
      buf[f.pos], buf[f.pos + 1], buf[f.pos + 2] := v / 65536 % 256, v / 256 % 256, v % 256;
    }
    assert buf[..size] == Bump(s, f, delta);
  }

  /** The six adjustments, in the order of the code. */
  method AddToFields(buf: array<Byte>, size: nat, off: nat, a: nat, delta: int, ghost p: Place)
    requires 43 < off && off + 6 <= a && a + 5 <= size <= buf.Length && p.off == off && p.a == a
    modifies buf
    ensures forall k | 0 <= k < |Fields(p)| :: Fits(Fields(p)[k], old(buf[..size]))
    ensures buf[..size] == Adjusted(old(buf[..size]), Fields(p), delta)
  {
    ghost var m, fs := buf[..size], Fields(p);
    assert fs[..0] == [] && fs[..6] == fs;
    AddToField(buf, size, U16(3), delta, m, fs, 0);
    AddToField(buf, size, U24(6), delta, m, fs, 1);
    AddToField(buf, size, U16(off), delta, m, fs, 2);
    AddToField(buf, size, U16(a - 2), delta, m, fs, 3);
    AddToField(buf, size, U16(a), delta, m, fs, 4);
    AddToField(buf, size, U16(a + 3), delta, m, fs, 5);
  }

  /** With delta == 0 nothing happens to the fields. */
  lemma {:induction false} AdjustedBy0(m: seq<Byte>, fields: seq<Field>)
    requires forall k | 0 <= k < |fields| :: Fits(fields[k], m)
    ensures Adjusted(m, fields, 0) == m
    decreases |fields|
  {
    if fields != [] {
      AdjustedBy0(m, fields[..|fields| - 1]);
      BumpBy0(m, fields[|fields| - 1]);
    }
  }

  lemma BumpBy0(m: seq<Byte>, f: Field)
    requires Fits(f, m)
    ensures Bump(m, f, 0) == m
  {
    if f.U16? {
      DigitsBack16(m[f.pos], m[f.pos + 1]);
    } else {
      DigitsBack24(m[f.pos], m[f.pos + 1], m[f.pos + 2]);
    }
  }

  lemma DigitsBack16(a: Byte, b: Byte)
    ensures var v := 256 * (a as int) + b as int; v / 256 % 256 == a as int && v % 256 == b as int
  {
  }

  lemma DigitsBack24(a: Byte, b: Byte, c: Byte)
    ensures var v := 65536 * (a as int) + 256 * (b as int) + c as int;
      v / 65536 % 256 == a as int && v / 256 % 256 == b as int && v % 256 == c as int
  {
  }

  lemma Assemble(all: seq<Byte>, h: seq<Byte>, n: nat, x: seq<Byte>, name: seq<Byte>, tail: seq<Byte>)
    requires all == h + x && n == |h| && |name| <= |x| && x[|name|..] == tail
    ensures all[..n] + name + all[n + |name|..] == h + (name + tail)
  {
    assert all[..n] == h;
    assert all[n + |name|..] == x[|name|..];
  }

  lemma DropDrop(m: seq<Byte>, a: nat, b: nat)
    requires a + b <= |m|
    ensures m[a..][b..] == m[a + b..]
  {
  }

  lemma {:induction false} HeadIs(data: seq<Byte>, p: Place, delta: int, n: nat, h: seq<Byte>)
    requires 43 < p.off && p.off + 6 <= p.a && n == p.a + 5 <= |data| && h == data[..n]
    ensures forall k | 0 <= k < |Fields(p)| :: Fits(Fields(p)[k], h)
    ensures Head(data, p, delta) == Adjusted(h, Fields(p), delta)
  {
  }

  lemma {:induction false} HeadAdjusted(m: seq<Byte>, data: seq<Byte>, p: Place, delta: int, n: nat)
    requires 43 < p.off && p.off + 6 <= p.a && n == p.a + 5 <= |data| && n <= |m| && m[..n] == data[..n]
    ensures forall k | 0 <= k < |Fields(p)| :: Fits(Fields(p)[k], m)
    ensures Adjusted(m, Fields(p), delta) == Head(data, p, delta) + m[n..]
  {
    AdjustedHead(m, Fields(p), delta, n);
    HeadIs(data, p, delta, n, m[..n]);
  }

  /** Writing the name after the fields were adjusted, or before, is the same. */
  lemma NameLast(data: seq<Byte>, p: Place, name: seq<Byte>, m: seq<Byte>, n: nat, tail: seq<Byte>)
    requires 43 < p.off && p.off + 6 <= p.a && p.a + 5 + p.slen <= |data| && |m| == |data| + |name| - p.slen
    requires n == p.a + 5 && m[..n] == data[..n] && tail == data[p.a + 5 + p.slen..] && m[n + |name|..] == tail
    ensures forall k | 0 <= k < |Fields(p)| :: Fits(Fields(p)[k], m)
    ensures var adjusted := Adjusted(m, Fields(p), |name| - p.slen);
      adjusted[..n] + name + adjusted[n + |name|..] == Rewritten(data, p, name)
  {
    var delta := |name| - p.slen;
    var h := Head(data, p, delta);
    HeadAdjusted(m, data, p, delta, n);
    DropDrop(m, n, |name|);
    Assemble(Adjusted(m, Fields(p), delta), h, n, m[n..], name, tail);
    RewrittenDef(data, p, name, delta, h, tail);
  }

  /** The search for the name. */
  method LocateSni(data: seq<Byte>) returns (found: bool, p: Place)
    ensures found ==> Found(data, p)
    ensures !found ==> forall q :: !Found(data, q)
  {
    found, p := false, Place(0, 0, 0, 0);
    var off := ExtLenOffset(data);
    if off.None? {
      return;
    }
    var ext := FindExt(data, 0);
    if ext.None? {
      return;
    }
    var host := HostInSni(data, ext.value);
    if host.None? {
      return;
    }
    found, p := true, Place(off.value, ext.value.off, ext.value.len, host.value.len);
  }

  /** Makes room for the name. */
  method MakeRoom(buf: array<Byte>, size0: nat, sni: nat, slen: nat, len: nat) returns (size: nat)
    requires sni + slen <= size0 <= buf.Length && size0 + len - slen <= buf.Length
    modifies buf
    ensures size == size0 + len - slen && buf[..size][..sni] == old(buf[..size0])[..sni]
    ensures buf[..size][sni + len..] == old(buf[..size0])[sni + slen..]
  {
    size := size0 + len - slen;
    if len != slen {
      MemMove(buf, sni + len, sni + slen, size0 - (sni + slen));
    }
  }

  method WriteName(buf: array<Byte>, size: nat, sni: nat, name: seq<Byte>)
    requires sni + |name| <= size <= buf.Length
    modifies buf
    ensures buf[..size] == old(buf[..size])[..sni] + name + old(buf[..size])[sni + |name|..]
  {
    forall i | 0 <= i < |name| { buf[sni + i] := name[i]; }
  }

  /** Makes room for the name, adjusts the fields, and writes the name. */
  method ExchangeName(buf: array<Byte>, size0: nat, p: Place, name: seq<Byte>) returns (size: nat)
    requires 43 < p.off && p.off + 6 <= p.a && p.a + 5 + p.slen <= size0 <= buf.Length
    requires size0 + |name| - p.slen <= buf.Length
    modifies buf
    ensures size == size0 + |name| - p.slen && buf[..size] == Rewritten(old(buf[..size0]), p, name)
  {
    ghost var data := buf[..size0];
    var delta, sni := |name| - p.slen, p.a + 5;
    size := MakeRoom(buf, size0, sni, p.slen, |name|);
    ghost var m, tail := buf[..size], data[p.a + 5 + p.slen..];
    assert m[..sni] == data[..sni] && m[sni + |name|..] == tail;
    NameLast(data, p, name, m, sni, tail);
    AdjustBuffer(buf, size, p, delta);
    WriteName(buf, size, sni, name);
  }

  method AdjustBuffer(buf: array<Byte>, size: nat, p: Place, delta: int)
    requires 43 < p.off && p.off + 6 <= p.a && p.a + 5 <= size <= buf.Length
    modifies buf
    ensures forall k | 0 <= k < |Fields(p)| :: Fits(Fields(p)[k], old(buf[..size]))
    ensures buf[..size] == Adjusted(old(buf[..size]), Fields(p), delta)
  {
    if delta != 0 {
      AddToFields(buf, size, p.off, p.a, delta, p);
    } else {
      AdjustedBy0(buf[..size], Fields(p));
    }
  }

  /** Replaces the name in the first size0 bytes of the buffer, if it is found and there is room. */
  method ReplaceSni(buf: array<Byte>, size0: nat, name: seq<Byte>) returns (ok: bool, size: nat, p: Place)
    requires size0 <= buf.Length && IsTlsClientHello(buf[..size0], false)
    modifies buf
    ensures !ok ==> buf[..] == old(buf[..]) && size == size0
    ensures ok ==> Found(old(buf[..size0]), p) && Layout(old(buf[..size0]), p)
    ensures ok ==> size == size0 + |name| - p.slen <= buf.Length
    ensures ok ==> buf[..size] == Rewritten(old(buf[..size0]), p, name)
    ensures !ok ==> forall q | Found(old(buf[..size0]), q) :: size0 + |name| - q.slen > buf.Length
  {
    size := size0;
    ok, p := LocateSni(buf[..size0]);
    if ok {
      FoundLayout(buf[..size0], p);
      ok := |name| == p.slen || size0 + |name| - p.slen <= buf.Length;
      if ok {
        size := ExchangeName(buf, size0, p, name);
      }
    }
  }
}
