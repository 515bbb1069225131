/** Changes tpws makes to a request before it is split (tamper_out of upstream/tpws/tamper.c): padding headers in front
    of the Host header, and the division of a ClientHello's TLS record. */
module Tamper {
  import opened Sequences
  import opened Tls
  import opened Wire

  // ----- host padding -----

  const LF: Byte := 10
  const CR: Byte := 13
  const SPACE: Byte := 32
  const COLON: Byte := 58

  /** IsHostAt, within the data */
  predicate IsHostAt(s: seq<Byte>, p: nat) {
    && p + 6 <= |s| && s[p] == LF && (s[p + 1] == 72 || s[p + 1] == 104) && (s[p + 2] == 111 || s[p + 2] == 79)
    && (s[p + 3] == 115 || s[p + 3] == 83) && (s[p + 4] == 116 || s[p + 4] == 84) && s[p + 5] == COLON
  }

  /** A letter in lower case. */
  function Lower(b: Byte): Byte {
    if 65 <= b <= 90 then b + 32 else b
  }

  const HOST_HEADER := "\nhost:"

  /** That is a line feed and the header name, in any case. */
  lemma HostAtMeaning(s: seq<Byte>, p: nat)
    ensures IsHostAt(s, p) <==>
              p + 6 <= |s| && forall i | 0 <= i < 6 :: Lower(s[p + i]) as int == HOST_HEADER[i] as int
  {
    if p + 6 <= |s| {
      var t := s[p..p + 6];
      assert t[0] == s[p] && t[1] == s[p + 1] && t[2] == s[p + 2] && t[3] == s[p + 3] && t[4] == s[p + 4] &&
             t[5] == s[p + 5];
      assert forall i | 0 <= i < 6 :: t[i] == s[p + i];
      HostText(t);
    }
  }

  lemma HostText(t: seq<Byte>)
    requires |t| == 6
    ensures (forall i | 0 <= i < 6 :: Lower(t[i]) as int == HOST_HEADER[i] as int) <==>
              t[0] == LF && (t[1] == 72 || t[1] == 104) && (t[2] == 111 || t[2] == 79) &&
              (t[3] == 115 || t[3] == 83) && (t[4] == 116 || t[4] == 84) && t[5] == COLON
  {
    var ok := forall i | 0 <= i < 6 :: Lower(t[i]) as int == HOST_HEADER[i] as int;
    assert ok ==> Lower(t[0]) == 10 && Lower(t[1]) == 104 && Lower(t[2]) == 111 && Lower(t[3]) == 115 &&
                  Lower(t[4]) == 116 && Lower(t[5]) == 58;
  }

  ghost predicate FirstHost(s: seq<Byte>, p: nat) {
    IsHostAt(s, p) && forall q: nat | q < p :: !IsHostAt(s, q)
  }

  /** FindHostIn */
  method FindHostIn(buf: seq<Byte>) returns (pos: Option<nat>)
    ensures pos.Some? ==> FirstHost(buf, pos.value)
    ensures pos.None? ==> forall q :: !IsHostAt(buf, q)
  {
    if |buf| < 6 {
      return None;
    }
    var p := 0;
    while p <= |buf| - 6
      invariant p <= |buf| - 5 && forall q: nat | q < p :: !IsHostAt(buf, q)
    {
      if IsHostAt(buf, p) {
        return Some(p);
      }
      p := p + 1;
    }
    pos := None;
  }

  /** A padding header: a letter and four hexadecimal digits, a colon, a space, padding, and the end of the line. */
  datatype Header = Header(letter: Byte, hex: seq<Byte>, filler: Byte, padsize: nat)

  predicate IsLetter(b: Byte) {
    97 <= b <= 122
  }

  predicate IsHexDigit(b: Byte) {
    48 <= b <= 57 || 97 <= b <= 102
  }

  ghost predicate WellFormed(h: Header) {
    IsLetter(h.letter) && IsLetter(h.filler) && |h.hex| == 4 && forall i | 0 <= i < 4 :: IsHexDigit(h.hex[i])
  }

  function Eol(unixeol: bool): seq<Byte> {
    if unixeol then [LF] else [CR, LF]
  }

  /** hsize */
  function HeaderSize(unixeol: bool): nat {
    if unixeol then 8 else 9
  }

  function Filler(b: Byte, n: nat): (r: seq<Byte>)
    ensures |r| == n && forall i | 0 <= i < n :: r[i] == b
  {
    seq(n, _ => b)
  }

  function Line(h: Header, unixeol: bool): (r: seq<Byte>)
    requires |h.hex| == 4
    ensures |r| == HeaderSize(unixeol) + h.padsize
  {
    [h.letter] + h.hex + [COLON, SPACE] + Filler(h.filler, h.padsize) + Eol(unixeol)
  }

  /** A line is a header: its name, a colon and a space, the filler, and the end of the line. */
  lemma LineMeaning(h: Header, unixeol: bool)
    requires WellFormed(h)
    ensures var r := Line(h, unixeol);
      && 97 <= r[0] <= 122 && (forall i | 1 <= i < 5 :: 48 <= r[i] <= 57 || 97 <= r[i] <= 102)
      && r[5] == 58 && r[6] == 32 && 97 <= h.filler <= 122
      && (forall i | 7 <= i < 7 + h.padsize :: r[i] == h.filler)
      && r[7 + h.padsize..] == if unixeol then [10] else [13, 10]
  {
    var r := Line(h, unixeol);
    assert forall i | 1 <= i < 5 :: r[i] == h.hex[i - 1];
  }

  ghost function Text(hs: seq<Header>, unixeol: bool): seq<Byte>
    requires forall i | 0 <= i < |hs| :: WellFormed(hs[i])
  {
    if hs == [] then [] else
    assert WellFormed(hs[|hs| - 1]);
    Text(hs[..|hs| - 1], unixeol) + Line(hs[|hs| - 1], unixeol)
  }

  const MAX_HDR_SIZE := 2048

  /** The padding of the next header: what it leaves is nothing, or enough for another header. */
  function PadSize(hostpad: nat, hsize: nat): (padsize: nat)
    requires 0 < hsize <= hostpad
    ensures hsize + padsize <= hostpad && padsize < MAX_HDR_SIZE + hsize
    ensures hostpad - padsize - hsize == 0 || hostpad - padsize - hsize >= hsize
    ensures padsize == if hostpad < MAX_HDR_SIZE + 2 * hsize then hostpad - hsize else MAX_HDR_SIZE
  {
    var padsize: nat := if hostpad > hsize then hostpad - hsize else 0;
    var capped: nat := if padsize > MAX_HDR_SIZE then MAX_HDR_SIZE else padsize;
    var left: nat := hostpad - capped - hsize;
    if left < hsize then capped + left else capped
  }

  /** What a hexadecimal digit stands for. */
  function HexValue(b: Byte): int {
    if b < 58 then b - 48 else b - 87
  }

  function HexDigit(d: nat): (b: Byte)
    requires d < 16
    ensures IsHexDigit(b) && HexValue(b) == d
  {
    if d < 10 then 48 + d else 87 + d
  }

  function RandomLetter(r: nat): (b: Byte)
    ensures IsLetter(b) && b == 97 + r % 26
  {
    97 + r % 26
  }

  lemma Digits(v: nat)
    requires v < 0x1_0000
    ensures 4096 * (v / 4096 % 16) + 256 * (v / 256 % 16) + 16 * (v / 16 % 16) + v % 16 == v
  {
    var x := v / 16;
    var y := x / 16;
    assert v / 256 == y && v / 4096 == y / 16 && y / 16 < 16;
  }

  /** Four hexadecimal digits. */
  function Hex(v: nat): (h: seq<Byte>)
    requires v < 0x1_0000
    ensures |h| == 4 && forall i | 0 <= i < 4 :: IsHexDigit(h[i])
    ensures 4096 * HexValue(h[0]) + 256 * HexValue(h[1]) + 16 * HexValue(h[2]) + HexValue(h[3]) == v
  {
    Digits(v);
    [HexDigit(v / 4096 % 16), HexDigit(v / 256 % 16), HexDigit(v / 16 % 16), HexDigit(v % 16)]
  }

  /** A header from three random numbers. */
  function NewHeader(r0: nat, r1: nat, r2: nat, padsize: nat): (h: Header)
    ensures WellFormed(h) && h.padsize == padsize && h.letter == 97 + r0 % 26 && h.filler == 97 + r2 % 26
  {
    Header(RandomLetter(r0), Hex(r1 % 0x1_0000), RandomLetter(r2), padsize)
  }

  /** Bytes stored from p on. */
  method Store(segment: array<Byte>, p: nat, s: seq<Byte>)
    requires p + |s| <= segment.Length
    modifies segment
    ensures segment[p..p + |s|] == s
    ensures forall i | 0 <= i < segment.Length && !(p <= i < p + |s|) :: segment[i] == old(segment[i])
  {
    forall i | 0 <= i < |s| { segment[p + i] := s[i]; }
  }

  lemma {:induction false} TextPush(hs: seq<Header>, h: Header, unixeol: bool)
    requires WellFormed(h) && forall i | 0 <= i < |hs| :: WellFormed(hs[i])
    ensures Text(hs + [h], unixeol) == Text(hs, unixeol) + Line(h, unixeol)
  {
    assert (hs + [h])[..|hs|] == hs;
  }

  lemma Extended(s: seq<Byte>, r: seq<Byte>, a: nat, b: nat, c: nat, t: seq<Byte>, line: seq<Byte>)
    requires a <= b <= c <= |r| == |s| && s[a..b] == t && r[b..c] == line && forall i | a <= i < b :: r[i] == s[i]
    ensures r[a..c] == t + line
  {
    forall i | a <= i < c ensures r[i] == (t + line)[i - a] {
      if i < b { assert t[i - a] == s[a..b][i - a]; } else { assert line[i - b] == r[b..c][i - b]; }
    }
  }

  /** Writes one more header. */
  method AppendHeader(segment: array<Byte>, pHost: nat, p: nat, h: Header, unixeol: bool, ghost hs: seq<Header>)
    returns (p': nat)
    requires WellFormed(h) && forall i | 0 <= i < |hs| :: WellFormed(hs[i])
    requires pHost <= p && p + HeaderSize(unixeol) + h.padsize <= segment.Length &&
             segment[pHost..p] == Text(hs, unixeol)
    modifies segment
    ensures p' == p + HeaderSize(unixeol) + h.padsize && segment[pHost..p'] == Text(hs + [h], unixeol)
    ensures forall i | 0 <= i < segment.Length && !(p <= i < p') :: segment[i] == old(segment[i])
  {
    var line := Line(h, unixeol);
    ghost var before := segment[..];
    Store(segment, p, line);
    p' := p + |line|;
    TextPush(hs, h, unixeol);
    Extended(before, segment[..], pHost, p, p', Text(hs, unixeol), line);
  }

  /** The loop that fills the gap of hostpad0 bytes at pHost with headers. */
  method FillGap(segment: array<Byte>, pHost: nat, hostpad0: nat, unixeol: bool, rand: nat -> nat)
    returns (ghost hs: seq<Header>)
    requires pHost + hostpad0 <= segment.Length && HeaderSize(unixeol) <= hostpad0
    modifies segment
    ensures hs != [] && forall i | 0 <= i < |hs| :: WellFormed(hs[i])
    ensures forall i | 0 <= i < |hs| :: hs[i].padsize < MAX_HDR_SIZE + HeaderSize(unixeol)
    ensures forall i | 0 <= i < |hs| - 1 :: hs[i].padsize == MAX_HDR_SIZE
    ensures segment[pHost..pHost + hostpad0] == Text(hs, unixeol)
    ensures segment[..pHost] == old(segment[..pHost]) && segment[pHost + hostpad0..] == old(segment[pHost + hostpad0..])
  {
    var hsize, hostpad, p, n := HeaderSize(unixeol), hostpad0, pHost, 0;
    hs := [];
    while hostpad != 0
      invariant p + hostpad == pHost + hostpad0 && pHost <= p && (hostpad == 0 || hostpad >= hsize)
      invariant hs == [] ==> hostpad == hostpad0
      invariant forall i | 0 <= i < |hs| :: WellFormed(hs[i]) && hs[i].padsize < MAX_HDR_SIZE + hsize
      invariant forall i | 0 <= i < |hs| - (if hostpad == 0 then 1 else 0) :: hs[i].padsize == MAX_HDR_SIZE
      invariant segment[pHost..p] == Text(hs, unixeol)
      invariant forall i | 0 <= i < segment.Length && !(pHost <= i < p) :: segment[i] == old(segment[i])
    {
      var padsize := PadSize(hostpad, hsize);
      var h := NewHeader(rand(n), rand(n + 1), rand(n + 2), padsize);
      p := AppendHeader(segment, pHost, p, h, unixeol, hs);
      hs, n, hostpad := hs + [h], n + 3, hostpad - (hsize + padsize);
    }
  }

  /** How many bytes are inserted. */
  function Hostpad(configured: nat, hsize: nat, size: nat, capacity: nat): (hostpad: nat)
    requires hsize + size <= capacity
    ensures hsize <= hostpad && size + hostpad <= capacity
    ensures hostpad == configured || hostpad == hsize > configured || hostpad == capacity - size < configured
  {
    var hostpad := if configured < hsize then hsize else configured;
    if hostpad + size > capacity then capacity - size else hostpad
  }

  function Inserted(s: seq<Byte>, p: nat, t: seq<Byte>): (r: seq<Byte>)
    requires p <= |s|
    ensures |r| == |s| + |t|
  {
    s[..p] + t + s[p..]
  }

  lemma InsertedPieces(r: seq<Byte>, s: seq<Byte>, p: nat, q: nat, t: seq<Byte>)
    requires p <= |s| && q == p + |t| && |r| == |s| + |t| && r[..p] == s[..p] && r[p..q] == t && r[q..] == s[p..]
    ensures r == Inserted(s, p, t)
  {
    assert r == r[..p] + r[p..q] + r[q..];
  }

  /** The bytes from pHost on move up by n. */
  method MakeGap(segment: array<Byte>, size: nat, pHost: nat, n: nat, q: nat, ghost data: seq<Byte>)
    requires pHost <= size && size + n <= segment.Length && data == segment[..size] && q == pHost + n
    modifies segment
    ensures segment[..pHost] == data[..pHost] && segment[q..size + n] == data[pHost..]
  {
    MemMove(segment, q, pHost, size - pHost);
    forall i | q <= i < size + n ensures segment[i] == data[i - n] {
      assert segment[i] == segment[q..q + (size - pHost)][i - q];
    }
  }

  lemma SidesKept(s: seq<Byte>, r: seq<Byte>, p: nat, q: nat, size: nat)
    requires p <= q <= size <= |s| == |r| && r[..p] == s[..p] && r[q..] == s[q..]
    ensures r[..size][..p] == s[..p] && r[..size][q..] == s[q..size] && r[..size][p..q] == r[p..q]
  {
    forall i | q <= i < size ensures r[i] == s[i] { assert r[q..][i - q] == s[q..][i - q]; }
  }

  /** Inserts the padding headers in front of the Host header. */
  method PadHost(segment: array<Byte>, size0: nat, pHost: nat, configured: nat, unixeol: bool, rand: nat -> nat)
    returns (size: nat, ghost hs: seq<Header>)
    requires pHost <= size0 <= segment.Length
    modifies segment
    ensures forall i | 0 <= i < |hs| :: WellFormed(hs[i]) && hs[i].padsize < MAX_HDR_SIZE + HeaderSize(unixeol)
    ensures forall i | 0 <= i < |hs| - 1 :: hs[i].padsize == MAX_HDR_SIZE
    ensures size <= segment.Length && segment[..size] == Inserted(old(segment[..size0]), pHost, Text(hs, unixeol))
    ensures if HeaderSize(unixeol) + size0 > segment.Length then hs == []
            else |Text(hs, unixeol)| == Hostpad(configured, HeaderSize(unixeol), size0, segment.Length)
  {
    size, hs := size0, [];
    ghost var data := segment[..size0];
    if HeaderSize(unixeol) + size0 <= segment.Length {
      var hostpad := Hostpad(configured, HeaderSize(unixeol), size0, segment.Length);
      ghost var q := pHost + hostpad;
      MakeGap(segment, size0, pHost, hostpad, pHost + hostpad, data);
      size := size0 + hostpad;
      ghost var gap := segment[..];
      hs := FillGap(segment, pHost, hostpad, unixeol, rand);
      ghost var r := segment[..];
      SidesKept(gap, r, pHost, q, size);
      assert r[..size] == segment[..size] && r[pHost..q] == segment[pHost..q];
      InsertedPieces(segment[..size], data, pHost, q, Text(hs, unixeol));
    } else {
      InsertedPieces(data, data, pHost, pHost, []);
    }
  }

  /** In padding headers a line feed ends the text, or a header name that is not Host follows. */
  lemma {:induction false} AfterLineFeed(hs: seq<Header>, unixeol: bool, i: nat)
    requires (forall k | 0 <= k < |hs| :: WellFormed(hs[k])) && i < |Text(hs, unixeol)|
    requires Text(hs, unixeol)[i] == LF
    ensures i == |Text(hs, unixeol)| - 1 || (i + 5 < |Text(hs, unixeol)| && IsHexDigit(Text(hs, unixeol)[i + 5]))
  {
    var n := |hs| - 1;
    var init, h := Text(hs[..n], unixeol), hs[n];
    var line := Line(h, unixeol);
    assert WellFormed(h);
    if i < |init| {
      AfterLineFeed(hs[..n], unixeol, i);
      assert line[4] == h.hex[3];
    } else {
      LineFeedLast(h, unixeol, i - |init|);
    }
  }

  lemma LineFeedLast(h: Header, unixeol: bool, i: nat)
    requires WellFormed(h) && i < |Line(h, unixeol)| && Line(h, unixeol)[i] == LF
    ensures i == |Line(h, unixeol)| - 1
  {
  }

  lemma {:induction false} TextStarts(hs: seq<Header>, unixeol: bool)
    requires hs != [] && forall k | 0 <= k < |hs| :: WellFormed(hs[k])
    ensures |Text(hs, unixeol)| >= 5 && IsHexDigit(Text(hs, unixeol)[4])
  {
    var n := |hs| - 1;
    assert WellFormed(hs[n]) && Line(hs[n], unixeol)[4] == hs[n].hex[3];
    if n > 0 { TextStarts(hs[..n], unixeol); }
  }

  lemma {:induction false} TextEnds(hs: seq<Header>, unixeol: bool)
    requires hs != [] && forall k | 0 <= k < |hs| :: WellFormed(hs[k])
    ensures Text(hs, unixeol) != [] && Text(hs, unixeol)[|Text(hs, unixeol)| - 1] == LF
  {
  }

  /** The padding neither hides the Host header nor looks like one: the search finds the same header, moved by the
      padding. */
  lemma {:induction false} HostStillFirst(s: seq<Byte>, p: nat, hs: seq<Header>, unixeol: bool)
    requires FirstHost(s, p) && forall k | 0 <= k < |hs| :: WellFormed(hs[k])
    ensures FirstHost(Inserted(s, p + 1, Text(hs, unixeol)), p + |Text(hs, unixeol)|)
  {
    var t := Text(hs, unixeol);
    var r := Inserted(s, p + 1, t);
    if hs == [] {
      assert r == s;
    } else {
      TextStarts(hs, unixeol);
      TextEnds(hs, unixeol);
      assert forall i | p + 1 <= i < |s| :: r[i + |t|] == s[i];
      forall q: nat | q < p + |t| ensures !IsHostAt(r, q) {
        if q > p {
          if r[q] == LF { AfterLineFeed(hs, unixeol, q - (p + 1)); }
        } else if q == p {
          assert r[p + 5] == t[4];
        } else {
          assert forall i | 0 <= i <= p :: r[i] == s[i];
          assert !IsHostAt(s, q) && r[p] == LF;
        }
      }
    }
  }

  // ----- the division of a TLS record -----

  /** phton16 */
  function Be16(v: nat): (r: seq<Byte>)
    requires v < 0x1_0000
    ensures |r| == 2 && U16At(r, 0) == v
  {
    [v / 256, v % 256]
  }

  /** The part of the record before t and the part from t on, each behind a header of its own. */
  function Divided(data: seq<Byte>, t: nat): (r: seq<Byte>)
    requires |data| >= 5 && 5 < t < TlsRecordLen(data) <= |data|
    ensures |r| == |data| + 5
  {
    data[..3] + Be16(t - 5) + data[5..t] + data[..3] + Be16(TlsRecordLen(data) - t) + data[t..]
  }

  /** Where the record is divided, if it is: the position found, or one byte into the record. */
  function DividedAt(data: seq<Byte>, capacity: nat, tpos: nat): (t: Option<nat>)
    requires |data| >= 5
    ensures t.Some? ==> 5 < t.value < TlsRecordLen(data) && |data| + 5 <= capacity
    ensures t.Some? <==> 5 + |data| <= capacity && tpos > 5 && U16At(data, 3) >= 2
    ensures t.Some? ==> t.value == if tpos < TlsRecordLen(data) then tpos else 6
  {
    if 5 + |data| <= capacity && tpos > 5 && U16At(data, 3) >= 2 then
      Some(if tpos - 5 >= U16At(data, 3) then 6 else tpos)
    else None
  }

  /** The record is divided in the buffer. */
  method DivideAt(segment: array<Byte>, size: nat, t: nat)
    requires 5 <= size && size + 5 <= segment.Length
    requires 5 < t < TlsRecordLen(segment[..size]) <= size
    modifies segment
    ensures segment[..size + 5] == Divided(old(segment[..size]), t)
  {
    ghost var data := segment[..size];
    var l := U16At(segment[..size], 3);
    MemMove(segment, t + 5, t, size - t);
    segment[t], segment[t + 1], segment[t + 2] := segment[0], segment[1], segment[2];
    Store(segment, t + 3, Be16(l - (t - 5)));
    Store(segment, 3, Be16(t - 5));
    assert segment[..3] == data[..3] && segment[3..5] == Be16(t - 5) && segment[5..t] == data[5..t];
    assert segment[t..t + 3] == data[..3] && segment[t + 5..size + 5] == data[t..];
    Assembled(segment[..size + 5], data, t);
  }

  lemma Assembled(r: seq<Byte>, data: seq<Byte>, t: nat)
    requires |data| >= 5 && 5 < t < TlsRecordLen(data) <= |data| && |r| == |data| + 5
    requires r[..3] == data[..3] && r[3..5] == Be16(t - 5) && r[5..t] == data[5..t]
    requires r[t..t + 3] == data[..3] && r[t + 3..t + 5] == Be16(TlsRecordLen(data) - t) && r[t + 5..] == data[t..]
    ensures r == Divided(data, t)
  {
    assert r == r[..3] + r[3..5] + r[5..t] + r[t..t + 3] + r[t + 3..t + 5] + r[t + 5..];
  }

  /** The correction of a split position. */
  function Moved(x: nat, t: nat): nat {
    if x > t then x + 5 else x
  }

  /** The loop that corrects the split positions. */
  method MovePositions(pos: array<nat>, count: nat, t: nat)
    requires count <= pos.Length
    modifies pos
    ensures forall i | 0 <= i < count :: pos[i] == Moved(old(pos[i]), t)
    ensures pos[count..] == old(pos[count..])
  {
    var i := 0;
    while i < count
      invariant 0 <= i <= count
      invariant forall k | 0 <= k < i :: pos[k] == Moved(old(pos[k]), t)
      invariant forall k | i <= k < pos.Length :: pos[k] == old(pos[k])
    {
      if pos[i] > t {
        pos[i] := pos[i] + 5;
      }
      i := i + 1;
    }
  }

  /** The TLS case of tamper_out, given the position tpos found for the division and the split positions. */
  method DivideRecord(segment: array<Byte>, size0: nat, tpos: nat, pos: array<nat>, count: nat) returns (size: nat)
    requires size0 <= segment.Length && IsTlsClientHello(segment[..size0], false)
    requires count <= pos.Length
    modifies segment, pos
    ensures var data, t := old(segment[..size0]), DividedAt(old(segment[..size0]), segment.Length, tpos);
      match t
      case None => size == size0 && segment[..] == old(segment[..]) && pos[..] == old(pos[..])
      case Some(t) => size == size0 + 5 && segment[..size] == Divided(data, t) &&
                      forall i | 0 <= i < count :: pos[i] == Moved(old(pos[i]), t)
  {
    size := size0;
    var t := DividedAt(segment[..size0], segment.Length, tpos);
    if t.Some? {
      DivideAt(segment, size0, t.value);
      size := size0 + 5;
      MovePositions(pos, count, t.value);
    }
  }

  /** A byte of a record's fragment, with the content type and version of the record. */
  datatype Content = Content(header: seq<Byte>, byte: Byte)

  ghost function Tagged(header: seq<Byte>, s: seq<Byte>): (r: seq<Content>)
    ensures |r| == |s| && forall i | 0 <= i < |s| :: r[i] == Content(header, s[i])
  {
    seq(|s|, i requires 0 <= i < |s| => Content(header, s[i]))
  }

  /** What the receiver of a TLS stream gets from its complete records. */
  ghost function Received(data: seq<Byte>): seq<Content>
    decreases |data|
  {
    if |data| < 5 || TlsRecordLen(data) > |data| then [] else
    Tagged(data[..3], data[5..TlsRecordLen(data)]) + Received(data[TlsRecordLen(data)..])
  }

  /** The first record of the divided data. */
  lemma FirstPart(data: seq<Byte>, t: nat)
    requires |data| >= 5 && 5 < t < TlsRecordLen(data) <= |data|
    ensures var r := Divided(data, t);
      && TlsRecordLen(r) == t && r[..3] == data[..3] && r[5..t] == data[5..t]
      && r[t..] == data[..3] + Be16(TlsRecordLen(data) - t) + data[t..]
  {
    var r, l := Divided(data, t), Be16(t - 5);
    assert r[3] == l[0] && r[4] == l[1];
    assert r == (data[..3] + l + data[5..t]) + (data[..3] + Be16(TlsRecordLen(data) - t) + data[t..]);
  }

  /** The second record. */
  lemma SecondPart(data: seq<Byte>, t: nat, s: seq<Byte>)
    requires |data| >= 5 && 5 < t < TlsRecordLen(data) <= |data|
    requires s == data[..3] + Be16(TlsRecordLen(data) - t) + data[t..]
    ensures TlsRecordLen(s) == 5 + TlsRecordLen(data) - t && s[..3] == data[..3]
    ensures s[5..TlsRecordLen(s)] == data[t..TlsRecordLen(data)] && s[TlsRecordLen(s)..] == data[TlsRecordLen(data)..]
  {
    var l := Be16(TlsRecordLen(data) - t);
    assert s[3] == l[0] && s[4] == l[1];
  }

  /** The two records are complete and not empty, and the receiver gets the same bytes from them and from what follows
      as from the one record. */
  lemma {:induction false} DivisionKept(data: seq<Byte>, t: nat)
    requires |data| >= 5 && 5 < t < TlsRecordLen(data) <= |data|
    ensures Received(Divided(data, t)) == Received(data)
    ensures var r := Divided(data, t);
      5 < TlsRecordLen(r) == t && 5 < TlsRecordLen(r[t..]) <= |r[t..]|
  {
    var r, n := Divided(data, t), TlsRecordLen(data);
    var s, h := r[t..], data[..3];
    FirstPart(data, t);
    SecondPart(data, t, s);
    assert data[5..n] == data[5..t] + data[t..n];
    TaggedJoin(h, data[5..t], data[t..n], Received(data[n..]));
  }

  lemma TaggedJoin(header: seq<Byte>, a: seq<Byte>, b: seq<Byte>, rest: seq<Content>)
    ensures Tagged(header, a) + (Tagged(header, b) + rest) == Tagged(header, a + b) + rest
  {
    assert Tagged(header, a + b) == Tagged(header, a) + Tagged(header, b);
  }

  /** The corrected positions still ascend, inside the data, and each points at the byte it pointed at, unless it is
      where the record was divided, or in the record's length: then it points at the header of the second record, or at
      the new length. */
  lemma PositionsKept(data: seq<Byte>, t: nat, s: seq<nat>, r: seq<nat>)
    requires |data| >= 5 && 5 < t < TlsRecordLen(data) <= |data|
    requires Ascending(s) && forall i | 0 <= i < |s| :: 0 < s[i] < |data|
    requires |r| == |s| && forall i | 0 <= i < |s| :: r[i] == Moved(s[i], t)
    ensures Ascending(r) && forall i | 0 <= i < |s| :: r[i] < |data| + 5
    ensures forall i | 0 <= i < |s| && s[i] != 3 && s[i] != 4 ::
              Divided(data, t)[r[i]] == if s[i] == t then data[0] else data[s[i]]
    ensures U16At(Divided(data, t), 3) == t - 5 && U16At(Divided(data, t), t + 3) == TlsRecordLen(data) - t
  {
    var l, l' := Be16(t - 5), Be16(TlsRecordLen(data) - t);
    assert Divided(data, t)[3] == l[0] && Divided(data, t)[4] == l[1];
    assert Divided(data, t)[t + 3] == l'[0] && Divided(data, t)[t + 4] == l'[1];
  }
}
