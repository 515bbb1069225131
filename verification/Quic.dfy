/** CRYPTO frames of a QUIC Initial packet (upstream/nfq/protocol.c): defragmentation into one synthetic frame, and the
    reader of that frame. Variable-length integers are those of section 16 of RFC 9000, frames those of section 19. */
module Quic {
  import opened Wire
  import opened Tls
  import BitArith
  import QSort
  import Ip2net

  // ----- variable-length integers -----

  /** tvb_get_size */
  function VarintSize(b: Byte): (n: nat)
    ensures n == 1 || n == 2 || n == 4 || n == 8
  {
    match (b as int) / 64
    case 0 => 1
    case 1 => 2
    case 2 => 4
    case _ => 8
  }

  /** n bytes in network order */
  function NumberAt(s: seq<Byte>, i: nat, n: nat): nat
    requires i + n <= |s|
  {
    if n == 0 then 0 else 256 * NumberAt(s, i, n - 1) + s[i + n - 1] as nat
  }

  const VALUE_MASK := 0x4000_0000_0000_0000

  /** tvb_get_varint: the two upper bits are the size. */
  function VarintAt(s: seq<Byte>, i: nat): (v: nat)
    requires i < |s| && i + VarintSize(s[i]) <= |s|
  {
    match VarintSize(s[i])
    case 1 => s[i] as nat % 0x40
    case 2 => NumberAt(s, i, 2) % 0x4000
    case 4 => NumberAt(s, i, 4) % 0x4000_0000
    case _ => NumberAt(s, i, 8) % VALUE_MASK
  }

  function Pow256(n: nat): nat {
    if n == 0 then 1 else 256 * Pow256(n - 1)
  }

  lemma SmallPowers()
    ensures Pow256(0) == 1 && Pow256(1) == 256 && Pow256(3) == 0x100_0000 && Pow256(7) == 0x100_0000_0000_0000
  {
    assert Pow256(3) == 256 * Pow256(2) == 65536 * Pow256(1);
    assert Pow256(5) == 256 * Pow256(4) == 65536 * Pow256(3);
    assert Pow256(7) == 256 * Pow256(6) == 65536 * Pow256(5);
  }

  ghost predicate IsVarintSize(n: nat) {
    n == 1 || n == 2 || n == 4 || n == 8
  }

  /** The smallest number that n bytes are too few for. */
  ghost function VarintLimit(n: nat): nat
    requires IsVarintSize(n)
  {
    64 * Pow256(n - 1)
  }

  /** Section 16 of RFC 9000: the logarithm of the size in the two upper bits, then the number. */
  ghost function EncodeVarint(v: nat, n: nat): (b: seq<Byte>)
    requires IsVarintSize(n) && v < VarintLimit(n)
    ensures |b| == n
  {
    NetworkBytes((match n case 1 => 0 case 2 => 1 case 4 => 2 case _ => 3) * VarintLimit(n) + v, n)
  }

  lemma {:induction false} NumberOfBytes(s: seq<Byte>, i: nat, v: nat, n: nat)
    requires i + n <= |s| && s[i..i + n] == NetworkBytes(v, n) && v < Pow256(n)
    ensures NumberAt(s, i, n) == v
  {
    if n > 0 {
      var t := s[i..i + n];
      assert t[..n - 1] == s[i..i + (n - 1)] && t[n - 1] == s[i + n - 1];
      NumberOfBytes(s, i, v / 256, n - 1);
    }
  }

  lemma {:induction false} BytesOfNumber(s: seq<Byte>, i: nat, n: nat)
    requires i + n <= |s|
    ensures NetworkBytes(NumberAt(s, i, n), n) == s[i..i + n] && NumberAt(s, i, n) < Pow256(n)
  {
    if n > 0 {
      BytesOfNumber(s, i, n - 1);
      assert s[i..i + n] == s[i..i + (n - 1)] + [s[i + n - 1]];
    }
  }

  /** The first byte is the most significant one. */
  lemma {:induction false} FirstByte(s: seq<Byte>, i: nat, n: nat) returns (r: nat)
    requires 0 < n && i + n <= |s|
    ensures NumberAt(s, i, n) == s[i] as nat * Pow256(n - 1) + r && r < Pow256(n - 1)
  {
    if n == 1 {
      r := 0;
      assert NumberAt(s, i, 0) == 0;
    } else {
      var q := FirstByte(s, i, n - 1);
      r := 256 * q + s[i + n - 1] as nat;
    }
  }

  /** Reading what was encoded, in any of the sizes. */
  lemma VarintRead(s: seq<Byte>, i: nat, v: nat, n: nat)
    requires IsVarintSize(n) && v < VarintLimit(n) && i + n <= |s| && s[i..i + n] == EncodeVarint(v, n)
    ensures VarintSize(s[i]) == n && VarintAt(s, i) == v
  {
    SmallPowers();
    var k := match n case 1 => 0 case 2 => 1 case 4 => 2 case _ => 3;
    assert Pow256(n) == 256 * Pow256(n - 1);
    NumberOfBytes(s, i, k * VarintLimit(n) + v, n);
    var r := FirstByte(s, i, n);
  }

  lemma UpperBits(b: nat, p: nat, r: nat, x: nat)
    requires b < 256 && r < p && x == b * p + r
    ensures x % (64 * p) == x - (b / 64) * (64 * p) < 64 * p
  {
    var k, low := b / 64, b % 64;
    assert b * p == (64 * k + low) * p == (64 * p) * k + low * p;
    assert low * p + r < 64 * p by { BitArith.MulMonotone(low + 1, 64, p); }
    BitArith.ResidueOf(x, 64 * p, k, low * p + r);
  }

  /** The value is what remains without the two upper bits. */
  lemma {:induction false} ValueIs(s: seq<Byte>, i: nat, n: nat)
    requires i < |s| && n == VarintSize(s[i]) && i + n <= |s|
    ensures VarintAt(s, i) == NumberAt(s, i, n) % VarintLimit(n)
  {
    SmallPowers();
  }

  lemma EncodedIs(v: nat, n: nat, k: nat)
    requires IsVarintSize(n) && v < VarintLimit(n)
    requires k == match n case 1 => 0 case 2 => 1 case 4 => 2 case _ => 3
    ensures EncodeVarint(v, n) == NetworkBytes(k * VarintLimit(n) + v, n)
  {
  }

  /** What is read is an encoding of the value. */
  lemma VarintIsEncoded(s: seq<Byte>, i: nat, n: nat)
    requires i < |s| && n == VarintSize(s[i]) && i + n <= |s|
    ensures VarintAt(s, i) < VarintLimit(n) && EncodeVarint(VarintAt(s, i), n) == s[i..i + n]
  {
    var x := NumberAt(s, i, n);
    var r := FirstByte(s, i, n);
    UpperBits(s[i] as nat, Pow256(n - 1), r, x);
    ValueIs(s, i, n);
    EncodedIs(VarintAt(s, i), n, s[i] as nat / 64);
    BytesOfNumber(s, i, n);
  }

  // ----- frames -----

  datatype Frame = Frame(offset: nat, data: seq<Byte>)

  ghost predicate Covers(f: Frame, b: int) {
    f.offset <= b < f.offset + |f.data|
  }

  /** One frame read: padding or ping, a CRYPTO frame, or something that ends the search. */
  datatype Step = Skip(next: nat) | Crypto(frame: Frame, next: nat) | Bad

  function ReadFrame(clean: seq<Byte>, pos: nat): (s: Step)
    requires pos < |clean|
    ensures s.Skip? ==> pos < s.next <= |clean|
    ensures s.Crypto? ==> pos < s.next <= |clean|
  {
    if clean[pos] <= 1 then Skip(pos + 1)
    else if clean[pos] != 6 then Bad
    else
      var p1 := pos + 1;
      if p1 >= |clean| || p1 + VarintSize(clean[p1]) >= |clean| then Bad else
      var offset, p2 := VarintAt(clean, p1), p1 + VarintSize(clean[p1]);
      if p2 + VarintSize(clean[p2]) > |clean| then Bad else
      var sz, p3 := VarintAt(clean, p2), p2 + VarintSize(clean[p2]);
      if p3 + sz > |clean| then Bad else Crypto(Frame(offset, clean[p3..p3 + sz]), p3 + sz)
  }

  /** All CRYPTO frames from pos on, after those in acc. */
  ghost function ParseFrom(clean: seq<Byte>, pos: nat, acc: seq<Frame>): Option<seq<Frame>>
    requires pos <= |clean|
    decreases |clean| - pos
  {
    if pos == |clean| then Some(acc) else
    match ReadFrame(clean, pos)
    case Skip(next) => ParseFrom(clean, next, acc)
    case Crypto(frame, next) => ParseFrom(clean, next, acc + [frame])
    case Bad => None
  }

  // ----- payloads -----

  /** What a payload consists of: a CRYPTO frame comes with the sizes of its two numbers. */
  datatype Item = Padding | Ping | CryptoFrame(frame: Frame, offsetSize: nat, lengthSize: nat)

  ghost predicate ValidItem(item: Item) {
    match item
    case CryptoFrame(frame, n, m) =>
      IsVarintSize(n) && IsVarintSize(m) && frame.offset < VarintLimit(n) && |frame.data| < VarintLimit(m)
    case _ => true
  }

  /** Sections 19.1, 19.2 and 19.6 of RFC 9000. */
  ghost function Encoding(item: Item): (b: seq<Byte>)
    requires ValidItem(item)
    ensures b != []
  {
    match item
    case Padding => [0]
    case Ping => [1]
    case CryptoFrame(frame, n, m) =>
      [6] + EncodeVarint(frame.offset, n) + EncodeVarint(|frame.data|, m) + frame.data
  }

  ghost function Payload(items: seq<Item>): seq<Byte>
    requires forall i | 0 <= i < |items| :: ValidItem(items[i])
  {
    if items == [] then [] else
    assert ValidItem(items[0]);
    Encoding(items[0]) + Payload(items[1..])
  }

  ghost function FramesIn(items: seq<Item>): seq<Frame> {
    if items == [] then [] else (if items[0].CryptoFrame? then [items[0].frame] else []) + FramesIn(items[1..])
  }

  /** The payload consists of these CRYPTO frames, and of padding and pings. */
  ghost predicate IsPayload(clean: seq<Byte>, frames: seq<Frame>) {
    exists items: seq<Item> ::
      && (forall i | 0 <= i < |items| :: ValidItem(items[i]))
      && clean == Payload(items) && frames == FramesIn(items)
  }

  lemma CryptoAt(clean: seq<Byte>, pos: nat, frame: Frame, n: nat, m: nat)
    requires ValidItem(CryptoFrame(frame, n, m)) && pos + 1 + n + m + |frame.data| <= |clean| && clean[pos] == 6
    requires clean[pos + 1..pos + 1 + n] == EncodeVarint(frame.offset, n)
    requires clean[pos + 1 + n..pos + 1 + n + m] == EncodeVarint(|frame.data|, m)
    requires clean[pos + 1 + n + m..pos + 1 + n + m + |frame.data|] == frame.data
    ensures ReadFrame(clean, pos) == Crypto(frame, pos + 1 + n + m + |frame.data|)
  {
    VarintRead(clean, pos + 1, frame.offset, n);
    VarintRead(clean, pos + 1 + n, |frame.data|, m);
  }

  lemma Pieces2(s: seq<Byte>, p: nat, q: nat, r: nat, a: seq<Byte>, b: seq<Byte>)
    requires p <= q <= r <= |s| && |a| == q - p && |b| == r - q
    ensures s[p..r] == a + b <==> s[p..q] == a && s[q..r] == b
  {
    if s[p..r] == a + b {
      assert s[p..q] == s[p..r][..q - p] && s[q..r] == s[p..r][q - p..];
      assert (a + b)[..q - p] == a && (a + b)[q - p..] == b;
    } else {
      assert s[p..r] == s[p..q] + s[q..r];
    }
  }

  lemma Pieces4(s: seq<Byte>, pos: nat, a: seq<Byte>, b: seq<Byte>, c: seq<Byte>, d: seq<Byte>)
    requires pos + |a| + |b| + |c| + |d| <= |s|
    ensures s[pos..pos + |a| + |b| + |c| + |d|] == a + b + c + d
       <==> s[pos..pos + |a|] == a && s[pos + |a|..pos + |a| + |b|] == b
            && s[pos + |a| + |b|..pos + |a| + |b| + |c|] == c
            && s[pos + |a| + |b| + |c|..pos + |a| + |b| + |c| + |d|] == d
  {
    var p, q, r, t := pos + |a|, pos + |a| + |b|, pos + |a| + |b| + |c|, pos + |a| + |b| + |c| + |d|;
    Pieces2(s, pos, p, q, a, b);
    Pieces2(s, pos, q, r, a + b, c);
    Pieces2(s, pos, r, t, a + b + c, d);
  }

  /** An item that was encoded is read. */
  lemma ReadEncoded(clean: seq<Byte>, pos: nat, item: Item, next: nat)
    requires ValidItem(item) && next == pos + |Encoding(item)| <= |clean| && clean[pos..next] == Encoding(item)
    ensures ReadFrame(clean, pos) == if item.CryptoFrame? then Crypto(item.frame, next) else Skip(next)
  {
    assert clean[pos] == clean[pos..next][0];
    if item.CryptoFrame? {
      var x, y := EncodeVarint(item.frame.offset, item.offsetSize), EncodeVarint(|item.frame.data|, item.lengthSize);
      Pieces4(clean, pos, [6], x, y, item.frame.data);
      CryptoAt(clean, pos, item.frame, item.offsetSize, item.lengthSize);
    }
  }

  lemma CryptoRead(clean: seq<Byte>, pos: nat, f: Frame, n: nat, m: nat, p1: nat, p2: nat, p3: nat, next: nat)
    requires pos < |clean| && ReadFrame(clean, pos) == Crypto(f, next)
    requires p1 == pos + 1 < |clean| && n == VarintSize(clean[p1]) && p2 == p1 + n < |clean|
    requires m == VarintSize(clean[p2]) && p3 == p2 + m
    ensures clean[pos] == 6 && p3 <= next == p3 + |f.data| <= |clean| && clean[p3..next] == f.data
    ensures VarintAt(clean, p1) == f.offset && VarintAt(clean, p2) == |f.data|
  {
  }

  lemma CryptoIsEncoded(clean: seq<Byte>, pos: nat, f: Frame, n: nat, m: nat, next: nat)
    requires pos < |clean| && ReadFrame(clean, pos) == Crypto(f, next)
    requires pos + 1 < |clean| && n == VarintSize(clean[pos + 1]) && pos + 1 + n < |clean|
    requires m == VarintSize(clean[pos + 1 + n])
    ensures ValidItem(CryptoFrame(f, n, m)) && next == pos + |Encoding(CryptoFrame(f, n, m))| <= |clean|
    ensures clean[pos..next] == Encoding(CryptoFrame(f, n, m))
  {
    var p1, p2, p3 := pos + 1, pos + 1 + n, pos + 1 + n + m;
    CryptoRead(clean, pos, f, n, m, p1, p2, p3, next);
    VarintIsEncoded(clean, p1, n);
    VarintIsEncoded(clean, p2, m);
    var x, y := EncodeVarint(f.offset, n), EncodeVarint(|f.data|, m);
    assert clean[pos..p1] == [6];
    Pieces2(clean, pos, p1, p2, [6], x);
    Pieces2(clean, pos, p2, p3, [6] + x, y);
    Pieces2(clean, pos, p3, next, [6] + x + y, f.data);
  }

  /** What is read is an encoding. */
  lemma ReadIsEncoded(clean: seq<Byte>, pos: nat, next: nat) returns (item: Item)
    requires pos < |clean| && !ReadFrame(clean, pos).Bad? && next == ReadFrame(clean, pos).next
    ensures ValidItem(item) && next == pos + |Encoding(item)| && clean[pos..next] == Encoding(item)
    ensures ReadFrame(clean, pos) == if item.CryptoFrame? then Crypto(item.frame, next) else Skip(next)
  {
    if clean[pos] <= 1 {
      item := if clean[pos] == 0 then Padding else Ping;
      assert clean[pos..pos + 1] == [clean[pos]];
    } else {
      var f, n := ReadFrame(clean, pos).frame, VarintSize(clean[pos + 1]);
      var m := VarintSize(clean[pos + 1 + n]);
      CryptoIsEncoded(clean, pos, f, n, m, next);
      item := CryptoFrame(f, n, m);
    }
  }

  lemma {:induction false} PayloadCons(item: Item, rest: seq<Item>, acc: seq<Frame>)
    requires ValidItem(item) && forall i | 0 <= i < |rest| :: ValidItem(rest[i])
    ensures var items := [item] + rest;
      && (forall i | 0 <= i < |items| :: ValidItem(items[i])) && Payload(items) == Encoding(item) + Payload(rest)
      && acc + FramesIn(items) == (if item.CryptoFrame? then acc + [item.frame] else acc) + FramesIn(rest)
  {
    var items := [item] + rest;
    assert items[0] == item && items[1..] == rest;
    if item.CryptoFrame? {
      assert acc + ([item.frame] + FramesIn(rest)) == acc + [item.frame] + FramesIn(rest);
    } else {
      assert [] + FramesIn(rest) == FramesIn(rest);
    }
  }

  lemma TailCut(s: seq<Byte>, a: nat, b: nat, x: seq<Byte>, y: seq<Byte>)
    requires a <= |s| && s[a..] == x + y && b == a + |x|
    ensures b <= |s| && s[a..b] == x && s[b..] == y
  {
    assert s[a..b] == s[a..][..|x|] && s[b..] == s[a..][|x|..];
  }

  lemma {:induction false} ParseEncoded(clean: seq<Byte>, pos: nat, acc: seq<Frame>, items: seq<Item>)
    requires (forall i | 0 <= i < |items| :: ValidItem(items[i])) && pos <= |clean| && clean[pos..] == Payload(items)
    ensures ParseFrom(clean, pos, acc) == Some(acc + FramesIn(items))
    decreases |items|
  {
    if items == [] {
      assert acc + [] == acc;
    } else {
      var item, rest := items[0], items[1..];
      var next := pos + |Encoding(item)|;
      assert items == [item] + rest;
      PayloadCons(item, rest, acc);
      TailCut(clean, pos, next, Encoding(item), Payload(rest));
      ReadEncoded(clean, pos, item, next);
      ParseEncoded(clean, next, if item.CryptoFrame? then acc + [item.frame] else acc, rest);
    }
  }

  lemma {:induction false} ParsedIsEncoded(clean: seq<Byte>, pos: nat, acc: seq<Frame>) returns (items: seq<Item>)
    requires pos <= |clean| && ParseFrom(clean, pos, acc).Some?
    ensures (forall i | 0 <= i < |items| :: ValidItem(items[i])) && clean[pos..] == Payload(items)
    ensures ParseFrom(clean, pos, acc).value == acc + FramesIn(items)
    decreases |clean| - pos
  {
    if pos == |clean| {
      items := [];
      assert acc + [] == acc;
    } else {
      var next := ReadFrame(clean, pos).next;
      var item := ReadIsEncoded(clean, pos, next);
      var acc' := if item.CryptoFrame? then acc + [item.frame] else acc;
      var rest := ParsedIsEncoded(clean, next, acc');
      items := [item] + rest;
      PayloadCons(item, rest, acc);
      SliceCut(clean, pos, next);
    }
  }

  lemma SliceCut(s: seq<Byte>, a: nat, b: nat)
    requires a <= b <= |s|
    ensures s[a..] == s[a..b] + s[b..]
  {
  }

  lemma {:induction false} ParsePayload(clean: seq<Byte>, items: seq<Item>)
    requires (forall i | 0 <= i < |items| :: ValidItem(items[i])) && clean == Payload(items)
    ensures ParseFrom(clean, 0, []) == Some(FramesIn(items))
  {
    assert clean[0..] == clean && [] + FramesIn(items) == FramesIn(items);
    ParseEncoded(clean, 0, [], items);
  }

  lemma {:induction false} PayloadOf(clean: seq<Byte>, frames: seq<Frame>)
    requires ParseFrom(clean, 0, []) == Some(frames)
    ensures IsPayload(clean, frames)
  {
    var items := ParsedIsEncoded(clean, 0, []);
    assert clean[0..] == clean && [] + FramesIn(items) == FramesIn(items);
  }

  /** The parser accepts exactly the payloads, and yields their frames. */
  lemma {:induction false} ParseMeaning(clean: seq<Byte>, frames: seq<Frame>)
    ensures IsPayload(clean, frames) <==> ParseFrom(clean, 0, []) == Some(frames)
  {
    if IsPayload(clean, frames) {
      var items :| (forall i | 0 <= i < |items| :: ValidItem(items[i])) && clean == Payload(items) &&
                   frames == FramesIn(items);
      ParsePayload(clean, items);
    }
    if ParseFrom(clean, 0, []) == Some(frames) { PayloadOf(clean, frames); }
  }

  lemma {:induction false} ParseExtends(clean: seq<Byte>, pos: nat, acc: seq<Frame>)
    requires pos <= |clean| && ParseFrom(clean, pos, acc).Some?
    ensures acc <= ParseFrom(clean, pos, acc).value
    decreases |clean| - pos
  {
    if pos < |clean| {
      match ReadFrame(clean, pos)
      case Skip(next) => ParseExtends(clean, next, acc);
      case Crypto(frame, next) => ParseExtends(clean, next, acc + [frame]);
      case Bad =>
    }
  }

  ghost predicate SameRange(f: Frame, g: Frame) {
    f.offset == g.offset && |f.data| == |g.data|
  }

  ghost predicate Repeats(kept: seq<Frame>, f: Frame) {
    exists k | 0 <= k < |kept| :: SameRange(kept[k], f)
  }

  /** The frames that are not repetitions: of frames with one offset and length, the first. */
  ghost function Kept(frames: seq<Frame>): (kept: seq<Frame>) {
    if frames == [] then [] else
    var k, f := Kept(frames[..|frames| - 1]), frames[|frames| - 1];
    if Repeats(k, f) then k else k + [f]
  }

  lemma {:induction false} KeptPush(frames: seq<Frame>, f: Frame)
    ensures Kept(frames + [f]) == if Repeats(Kept(frames), f) then Kept(frames) else Kept(frames) + [f]
  {
    assert (frames + [f])[..|frames|] == frames;
  }

  ghost function MaxEnd(frames: seq<Frame>): nat {
    if frames == [] then 0 else
    var m, f := MaxEnd(frames[..|frames| - 1]), frames[|frames| - 1];
    if f.offset + |f.data| > m then f.offset + |f.data| else m
  }

  /** The byte of the stream at b: of the last frame that covers it, or 0. */
  ghost function Written(kept: seq<Frame>, b: nat): Byte {
    if kept == [] then 0 else
    var f := kept[|kept| - 1];
    if Covers(f, b) then f.data[b - f.offset] else Written(kept[..|kept| - 1], b)
  }

  lemma {:induction false} PushFacts(kept: seq<Frame>, f: Frame)
    ensures MaxEnd(kept + [f]) == if f.offset + |f.data| > MaxEnd(kept) then f.offset + |f.data| else MaxEnd(kept)
    ensures forall b: nat :: Written(kept + [f], b) == if Covers(f, b) then f.data[b - f.offset] else Written(kept, b)
  {
    assert (kept + [f])[..|kept|] == kept;
  }

  ghost predicate Covered(frames: seq<Frame>, b: int) {
    exists k | 0 <= k < |frames| :: Covers(frames[k], b)
  }

  lemma {:induction false} WrittenUncovered(kept: seq<Frame>, b: nat)
    requires b >= MaxEnd(kept)
    ensures Written(kept, b) == 0
  {
    if kept != [] { WrittenUncovered(kept[..|kept| - 1], b); }
  }

  // ----- the ranges -----

  /** struct range64 */
  datatype Range = Range(offset: nat, len: nat)

  const MAX_DEFRAG_PIECES := 128

  function EndOf(r: Range): nat {
    r.offset + r.len
  }

  ghost predicate InRange(r: Range, b: int) {
    r.offset <= b < EndOf(r)
  }

  ghost predicate InSome(s: seq<Range>, b: int) {
    exists k | 0 <= k < |s| :: InRange(s[k], b)
  }

  /** cmp_range64 */
  function CmpRange(a: Range, b: Range): (r: int)
    ensures r <= 0 <==> a.offset <= b.offset
    ensures r < 0 <==> a.offset < b.offset
  {
    if a.offset < b.offset then -1 else if a.offset > b.offset then 1 else 0
  }

  ghost predicate ByOffset(s: seq<Range>) {
    forall i, j | 0 <= i < j < |s| :: s[i].offset <= s[j].offset
  }

  /** e is the greatest end of the ranges. */
  ghost predicate IsMaxEnd(s: seq<Range>, e: int) {
    (forall k | 0 <= k < |s| :: EndOf(s[k]) <= e) && exists k | 0 <= k < |s| :: EndOf(s[k]) == e
  }

  lemma MaxEndPush(s: seq<Range>, i: nat, e: int)
    requires 0 < i < |s| && IsMaxEnd(s[..i], e)
    ensures IsMaxEnd(s[..i + 1], if EndOf(s[i]) > e then EndOf(s[i]) else e)
  {
    var t, u := s[..i], s[..i + 1];
    var k :| 0 <= k < |t| && EndOf(t[k]) == e;
    assert u[k] == t[k] && u[i] == s[i];
    forall m | 0 <= m < |u| ensures EndOf(u[m]) <= e || EndOf(u[m]) == EndOf(s[i]) {
      if m < i { assert u[m] == t[m]; }
    }
  }

  /** Merging so far: with one range left, the bytes from the first offset to e are covered by the first i ranges;
      with more, some byte below e is in no range at all. */
  ghost predicate Merged(s: seq<Range>, i: int, one: bool, e: int) {
    && 0 < i <= |s| && IsMaxEnd(s[..i], e)
    && (one ==> forall b | s[0].offset <= b < e :: InSome(s, b))
    && (!one ==> exists g | s[0].offset <= g < e :: !InSome(s, g))
  }

  lemma MergeTouching(s: seq<Range>, i: nat, one: bool, e: nat)
    requires ByOffset(s) && i < |s| && Merged(s, i, one, e) && s[i].offset <= e
    ensures Merged(s, i + 1, one, if EndOf(s[i]) > e then EndOf(s[i]) else e)
  {
    MaxEndPush(s, i, e);
    var e' := if EndOf(s[i]) > e then EndOf(s[i]) else e;
    if one {
      forall b | s[0].offset <= b < e' ensures InSome(s, b) {
        if b >= e { assert InRange(s[i], b); }
      }
    } else {
      var g :| s[0].offset <= g < e && !InSome(s, g);
      assert s[0].offset <= g < e';
    }
  }

  lemma MergeGap(s: seq<Range>, i: nat, one: bool, e: nat)
    requires ByOffset(s) && i < |s| && Merged(s, i, one, e) && s[i].offset > e && s[0].offset <= e
    ensures Merged(s, i + 1, false, EndOf(s[i]))
  {
    MaxEndPush(s, i, e);
    forall k | 0 <= k < |s| ensures !InRange(s[k], e) {
      if k < i { assert s[..i][k] == s[k]; }
    }
    assert s[0].offset <= e < EndOf(s[i]) && !InSome(s, e);
  }

  lemma MergeDone(s: seq<Range>, one: bool, e: nat)
    requires ByOffset(s) && s != [] && Merged(s, |s|, one, e)
    ensures IsMaxEnd(s, e)
    ensures one && s[0].offset == 0 <==> forall b | 0 <= b < e :: InSome(s, b)
  {
    assert s[..|s|] == s;
    if s[0].offset > 0 {
      assert !InSome(s, 0);
    }
  }

  /** The in-place merge of the sorted ranges. It ends with a single range from 0 exactly if every byte up to the
      greatest end is in some range. */
  method MergeRanges(ranges: array<Range>) returns (full: bool, ghost e: nat)
    requires ranges.Length > 0 && ByOffset(ranges[..])
    modifies ranges
    ensures IsMaxEnd(old(ranges[..]), e) && (full <==> forall b | 0 <= b < e :: InSome(old(ranges[..]), b))
  {
    ghost var s := ranges[..];
    var j, i := 0, 1;
    assert s[..1] == [s[0]];
    while i < ranges.Length
      invariant 0 <= j < i <= ranges.Length && ranges[0].offset == s[0].offset
      invariant forall k | i <= k < ranges.Length :: ranges[k] == s[k]
      invariant s[0].offset <= ranges[j].offset && Merged(s, i, j == 0, EndOf(ranges[j]))
    {
      var currentEnd := EndOf(ranges[j]);
      var nextStart, nextEnd := ranges[i].offset, EndOf(ranges[i]);
      if nextStart <= currentEnd {
        MergeTouching(s, i, j == 0, currentEnd);
        ranges[j] := ranges[j].(len := (if nextEnd > currentEnd then nextEnd else currentEnd) - ranges[j].offset);
      } else {
        MergeGap(s, i, j == 0, currentEnd);
        j := j + 1;
        ranges[j] := ranges[i];
      }
      i := i + 1;
    }
    e := EndOf(ranges[j]);
    MergeDone(s, j == 0, e);
    full := j == 0 && ranges[0].offset == 0;
  }

  // ----- defragmentation -----

  ghost predicate RangesOf(kept: seq<Frame>, ranges: seq<Range>) {
    |ranges| == |kept| && forall k | 0 <= k < |kept| :: ranges[k] == Range(kept[k].offset, |kept[k].data|)
  }

  /** The buffer holds the stream bytes of the kept frames, with zeros in the gaps. */
  ghost predicate Assembled(kept: seq<Frame>, out: seq<Byte>) {
    10 + MaxEnd(kept) <= |out| && forall b: nat | b < MaxEnd(kept) :: out[10 + b] == Written(kept, b)
  }

  /** Zeros from zeropos to the frame, then its data. */
  method PlaceData(defrag: array<Byte>, f: Frame, ghost kept: seq<Frame>, zeropos: nat)
    requires Assembled(kept, defrag[..]) && zeropos == MaxEnd(kept) && 10 + f.offset + |f.data| <= defrag.Length
    modifies defrag
    ensures Assembled(kept + [f], defrag[..])
  {
    PushFacts(kept, f);
    if zeropos < f.offset {
      forall b | zeropos <= b < f.offset { defrag[10 + b] := 0; }
    }
    forall i | 0 <= i < |f.data| { defrag[10 + f.offset + i] := f.data[i]; }
    forall b: nat | b < MaxEnd(kept + [f]) ensures defrag[10 + b] == Written(kept + [f], b) {
      if b >= zeropos {
        WrittenUncovered(kept, b);
      } else if !Covers(f, b) {
        assert old(defrag[..])[10 + b] == Written(kept, b);
      }
    }
  }

  method IsRepeated(ranges: seq<Range>, f: Frame, ghost kept: seq<Frame>) returns (yes: bool)
    requires RangesOf(kept, ranges)
    ensures yes <==> Repeats(kept, f)
  {
    yes := false;
    for i := 0 to |ranges|
      invariant forall k | 0 <= k < i :: !SameRange(kept[k], f)
    {
      if ranges[i].offset == f.offset && ranges[i].len == |f.data| {
        assert SameRange(kept[i], f);
        return true;
      }
    }
  }

  ghost predicate AllFit(frames: seq<Frame>, room: int) {
    forall k | 0 <= k < |frames| :: frames[k].offset + |frames[k].data| <= room
  }

  /** What is required of the frames: there are some, at most 128 distinct ones before the last, and they fit the
      buffer. */
  ghost predicate Acceptable(frames: seq<Frame>, room: int) {
    frames != [] && |Kept(frames[..|frames| - 1])| < MAX_DEFRAG_PIECES && AllFit(frames, room)
  }

  /** A failed frame spoils whatever follows. */
  ghost predicate Spoiled(clean: seq<Byte>, room: int) {
    var p := ParseFrom(clean, 0, []);
    p.None? || !Acceptable(p.value, room)
  }

  /** The bytes are a payload with acceptable frames. */
  ghost predicate Joinable(clean: seq<Byte>, room: int) {
    exists frames :: IsPayload(clean, frames) && Acceptable(frames, room)
  }

  lemma SpoiledMeaning(clean: seq<Byte>, room: int)
    ensures !Spoiled(clean, room) <==> Joinable(clean, room)
  {
    forall fs ensures IsPayload(clean, fs) <==> ParseFrom(clean, 0, []) == Some(fs) { ParseMeaning(clean, fs); }
    if !Spoiled(clean, room) { assert IsPayload(clean, ParseFrom(clean, 0, []).value); }
  }

  lemma {:induction false} KeptMonotone(frames: seq<Frame>, n: nat)
    requires n <= |frames|
    ensures |Kept(frames[..n])| <= |Kept(frames)|
    decreases |frames| - n
  {
    if n == |frames| {
      assert frames[..n] == frames;
    } else {
      assert frames[..n + 1] == frames[..n] + [frames[n]];
      KeptPush(frames[..n], frames[n]);
      KeptMonotone(frames, n + 1);
    }
  }

  lemma {:induction false} NotAcceptable(all: seq<Frame>, acc: seq<Frame>, f: Frame, room: int)
    requires acc + [f] <= all && (|Kept(acc)| >= MAX_DEFRAG_PIECES || f.offset + |f.data| > room)
    ensures !Acceptable(all, room)
  {
    var n := |acc|;
    assert all[n] == (acc + [f])[n] == f;
    if |Kept(acc)| >= MAX_DEFRAG_PIECES {
      var init := all[..|all| - 1];
      assert init[..n] == all[..n] == (acc + [f])[..n] == acc;
      KeptMonotone(init, n);
    }
  }

  lemma {:induction false} SpoiledByFrame(clean: seq<Byte>, next: nat, acc: seq<Frame>, f: Frame, room: int)
    requires next <= |clean| && ParseFrom(clean, 0, []) == ParseFrom(clean, next, acc + [f])
    requires |Kept(acc)| >= MAX_DEFRAG_PIECES || f.offset + |f.data| > room
    ensures Spoiled(clean, room)
  {
    var p := ParseFrom(clean, 0, []);
    if p.Some? {
      ParseExtends(clean, next, acc + [f]);
      NotAcceptable(p.value, acc, f, room);
    }
  }

  /** What was collected: the ranges, and the end of the stream so far (szmax, which zeropos always equals). */
  datatype Pieces = Pieces(ranges: seq<Range>, szmax: nat)

  ghost predicate Collected(pieces: Pieces, frames: seq<Frame>, out: seq<Byte>, room: int) {
    match pieces
    case Pieces(ranges, szmax) =>
      && RangesOf(Kept(frames), ranges) && Assembled(Kept(frames), out) && szmax == MaxEnd(Kept(frames)) <= room
      && AllFit(frames, room) && (frames == [] <==> ranges == []) && (frames != [] ==> Acceptable(frames, room))
  }

  lemma {:induction false} CollectedPush(pieces: Pieces, frames: seq<Frame>, out: seq<Byte>, out': seq<Byte>,
                                         room: int, f: Frame)
    requires Collected(pieces, frames, out, room) && |pieces.ranges| < MAX_DEFRAG_PIECES && f.offset + |f.data| <= room
    requires if Repeats(Kept(frames), f) then out' == out else Assembled(Kept(frames) + [f], out')
    ensures var pieces' := if Repeats(Kept(frames), f) then pieces
                           else Pieces(pieces.ranges + [Range(f.offset, |f.data|)],
                                       if f.offset + |f.data| > pieces.szmax then f.offset + |f.data|
                                       else pieces.szmax);
      Collected(pieces', frames + [f], out', room)
  {
    KeptPush(frames, f);
    PushFacts(Kept(frames), f);
    assert (frames + [f])[..|frames|] == frames;
  }

  /** One CRYPTO frame, within the limits. */
  method AddFrame(pieces0: Pieces, f: Frame, defrag: array<Byte>, room: nat, ghost frames: seq<Frame>)
    returns (pieces: Pieces)
    requires 10 + room <= defrag.Length && Collected(pieces0, frames, defrag[..], room)
    requires |pieces0.ranges| < MAX_DEFRAG_PIECES && f.offset + |f.data| <= room
    modifies defrag
    ensures Collected(pieces, frames + [f], defrag[..], room)
  {
    ghost var out, kept := defrag[..], Kept(frames);
    var repeated := IsRepeated(pieces0.ranges, f, kept);
    pieces := pieces0;
    if !repeated {
      PlaceData(defrag, f, kept, pieces0.szmax);
      pieces := Pieces(pieces0.ranges + [Range(f.offset, |f.data|)],
                       if f.offset + |f.data| > pieces0.szmax then f.offset + |f.data| else pieces0.szmax);
    }
    CollectedPush(pieces0, frames, out, defrag[..], room, f);
  }

  /** The loop over the frames. */
  method CollectFrames(clean: seq<Byte>, defrag: array<Byte>, room: nat)
    returns (ok: bool, pieces: Pieces, ghost frames: seq<Frame>)
    requires 10 + room <= defrag.Length
    modifies defrag
    ensures !ok ==> Spoiled(clean, room)
    ensures ok ==> ParseFrom(clean, 0, []) == Some(frames) && Collected(pieces, frames, defrag[..], room)
  {
    var pos: nat := 0;
    ok, pieces, frames := false, Pieces([], 0), [];
    while pos < |clean|
      invariant pos <= |clean| && ParseFrom(clean, 0, []) == ParseFrom(clean, pos, frames)
      invariant Collected(pieces, frames, defrag[..], room)
      decreases |clean| - pos
    {
      var step := ReadFrame(clean, pos);
      if step.Bad? {
        return;
      }
      if step.Crypto? {
        if |pieces.ranges| >= MAX_DEFRAG_PIECES || step.frame.offset + |step.frame.data| > room {
          SpoiledByFrame(clean, step.next, frames, step.frame, room);
          return;
        }
        pieces := AddFrame(pieces, step.frame, defrag, room, frames);
        frames := frames + [step.frame];
      }
      pos := step.next;
    }
    ok := true;
  }

  lemma {:induction false} KeptCovers(frames: seq<Frame>, b: int)
    ensures Covered(Kept(frames), b) <==> Covered(frames, b)
  {
    if frames != [] {
      var n := |frames| - 1;
      KeptCovers(frames[..n], b);
      assert frames == frames[..n] + [frames[n]];
      CoveredPush(frames[..n], frames[n], b);
      CoveredPush(Kept(frames[..n]), frames[n], b);
      if k :| 0 <= k < |Kept(frames[..n])| && SameRange(Kept(frames[..n])[k], frames[n]) {
        assert Covers(Kept(frames[..n])[k], b) <==> Covers(frames[n], b);
      }
    }
  }

  lemma CoveredPush(frames: seq<Frame>, f: Frame, b: int)
    ensures Covered(frames + [f], b) <==> Covered(frames, b) || Covers(f, b)
  {
    var all := frames + [f];
    if k :| 0 <= k < |frames| && Covers(frames[k], b) { assert Covers(all[k], b); }
    if Covers(f, b) { assert Covers(all[|frames|], b); }
  }

  lemma RangesCover(kept: seq<Frame>, ranges: seq<Range>, b: int)
    requires RangesOf(kept, ranges)
    ensures Covered(kept, b) <==> InSome(ranges, b)
  {
    if k :| 0 <= k < |kept| && Covers(kept[k], b) { assert InRange(ranges[k], b); }
    if k :| 0 <= k < |ranges| && InRange(ranges[k], b) { assert Covers(kept[k], b); }
  }

  lemma {:induction false} MaxEndIs(kept: seq<Frame>, ranges: seq<Range>)
    requires RangesOf(kept, ranges) && kept != []
    ensures IsMaxEnd(ranges, MaxEnd(kept))
  {
    var n := |kept| - 1;
    var t := ranges[..n];
    assert EndOf(ranges[n]) == kept[n].offset + |kept[n].data|;
    if n > 0 {
      MaxEndIs(kept[..n], t);
      var k :| 0 <= k < n && EndOf(t[k]) == MaxEnd(kept[..n]);
      assert EndOf(ranges[k]) == MaxEnd(kept[..n]);
      forall m | 0 <= m < |ranges| ensures EndOf(ranges[m]) <= MaxEnd(kept) {
        if m < n { assert EndOf(t[m]) <= MaxEnd(kept[..n]); }
      }
    }
  }

  lemma PermutedRanges(s: seq<Range>, t: seq<Range>, e: int, e': int)
    requires multiset(s) == multiset(t) && IsMaxEnd(s, e) && IsMaxEnd(t, e')
    ensures e == e' && forall b :: InSome(s, b) <==> InSome(t, b)
  {
    Ip2net.SameMembers(s, t);
    SomeOther(s, t, e);
    SomeOther(t, s, e');
    forall b ensures InSome(s, b) <==> InSome(t, b) {
      if k :| 0 <= k < |s| && InRange(s[k], b) { assert s[k] in t; }
      if k :| 0 <= k < |t| && InRange(t[k], b) { assert t[k] in s; }
    }
  }

  lemma SomeOther(s: seq<Range>, t: seq<Range>, e: int)
    requires IsMaxEnd(s, e) && forall x :: x in s <==> x in t
    ensures exists k | 0 <= k < |t| :: EndOf(t[k]) == e
  {
    var k :| 0 <= k < |s| && EndOf(s[k]) == e;
    assert s[k] in t;
  }

  /** Sorting and merging: full exactly if the frames cover every byte of the stream so far. */
  method IsFull(pieces: Pieces, ghost frames: seq<Frame>, ghost out: seq<Byte>, ghost room: int) returns (full: bool)
    requires Collected(pieces, frames, out, room) && pieces.ranges != [] && |pieces.ranges| <= MAX_DEFRAG_PIECES
    ensures full <==> forall b | 0 <= b < pieces.szmax :: Covered(frames, b)
  {
    ghost var e;
    ghost var kept, s := Kept(frames), pieces.ranges;
    var a := new Range[|pieces.ranges|](i requires 0 <= i < |pieces.ranges| => pieces.ranges[i]);
    assert a[..] == s;
    QSort.GnuQuicksort(a, CmpRange);
    ghost var t := a[..];
    assert ByOffset(t) by {
      forall i, j | 0 <= i < j < |t| ensures t[i].offset <= t[j].offset {
        assert CmpRange(t[i], t[j]) <= 0;
      }
    }
    full, e := MergeRanges(a);
    FullMeans(kept, frames, s, t, e, pieces.szmax);
  }

  lemma {:induction false} FullMeans(kept: seq<Frame>, frames: seq<Frame>, s: seq<Range>, t: seq<Range>, e: nat,
                                     szmax: nat)
    requires kept == Kept(frames) && RangesOf(kept, s) && s != [] && szmax == MaxEnd(kept)
    requires multiset(s) == multiset(t) && IsMaxEnd(t, e)
    ensures e == szmax && forall b :: InSome(t, b) <==> Covered(frames, b)
  {
    MaxEndIs(kept, s);
    PermutedRanges(s, t, szmax, e);
    forall b ensures InSome(t, b) <==> Covered(frames, b) {
      RangesCover(kept, s, b);
      KeptCovers(frames, b);
    }
  }

  // ----- the synthetic frame -----

  /** v >> 8k */
  function ShrBytes(v: nat, k: nat): nat {
    if k == 0 then v else ShrBytes(v, k - 1) / 256
  }

  /** Eight bytes of a varint: phton64, and the two size bits set. */
  ghost predicate EightBytes(s: seq<Byte>, i: nat, v: nat) {
    VarintBytes(s, i, v, 7)
  }

  /** The number v in n + 1 bytes, most significant first, with the two size bits set. */
  ghost predicate VarintBytes(s: seq<Byte>, i: nat, v: nat, n: nat) {
    && i + n < |s| && s[i] as int == 0xC0 + ShrBytes(v, n) % 256 % 64
    && forall j | i < j <= i + n :: s[j] as int == ShrBytes(v, n - (j - i)) % 256
  }

  lemma {:induction false} TopBytes(v: nat, k: nat, m: nat)
    requires v < 64 * Pow256(k + m)
    ensures ShrBytes(v, k) < 64 * Pow256(m)
    decreases k
  {
    if k > 0 { TopBytes(v, k - 1, m + 1); }
  }

  lemma Shifted(x: nat, p: nat, q: nat, b: nat)
    requires x == 0xC0 * p + q / 256 && b == q % 256
    ensures 256 * x + b == 0xC0 * (256 * p) + q
  {
  }

  lemma ByteOf(s: seq<Byte>, i: nat, v: nat, n: nat, m: nat)
    requires VarintBytes(s, i, v, n + m) && 0 < n
    ensures s[i + n] as int == ShrBytes(v, m) % 256 && ShrBytes(v, m + 1) == ShrBytes(v, m) / 256
  {
    var j := i + n;
    assert s[j] as int == ShrBytes(v, n + m - (j - i)) % 256;
  }

  lemma {:induction false} NumberWritten(s: seq<Byte>, i: nat, v: nat, n: nat, m: nat)
    requires VarintBytes(s, i, v, n + m) && ShrBytes(v, n + m) < 64
    ensures NumberAt(s, i, n + 1) == 0xC0 * Pow256(n) + ShrBytes(v, m)
    decreases n
  {
    if n > 0 {
      NumberWritten(s, i, v, n - 1, m + 1);
      ByteOf(s, i, v, n, m);
      Shifted(NumberAt(s, i, n), Pow256(n - 1), ShrBytes(v, m), s[i + n]);
    } else {
      assert NumberAt(s, i, 0) == 0;
    }
  }

  /** Writing a number below 2^62 in eight bytes and reading it back. */
  lemma VarintWritten(s: seq<Byte>, i: nat, v: nat)
    requires EightBytes(s, i, v) && v < VALUE_MASK
    ensures VarintSize(s[i]) == 8 && VarintAt(s, i) == v
  {
    TopBytes(v, 7, 0);
    NumberWritten(s, i, v, 7, 0);
    TopBits(NumberAt(s, i, 8), v);
  }

  lemma TopBits(x: nat, v: nat)
    requires x == 3 * VALUE_MASK + v && v < VALUE_MASK
    ensures x % VALUE_MASK == v
  {
  }

  method WriteHeader(defrag: array<Byte>, v: nat)
    requires defrag.Length >= 10
    modifies defrag
    ensures defrag[0] == 6 && defrag[1] == 0 && EightBytes(defrag[..], 2, v)
    ensures forall i | 10 <= i < defrag.Length :: defrag[i] == old(defrag[i])
  {
    defrag[0], defrag[1] := 6, 0;
    forall k | 0 <= k < 8 { defrag[2 + k] := ShrBytes(v, 7 - k) % 256; }
    defrag[2] := 0xC0 + (defrag[2] as int) % 64; // |= 0xC0
  }

  /** The frame written for a stream of szmax bytes. */
  ghost predicate Synthetic(out: seq<Byte>, kept: seq<Frame>, szmax: nat) {
    && |out| == 10 + szmax && out[0] == 6 && out[1] == 0 && EightBytes(out, 2, szmax)
    && forall b: nat | b < szmax :: out[10 + b] == Written(kept, b)
  }

  /** QUICDefragCrypto */
  method QuicDefragCrypto(clean: seq<Byte>, defrag: array<Byte>, defragLen: nat)
    returns (found: bool, outLen: nat, full: bool, ghost frames: seq<Frame>)
    requires defragLen <= defrag.Length
    modifies defrag
    ensures found <==> defragLen >= 10 && Joinable(clean, defragLen - 10)
    ensures found ==> IsPayload(clean, frames) && outLen == 10 + MaxEnd(Kept(frames)) <= defragLen
    ensures found ==> Synthetic(defrag[..outLen], Kept(frames), MaxEnd(Kept(frames)))
    ensures found ==> (full <==> forall b | 0 <= b < MaxEnd(Kept(frames)) :: Covered(frames, b))
  {
    found, outLen, full, frames := false, defragLen, false, [];
    if defragLen < 10 {
      return;
    }
    SpoiledMeaning(clean, defragLen - 10);
    var ok, pieces;
    ok, pieces, frames := CollectFrames(clean, defrag, defragLen - 10);
    ParseMeaning(clean, frames);
    if !ok || pieces.ranges == [] {
      return;
    }
    found := true;
    KeptBound(frames);
    full := IsFull(pieces, frames, defrag[..], defragLen - 10);
    WriteHeader(defrag, pieces.szmax);
    outLen := pieces.szmax + 10;
  }

  lemma KeptBound(frames: seq<Frame>)
    requires frames != [] && |Kept(frames[..|frames| - 1])| < MAX_DEFRAG_PIECES
    ensures |Kept(frames)| <= MAX_DEFRAG_PIECES
  {
  }

  // ----- properties of the result -----

  /** What is written is a payload of one CRYPTO frame, at offset 0, that holds the stream so far. */
  lemma SyntheticIsFrame(out: seq<Byte>, kept: seq<Frame>, szmax: nat)
    requires Synthetic(out, kept, szmax) && szmax < VALUE_MASK
    ensures IsPayload(out, [Frame(0, out[10..])])
  {
    SmallPowers();
    VarintWritten(out, 2, szmax);
    VarintIsEncoded(out, 1, 1);
    VarintIsEncoded(out, 2, 8);
    var f := Frame(0, out[10..]);
    var item := CryptoFrame(f, 1, 8);
    assert VarintAt(out, 1) == 0 && VarintSize(out[1]) == 1;
    assert out[0..1] == [6] && out[10..|out|] == out[10..];
    Pieces4(out, 0, [6], EncodeVarint(0, 1), EncodeVarint(szmax, 8), out[10..]);
    assert out[0..|out|] == out;
    var items := [item];
    assert items[1..] == [] && Payload(items) == Encoding(item) + [] == out;
    assert FramesIn(items) == [f] + [] == [f];
  }

  ghost predicate SlicesOf(frames: seq<Frame>, stream: seq<Byte>) {
    forall k | 0 <= k < |frames| :: var f := frames[k];
      f.offset + |f.data| <= |stream| && f.data == stream[f.offset..f.offset + |f.data|]
  }

  lemma SliceByte(f: Frame, stream: seq<Byte>, b: nat)
    requires f.offset + |f.data| <= |stream| && f.data == stream[f.offset..f.offset + |f.data|] && Covers(f, b)
    ensures b < |stream| && f.data[b - f.offset] == stream[b]
  {
  }

  lemma {:induction false} CoveredBefore(t: seq<Frame>, f: Frame, b: nat)
    requires Covered(t + [f], b) && (Repeats(Kept(t), f) || !Covers(f, b))
    ensures Covered(t, b)
  {
    KeptPush(t, f);
    KeptCovers(t + [f], b);
    KeptCovers(t, b);
    CoveredPush(t, f, b);
  }

  lemma SlicesBefore(frames: seq<Frame>, stream: seq<Byte>, t: seq<Frame>, f: Frame)
    requires SlicesOf(frames, stream) && frames == t + [f]
    ensures SlicesOf(t, stream) && f.offset + |f.data| <= |stream|
    ensures f.data == stream[f.offset..f.offset + |f.data|]
  {
    assert frames[|t|] == f;
    forall k | 0 <= k < |t| ensures frames[k] == t[k] {}
  }

  lemma {:induction false} WrittenIsStream(frames: seq<Frame>, stream: seq<Byte>, b: nat)
    requires SlicesOf(frames, stream) && Covered(frames, b)
    ensures b < |stream| && Written(Kept(frames), b) == stream[b]
    decreases |frames|
  {
    var t, f := frames[..|frames| - 1], frames[|frames| - 1];
    assert frames == t + [f];
    SlicesBefore(frames, stream, t, f);
    KeptPush(t, f);
    PushFacts(Kept(t), f);
    if Repeats(Kept(t), f) || !Covers(f, b) {
      CoveredBefore(t, f, b);
      WrittenIsStream(t, stream, b);
    } else {
      SliceByte(f, stream, b);
    }
  }

  /** If all frames are slices of one stream and the coverage is full, the output is the beginning of the stream. */
  lemma {:induction false} FullIsPrefix(frames: seq<Frame>, stream: seq<Byte>, out: seq<Byte>)
    requires SlicesOf(frames, stream) && Synthetic(out, Kept(frames), MaxEnd(Kept(frames)))
    requires forall b | 0 <= b < MaxEnd(Kept(frames)) :: Covered(frames, b)
    ensures MaxEnd(Kept(frames)) <= |stream| && out[10..] == stream[..MaxEnd(Kept(frames))]
  {
    var m := MaxEnd(Kept(frames));
    forall b: nat | b < m ensures b < |stream| && out[10 + b] == stream[b] {
      WrittenIsStream(frames, stream, b);
    }
    if m > 0 { WrittenIsStream(frames, stream, m - 1); }
  }

  /** IsTLSHandshakeClientHello */
  predicate IsHandshakeHello(data: seq<Byte>, off: nat, len: nat)
    requires off + len <= |data|
  {
    len >= 4 && data[off] == 1 && U24At(data, off + 1) > 0
  }

  /** IsQUICCryptoHello */
  function IsQuicCryptoHello(data: seq<Byte>): (hello: Option<Extension>)
    ensures hello.Some? ==> hello.value.off + hello.value.len <= |data|
  {
    if |data| < 3 || data[0] != 6 || 1 + VarintSize(data[1]) >= |data| then None else
    var coff, p := VarintAt(data, 1), 1 + VarintSize(data[1]);
    if coff != 0 || p + VarintSize(data[p]) >= |data| then None else
    var clen, q := VarintAt(data, p), p + VarintSize(data[p]);
    if q + clen > |data| || !IsHandshakeHello(data, q, clen) then None else Some(Extension(q, clen))
  }

  /** The reader undoes the writer: it finds the stream at offset 10 with its length, exactly if that starts with a
      ClientHello header. */
  lemma HelloReadBack(out: seq<Byte>, kept: seq<Frame>, szmax: nat)
    requires Synthetic(out, kept, szmax) && szmax < VALUE_MASK
    ensures IsQuicCryptoHello(out) ==
            if szmax >= 4 && out[10] == 1 && !(out[11] == out[12] == out[13] == 0) then Some(Extension(10, szmax))
            else None
  {
    VarintWritten(out, 2, szmax);
  }
}
