/** Variable-length bit strings held in byte buffers, and the comparator of upstream/nfq/pools.c
    that looks only at the bits two keys have in common. */
module BitKeys {
  import opened BitArith
  import opened Wire

  /** `bitlen` leading bits of `data`, most significant bit of each byte first. */
  datatype RawKey = Key(bitlen: nat, data: seq<Byte>)

  type Key = k: RawKey | k.bitlen <= 8 * |k.data| witness Key(0, [])

  /** b >> (8 - n): the top n bits of a byte. */
  function Top(b: Byte, n: nat): nat
    requires n <= 8
  {
    match n
    case 0 => 0
    case 1 => b / 128
    case 2 => b / 64
    case 3 => b / 32
    case 4 => b / 16
    case 5 => b / 8
    case 6 => b / 4
    case 7 => b / 2
    case 8 => b
  }

  function Compare(x: int, y: int): int {
    if x < y then -1 else if x == y then 0 else 1
  }

  // ----- the code -----

  /** memcmp(a, b, n). */
  function MemCmp(a: seq<Byte>, b: seq<Byte>, n: nat): int
    requires n <= |a| && n <= |b|
  {
    if n == 0 then 0 else
    var c := MemCmp(a, b, n - 1);
    if c != 0 then c else Compare(a[n-1], b[n-1])
  }

  /** kavl_bit_cmp: whole common bytes first, then the top `df` bits of the next byte. */
  function Cmp(p: Key, q: Key): int {
    var bitlen := if q.bitlen < p.bitlen then q.bitlen else p.bitlen;
    var df, bytes := bitlen % 8, bitlen / 8;
    var cmp := MemCmp(p.data, q.data, bytes);
    if cmp != 0 || df == 0 then cmp else
    var c1 := Top(p.data[bytes], df);
    var c2 := Top(q.data[bytes], df);
    Compare(c1, c2)
  }

  // ----- the plain reading -----

  /** Bit i of the w bits of x, the most significant first. */
  predicate BitOf(x: nat, w: nat, i: nat)
    requires i < w
  {
    x / Pow2(w - 1 - i) % 2 == 1
  }

  predicate ByteBit(b: Byte, i: nat)
    requires i < 8
  {
    BitOf(b, 8, i)
  }

  /** The bit string a key stands for. */
  function Bits(k: Key): (s: seq<bool>)
    ensures |s| == k.bitlen
  {
    seq(k.bitlen, i requires 0 <= i < k.bitlen => ByteBit(k.data[i / 8], i % 8))
  }

  /** `a` and `b` first differ at position `d`, where `a` has 0 and `b` has 1. */
  ghost predicate DiffersAt(a: seq<bool>, b: seq<bool>, d: nat) {
    d < |a| && d < |b| && a[..d] == b[..d] && !a[d] && b[d]
  }

  ghost predicate Before(a: seq<bool>, b: seq<bool>) {
    exists d: nat :: DiffersAt(a, b, d)
  }

  /** One is a prefix of the other. */
  ghost predicate Related(a: seq<bool>, b: seq<bool>) {
    a <= b || b <= a
  }

  // ----- the comparator computes the plain reading -----

  /** Lexicographic comparison of the first n bits. */
  ghost function CmpBits(a: seq<bool>, b: seq<bool>, n: nat): int
    requires n <= |a| && n <= |b|
  {
    if n == 0 then 0 else
    var c := CmpBits(a, b, n - 1);
    if c != 0 then c else if a[n-1] == b[n-1] then 0 else if b[n-1] then -1 else 1
  }

  lemma SmallPowers()
    ensures Pow2(0) == 1 && Pow2(1) == 2 && Pow2(2) == 4 && Pow2(3) == 8
    ensures Pow2(4) == 16 && Pow2(5) == 32 && Pow2(6) == 64 && Pow2(7) == 128
  {
    assert Pow2(2) == 2 * Pow2(1);
    assert Pow2(4) == 2 * Pow2(3) == 4 * Pow2(2);
    assert Pow2(6) == 2 * Pow2(5) == 4 * Pow2(4);
  }

  lemma TopBits(b: Byte, n: nat)
    requires n < 8
    ensures Top(b, n + 1) == 2 * Top(b, n) + (if ByteBit(b, n) then 1 else 0)
  {
    SmallPowers();
  }

  /** Within one byte: comparing the top j bits as numbers compares them bit by bit. */
  lemma {:induction false} CmpWithinByte(p: Key, q: Key, k: nat, j: nat)
    requires j <= 8 && 8 * k + j <= p.bitlen && 8 * k + j <= q.bitlen
    requires j > 0 ==> k < |p.data| && k < |q.data|
    requires CmpBits(Bits(p), Bits(q), 8 * k) == 0
    ensures j > 0 ==> CmpBits(Bits(p), Bits(q), 8 * k + j) == Compare(Top(p.data[k], j), Top(q.data[k], j))
  {
    if j > 0 {
      CmpWithinByte(p, q, k, j - 1);
      TopBits(p.data[k], j - 1);
      TopBits(q.data[k], j - 1);
      var i := 8 * k + j - 1;
      assert i / 8 == k && i % 8 == j - 1;
      assert Bits(p)[i] == ByteBit(p.data[k], j - 1);
      assert Bits(q)[i] == ByteBit(q.data[k], j - 1);
    }
  }

  lemma {:induction false} CmpZeroUpTo(a: seq<bool>, b: seq<bool>, m: nat, n: nat)
    requires m <= n <= |a| && n <= |b|
    ensures CmpBits(a, b, m) != 0 ==> CmpBits(a, b, n) == CmpBits(a, b, m)
    decreases n
  {
    if m < n { CmpZeroUpTo(a, b, m, n - 1); }
  }

  lemma {:induction false} MemCmpIsCmpBits(p: Key, q: Key, n: nat)
    requires 8 * n <= p.bitlen && 8 * n <= q.bitlen
    ensures MemCmp(p.data, q.data, n) == CmpBits(Bits(p), Bits(q), 8 * n)
  {
    if n > 0 {
      MemCmpIsCmpBits(p, q, n - 1);
      CmpZeroUpTo(Bits(p), Bits(q), 8 * (n - 1), 8 * n);
      if CmpBits(Bits(p), Bits(q), 8 * (n - 1)) == 0 { CmpWithinByte(p, q, n - 1, 8); }
    }
  }

  lemma {:induction false} CmpBitsMeaning(a: seq<bool>, b: seq<bool>, n: nat)
    requires n <= |a| && n <= |b|
    ensures CmpBits(a, b, n) == 0 <==> a[..n] == b[..n]
    ensures CmpBits(a, b, n) < 0 <==> exists d: nat | d < n :: DiffersAt(a, b, d)
    ensures CmpBits(a, b, n) > 0 <==> exists d: nat | d < n :: DiffersAt(b, a, d)
  {
    if n > 0 {
      CmpBitsMeaning(a, b, n - 1);
      assert a[..n] == a[..n-1] + [a[n-1]] && b[..n] == b[..n-1] + [b[n-1]];
      forall d: nat | d == n - 1
        ensures CmpBits(a, b, n - 1) == 0 && !a[d] && b[d] ==> DiffersAt(a, b, d)
        ensures CmpBits(a, b, n - 1) == 0 && !b[d] && a[d] ==> DiffersAt(b, a, d)
        ensures CmpBits(a, b, n - 1) != 0 ==> !DiffersAt(a, b, d) && !DiffersAt(b, a, d)
      {}
    }
  }

  function CommonLength(p: Key, q: Key): nat {
    if q.bitlen < p.bitlen then q.bitlen else p.bitlen
  }

  lemma CmpIsCmpBits(p: Key, q: Key)
    ensures Cmp(p, q) == CmpBits(Bits(p), Bits(q), CommonLength(p, q))
  {
    var a, b, n := Bits(p), Bits(q), CommonLength(p, q);
    var k := n / 8;
    MemCmpIsCmpBits(p, q, k);
    CmpZeroUpTo(a, b, 8 * k, n);
    if CmpBits(a, b, 8 * k) == 0 && n % 8 > 0 { CmpWithinByte(p, q, k, n % 8); }
  }

  /** kavl_bit_cmp is the lexicographic order on bit strings, with prefix-related strings tied. */
  lemma CmpMeaning(p: Key, q: Key)
    ensures Cmp(p, q) < 0 <==> Before(Bits(p), Bits(q))
    ensures Cmp(p, q) > 0 <==> Before(Bits(q), Bits(p))
    ensures Cmp(p, q) == 0 <==> Related(Bits(p), Bits(q))
  {
    CmpIsCmpBits(p, q);
    CmpBitsMeaning(Bits(p), Bits(q), CommonLength(p, q));
  }

  // ----- bit strings and addresses -----

  /** memcmp decides by the first byte that differs. */
  lemma {:induction false} MemCmpMeaning(a: seq<Byte>, b: seq<Byte>, n: nat)
    requires n <= |a| && n <= |b|
    ensures MemCmp(a, b, n) < 0 <==> exists k | 0 <= k < n :: a[..k] == b[..k] && a[k] < b[k]
    ensures MemCmp(a, b, n) > 0 <==> exists k | 0 <= k < n :: a[..k] == b[..k] && a[k] > b[k]
    ensures MemCmp(a, b, n) == 0 <==> a[..n] == b[..n]
  {
    if n > 0 {
      MemCmpMeaning(a, b, n - 1);
      assert a[..n] == a[..n - 1] + [a[n - 1]] && b[..n] == b[..n - 1] + [b[n - 1]];
      forall k | 0 <= k < n && a[..k] == b[..k] && a[k] != b[k] ensures k < n - 1 <==> a[..n - 1] != b[..n - 1] {
        if k < n - 1 { assert a[..n - 1][k] != b[..n - 1][k]; }
      }
      if a[..n - 1] == b[..n - 1] {
        assert a[n - 1] < b[n - 1] ==> a[..n - 1] == b[..n - 1] && a[n - 1] < b[n - 1];
      }
    }
  }

  lemma HalfQuotient(x: nat, p: nat)
    requires p > 0
    ensures x / (2 * p) == x / p / 2
  {
    var q, r := x / p, x % p;
    var h, b := q / 2, q % 2;
    assert x == (2 * h + b) * p + r;
    QuotientIs(x, 2 * p, h, b * p + r);
  }

  /** The upper p bits of two numbers are the same exactly if they are the same number. */
  lemma {:induction false} LeadingBits(x: nat, y: nat, w: nat, p: nat)
    requires p <= w && x < Pow2(w) && y < Pow2(w)
    ensures (forall i | 0 <= i < p :: BitOf(x, w, i) == BitOf(y, w, i)) <==> x / Pow2(w - p) == y / Pow2(w - p)
  {
    if p > 0 {
      LeadingBits(x, y, w, p - 1);
      var d := Pow2(w - p);
      assert Pow2(w - (p - 1)) == 2 * d;
      HalfQuotient(x, d);
      HalfQuotient(y, d);
      assert BitOf(x, w, p - 1) <==> x / d % 2 == 1;
      assert BitOf(y, w, p - 1) <==> y / d % 2 == 1;
    } else {
      QuotientIs(x, Pow2(w), 0, x);
      QuotientIs(y, Pow2(w), 0, y);
    }
  }

  lemma {:induction false} BigEndianBound(a: seq<Byte>)
    ensures BigEndian(a) < Pow2(8 * |a|)
  {
    if a != [] {
      var n := |a| - 1;
      BigEndianBound(a[..n]);
      Pow2Byte(8 * n);
      assert 8 * n + 8 == 8 * |a|;
    }
  }

  /** Bit i of an address is bit i % 8 of its byte i / 8. */
  lemma {:induction false} BitOfAddress(a: seq<Byte>, i: nat)
    requires i < 8 * |a|
    ensures BitOf(BigEndian(a), 8 * |a|, i) == ByteBit(a[i / 8], i % 8)
  {
    var n := |a| - 1;
    var x, b := BigEndian(a[..n]), a[n];
    if i < 8 * n {
      BitOfAddress(a[..n], i);
      var d := Pow2(8 * n - 1 - i);
      Pow2Byte(8 * n - 1 - i);
      UpperQuotient(x, b, d);
      assert 8 * |a| - 1 - i == 8 * n - 1 - i + 8;
    } else {
      LowerBit(x, b, i - 8 * n);
    }
  }

  lemma UpperQuotient(x: nat, b: Byte, d: nat)
    requires d > 0
    ensures (256 * x + b) / (256 * d) == x / d
  {
    var q, r := x / d, x % d;
    assert 256 * x + b == q * (256 * d) + (256 * r + b);
    QuotientIs(256 * x + b, 256 * d, q, 256 * r + b);
  }

  lemma Regroup(x: nat, d: nat, e: nat)
    requires d * (2 * e) == 256
    ensures 256 * x == (2 * (e * x)) * d
  {
    assert d * (2 * e) * x == d * (2 * e * x);
  }

  lemma LowerQuotient(x: nat, b: Byte, d: nat, e: nat)
    requires d > 0 && d * (2 * e) == 256
    ensures (256 * x + b) / d % 2 == b / d % 2
  {
    var y, q, r := e * x, b / d, b % d;
    Regroup(x, d, e);
    assert (2 * y + q) * d == (2 * y) * d + q * d;
    QuotientIs(256 * x + b, d, 2 * y + q, r);
  }

  lemma LowerBit(x: nat, b: Byte, j: nat)
    requires j < 8
    ensures (256 * x + b) / Pow2(7 - j) % 2 == b / Pow2(7 - j) % 2
  {
    SmallPowers();
    LowerQuotient(x, b, Pow2(7 - j), Pow2(j));
  }

  /** The first p bits of addresses of w bits, as numbers. */
  ghost predicate SameNet(x: nat, y: nat, w: nat, p: nat)
    requires p <= w
  {
    x / Pow2(w - p) == y / Pow2(w - p)
  }

  /** A key is a prefix of another exactly if both addresses are in the network it stands for. */
  lemma {:induction false} PrefixIsNet(a: seq<Byte>, p: nat, x: seq<Byte>, q: nat)
    requires |a| == |x| && p <= q <= 8 * |x|
    ensures Bits(Key(p, a)) <= Bits(Key(q, x)) <==> SameNet(BigEndian(a), BigEndian(x), 8 * |a|, p)
  {
    var s, t, w := Bits(Key(p, a)), Bits(Key(q, x)), 8 * |a|;
    BigEndianBound(a);
    BigEndianBound(x);
    LeadingBits(BigEndian(a), BigEndian(x), w, p);
    forall i | 0 <= i < p
      ensures s[i] == BitOf(BigEndian(a), w, i) && t[i] == BitOf(BigEndian(x), w, i)
    {
      BitOfAddress(a, i);
      BitOfAddress(x, i);
    }
    assert s <= t <==> forall i | 0 <= i < p :: s[i] == t[i];
  }

  /** Two keys are tied exactly if the shorter one's network holds both addresses. */
  lemma {:induction false} RelatedIsNet(a: seq<Byte>, p: nat, x: seq<Byte>, q: nat)
    requires |a| == |x| && p <= 8 * |a| && q <= 8 * |x|
    ensures Related(Bits(Key(p, a)), Bits(Key(q, x)))
       <==> SameNet(BigEndian(a), BigEndian(x), 8 * |a|, if p <= q then p else q)
  {
    if p <= q { PrefixIsNet(a, p, x, q); } else { PrefixIsNet(x, q, a, p); }
    if p == q { PrefixIsNet(x, q, a, p); }
  }

  // ----- order facts on bit strings -----

  /** Whatever x is, its comparison with two keys in order is monotone. */
  lemma BeforeMonotone(a: seq<bool>, b: seq<bool>, x: seq<bool>)
    requires Before(a, b)
    ensures Before(b, x) || Related(b, x) ==> Before(a, x) || Related(a, x)
    ensures Before(b, x) ==> Before(a, x)
    ensures Before(x, a) ==> Before(x, b)
  {
    var d: nat :| DiffersAt(a, b, d);
    if Before(b, x) {
      var e: nat :| DiffersAt(b, x, e);
      var m := if d < e then d else e;
      assert a[..m] == a[..d][..m] == b[..d][..m] == b[..m] == b[..e][..m] == x[..e][..m] == x[..m];
      assert DiffersAt(a, x, m);
    }
    if Before(x, a) {
      var e: nat :| DiffersAt(x, a, e);
      var m := if d < e then d else e;
      assert x[..m] == x[..e][..m] == a[..e][..m] == a[..m] == a[..d][..m] == b[..d][..m] == b[..m];
      assert DiffersAt(x, b, m);
    }
    if Related(b, x) && |x| > d {
      assert x[..d] == b[..d] && x[d] == b[d];
      assert DiffersAt(a, x, d);
    } else if Related(b, x) {
      assert x == b[..|x|] == b[..d][..|x|] == a[..d][..|x|] == a[..|x|];
    }
  }
}
