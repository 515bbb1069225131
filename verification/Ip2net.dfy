/** upstream/ip2net/ip2net.c: removal of duplicates, the masks, and the loops that replace addresses by subnets. */
module Ip2net {
  import opened BitArith
  import opened Sequences
  import opened Subnets
  import opened Wire
  import QSort

  // ----- unique -----

  /** Each run of equal elements once. */
  ghost function Dedup<T>(s: seq<T>): (r: seq<T>)
    ensures |r| <= |s| && (s != [] ==> r != [] && r[|r| - 1] == s[|s| - 1])
  {
    var n := |s|;
    if n <= 1 then s else if s[n - 1] == s[n - 2] then Dedup(s[..n - 1]) else Dedup(s[..n - 1]) + [s[n - 1]]
  }

  /** A run of equal elements that differ from the one before. */
  ghost predicate Run<T>(s: seq<T>, k: nat, j: nat) {
    k < j <= |s| && (k > 0 ==> s[k - 1] != s[k]) && forall q | k <= q < j :: s[q] == s[k]
  }

  lemma {:induction false} DedupRun<T>(s: seq<T>, k: nat, j: nat)
    requires Run(s, k, j)
    ensures Dedup(s[..j]) == Dedup(s[..k]) + [s[k]]
    decreases j
  {
    var t := s[..j];
    if j == k + 1 {
      assert t[..k] == s[..k];
      if k > 0 { assert t[k - 1] == s[k - 1]; }
    } else {
      assert t[..j - 1] == s[..j - 1] && t[j - 2] == s[j - 2];
      DedupRun(s, k, j - 1);
    }
  }

  /** On a sorted list, deduplication yields the same addresses, each once, in ascending order. */
  lemma {:induction false} DedupSorted(s: seq<nat>)
    requires NonDecreasing(s)
    ensures Ascending(Dedup(s)) && forall x :: x in Dedup(s) <==> x in s
  {
    forall x ensures x in Dedup(s) <==> x in s {
      DedupMembers(s, x);
    }
    DedupAscends(s);
  }

  lemma {:induction false} DedupMembers<T>(s: seq<T>, x: T)
    ensures x in Dedup(s) <==> x in s
  {
    var n := |s|;
    if n > 1 {
      assert s == s[..n - 1] + [s[n - 1]];
      DedupMembers(s[..n - 1], x);
    }
  }

  lemma {:induction false} DedupAscends(s: seq<nat>)
    requires NonDecreasing(s)
    ensures Ascending(Dedup(s))
  {
    var n := |s|;
    if n > 1 {
      var t := s[..n - 1];
      var d := Dedup(t);
      DedupAscends(t);
      if s[n - 1] != s[n - 2] {
        forall i | 0 <= i < |d| ensures d[i] < s[n - 1] {
          DedupMembers(t, d[i]);
          var k :| 0 <= k < |t| && t[k] == d[i];
          assert s[k] <= s[n - 2] <= s[n - 1];
        }
      }
    }
  }

  /** unique: u remembers the element of the run. */
  method Unique<T(==)>(pu: array<T>, ct: nat) returns (i: nat)
    requires ct <= pu.Length
    modifies pu
    ensures i <= ct && pu[..i] == Dedup(old(pu[..ct]))
  {
    i := 0;
    var j := 0;
    ghost var s := pu[..ct];
    while j < ct
      invariant i <= j <= ct && pu[..i] == Dedup(s[..j])
      invariant forall q | j <= q < ct :: pu[q] == s[q]
      invariant 0 < j < ct ==> s[j - 1] != s[j]
    {
      var u := pu[j];
      ghost var k := j;
      j := j + 1;
      while j < ct && pu[j] == u
        invariant Run(s, k, j)
      {
        j := j + 1;
      }
      DedupRun(s, k, j);
      StoreAt(pu, i, u);
      i := i + 1;
    }
    assert s[..ct] == s;
  }

  method StoreAt<T>(pu: array<T>, i: nat, x: T)
    requires i < pu.Length
    modifies pu
    ensures pu[..i + 1] == old(pu[..i]) + [x]
    ensures forall q | i < q < pu.Length :: pu[q] == old(pu[q])
  {
    pu[i] := x;
  }

  /** unique6: k is the index of the first element of the run. */
  method Unique6<T(==)>(pu: array<T>, ct: nat) returns (i: nat)
    requires ct <= pu.Length
    modifies pu
    ensures i <= ct && pu[..i] == Dedup(old(pu[..ct]))
  {
    i := 0;
    var j := 0;
    ghost var s := pu[..ct];
    while j < ct
      invariant i <= j <= ct && pu[..i] == Dedup(s[..j])
      invariant forall q | j <= q < ct :: pu[q] == s[q]
      invariant 0 < j < ct ==> s[j - 1] != s[j]
    {
      var k := j;
      j := j + 1;
      while j < ct && pu[j] == pu[k]
        invariant Run(s, k, j)
      {
        j := j + 1;
      }
      DedupRun(s, k, j);
      StoreAt(pu, i, pu[k]);
      i := i + 1;
    }
    assert s[..ct] == s;
  }

  // ----- masks -----

  /** mask_from_bitcount: ~((1u << zct) - 1) */
  function MaskFromBitcount(zct: nat): (mask: nat)
    ensures zct <= 32 ==> mask == Mask(32, zct)
  {
    Pow2At32();
    if zct < 32 then Pow2Monotone(zct, 32); Not(Pow2(zct) - 1, 32) else 0
  }

  /** The bytes of the mask: 0xFF up to n, then the byte m, then zeros. */
  ghost predicate Bytes(b: seq<nat>, n: nat, m: nat) {
    forall i | 0 <= i < |b| :: b[i] == if i < n then 0xFF else if i == n then m else 0
  }

  lemma {:induction false} OnesValue(b: seq<nat>, n: nat, m: nat)
    requires Bytes(b, n, m) && |b| <= n
    ensures BigEndian(b) == Pow2(8 * |b|) - 1
  {
    if b != [] {
      OnesValue(b[..|b| - 1], n, m);
      Pow2Byte(8 * (|b| - 1));
    }
  }

  lemma {:induction false} BytesValue(b: seq<nat>, n: nat, m: nat, r: nat)
    requires Bytes(b, n, m) && n < |b| && r < 8 && m == 256 - Pow2(r)
    ensures BigEndian(b) + Pow2(r + 8 * (|b| - 1 - n)) == Pow2(8 * |b|)
  {
    Pow2Byte(8 * (|b| - 1));
    if |b| == n + 1 {
      OnesValue(b[..n], n, m);
    } else {
      BytesValue(b[..|b| - 1], n, m, r);
      Pow2Byte(r + 8 * (|b| - 2 - n));
    }
  }

  lemma {:induction false} LowBits(r: nat)
    requires r < 8
    ensures Pow2(r) <= 256 == Pow2(8)
  {
    Pow2Byte(0);
    Pow2Monotone(r, 8);
  }

  lemma {:induction false} CutValue(b: seq<nat>, zct: nat)
    requires zct < 128 && |b| == 16 && Pow2(zct % 8) <= 256 && Bytes(b, (127 - zct) / 8, 256 - Pow2(zct % 8))
    ensures BigEndian(b) == Mask(128, zct)
  {
    var n := (127 - zct) / 8;
    assert zct % 8 + 8 * (15 - n) == zct;
    BytesValue(b, n, 256 - Pow2(zct % 8), zct % 8);
  }

  /** mask_from_bitcount6_make */
  method MaskFromBitcount6Make(zct: nat, a: array<nat>)
    requires zct <= 128 && a.Length == 16
    modifies a
    ensures BigEndian(a[..]) == Mask(128, zct)
  {
    if zct >= 128 {
      forall i | 0 <= i < 16 { a[i] := 0; }
      Zeros(a[..]);
    } else {
      var n := (127 - zct) / 8;
      forall i | 0 <= i < n { a[i] := 0xFF; }
      forall i | n <= i < 16 { a[i] := 0; }
      LowBits(zct % 8);
      var m := Not(Pow2(zct % 8) - 1, 8);
      a[n] := m;
      assert Bytes(a[..], n, m);
      CutValue(a[..], zct);
    }
  }

  lemma {:induction false} Zeros(b: seq<nat>)
    requires forall i | 0 <= i < |b| :: b[i] == 0
    ensures BigEndian(b) == 0
  {
    if b != [] { Zeros(b[..|b| - 1]); }
  }

  /** ip6_mask: the masks for all numbers of zero bits. */
  ghost predicate MaskTable(ip6Mask: seq<nat>) {
    |ip6Mask| == 129 && forall z | 0 <= z <= 128 :: ip6Mask[z] == Mask(128, z)
  }

  /** mask_from_bitcount6_prepare */
  method MaskFromBitcount6Prepare() returns (ip6Mask: seq<nat>)
    ensures MaskTable(ip6Mask)
  {
    ip6Mask := [];
    var zct: nat := 0;
    while zct <= 128
      invariant zct == |ip6Mask| <= 129 && forall z | 0 <= z < zct :: ip6Mask[z] == Mask(128, z)
    {
      var a := new nat[16];
      MaskFromBitcount6Make(zct, a);
      ip6Mask, zct := ip6Mask + [BigEndian(a[..])], zct + 1;
    }
  }

  // ----- the search for a subnet -----

  /** The inner loop of the IPv4 search. */
  method CountV4(iplist: array<nat>, ipct: nat, pos: nat, ipEnd: nat, ghost z: nat) returns (p: nat, ct: nat)
    requires pos < ipct <= iplist.Length && Ascending(iplist[..ipct])
    requires ipEnd == StartOf(iplist[pos], z) + Pow2(z) - 1
    ensures p == End(iplist[..ipct], pos, z) && ct == p - pos
  {
    ghost var s := iplist[..ipct];
    p, ct := pos + 1, 1;
    EndMeaning(s, pos, z, pos);
    while p < ipct && iplist[p] <= ipEnd
      invariant pos < p <= End(s, pos, z) && ct == p - pos
    {
      assert iplist[p] == s[p];
      CountStep(s, pos, z, p);
      p, ct := p + 1, ct + 1;
    }
    if p < ipct {
      assert iplist[p] == s[p];
      CountStep(s, pos, z, p);
    }
  }

  /** An address is in the subnet exactly if it is not above its last one. */
  lemma {:induction false} CountStep(s: seq<nat>, pos: nat, z: nat, p: nat)
    requires Ascending(s) && pos <= p < |s|
    ensures p < End(s, pos, z) <==> s[p] <= StartOf(s[pos], z) + Pow2(z) - 1
  {
    EndMeaning(s, pos, z, p);
    ShrRange(s[p], z, Shr(s[pos], z));
    ShrRange(s[pos], z, Shr(s[pos], z));
    assert pos < p ==> s[pos] < s[p];
  }

  /** The inner loop of the IPv6 search: it compares masked addresses. */
  method CountV6(iplist: array<nat>, ipct: nat, pos: nat, mask: nat, ipStart: nat, ghost z: nat)
    returns (p: nat, ct: nat)
    requires pos < ipct <= iplist.Length && Ascending(iplist[..ipct]) && z <= 128 && mask == Mask(128, z)
    requires forall i | 0 <= i < ipct :: iplist[i] < Pow2(128)
    requires ipStart == StartOf(iplist[pos], z)
    ensures p == End(iplist[..ipct], pos, z) && ct == p - pos
  {
    ghost var s := iplist[..ipct];
    p, ct := pos + 1, 1;
    EndMeaning(s, pos, z, pos);
    while p < ipct
      invariant pos < p <= End(s, pos, z) && ct == p - pos && p <= ipct
    {
      var ip := And(iplist[p], mask);
      assert iplist[p] == s[p];
      SameMasked(s[pos], s[p], z);
      EndMeaning(s, pos, z, p);
      if ipStart != ip {
        break;
      }
      p, ct := p + 1, ct + 1;
    }
  }

  lemma {:induction false} SameMasked(x: nat, y: nat, z: nat)
    requires y < Pow2(128) && z <= 128
    ensures And(y, Mask(128, z)) == StartOf(x, z) <==> Shr(y, z) == Shr(x, z)
  {
    AndMask(y, 128, z);
    ShrStart(x, z);
    ShrStart(y, z);
  }

  /** The best candidate so far: its zero bits, 0 if there is none, its count and its end. */
  datatype Best = Best(zct: nat, ipCt: nat, end: nat)

  /** The candidates with more than zct zero bits were tried. */
  ghost predicate Searched(s: seq<nat>, c: Config, pos: nat, zct: int, best: Best)
    requires ValidConfig(c) && pos < |s|
  {
    match best
    case Best(zctBest, ipCtBest, posEnd) =>
      && (zctBest == 0 <==> ipCtBest == 0)
      && (zctBest == 0 ==> forall z | zct < z <= c.zmax && c.zmin <= z :: !Qualifies(s, c, pos, z))
      && (zctBest != 0 ==>
            && zct < zctBest <= c.zmax && c.zmin <= zctBest && Qualifies(s, c, pos, zctBest)
            && posEnd == End(s, pos, zctBest) == pos + ipCtBest
            && (forall z | zct < z <= c.zmax && c.zmin <= z && Qualifies(s, c, pos, z) :: End(s, pos, z) <= posEnd)
            && forall z | zct < z < zctBest && c.zmin <= z && Qualifies(s, c, pos, z) :: End(s, pos, z) < posEnd)
  }

  /** The subnets inside one with a single address, or inside one with fewer addresses, cannot be better. */
  lemma SearchBreaks(s: seq<nat>, c: Config, pos: nat, zct: nat, best: Best)
    requires ValidConfig(c) && Ascending(s) && pos < |s| && Searched(s, c, pos, zct, best)
    requires End(s, pos, zct) == pos + 1 || (best.zct != 0 && End(s, pos, zct) < best.end)
    ensures Searched(s, c, pos, 0, best)
  {
    forall z | 0 <= z <= zct ensures End(s, pos, z) <= End(s, pos, zct) {
      EndMonotone(s, pos, z, zct);
    }
  }

  lemma SearchEnds(s: seq<nat>, c: Config, pos: nat, zct: int, best: Best, end: nat)
    requires ValidConfig(c) && Ascending(s) && pos < |s| && zct < c.zmin && Searched(s, c, pos, zct, best)
    requires end == if best.zct != 0 then best.end else pos + 1
    ensures Chosen(s, c, pos, best.zct, end)
  {
    EndMeaning(s, pos, 0, pos);
    if pos + 1 < |s| { EndMeaning(s, pos, 0, pos + 1); }
  }

  /** The comparison of one counted candidate with the best one so far. */
  lemma SearchCounted(s: seq<nat>, c: Config, pos: nat, zct: nat, best: Best, e: nat, ct: nat)
    requires ValidConfig(c) && Ascending(s) && pos < |s| && Searched(s, c, pos, zct, best)
    requires c.zmin <= zct <= c.zmax && !Skips(c, s[pos], zct) && e == End(s, pos, zct) && e == pos + ct
    ensures ct >= 2 && ct >= Threshold(c, zct) ==>
              if best.zct == 0 || ct == best.ipCt then Searched(s, c, pos, zct - 1, Best(zct, ct, e)) else e < best.end
    ensures ct < Threshold(c, zct) ==> Searched(s, c, pos, zct - 1, best)
  {
    if best.zct != 0 { EndMonotone(s, pos, zct, best.zct); }
  }

  lemma SearchSkips(s: seq<nat>, c: Config, pos: nat, zct: nat, best: Best)
    requires ValidConfig(c) && pos < |s| && Searched(s, c, pos, zct, best) && Skips(c, s[pos], zct)
    ensures Searched(s, c, pos, zct - 1, best)
  {
  }

  lemma {:induction false} InvertedMask(z: nat)
    requires z < 32
    ensures Mask(32, z) < Pow2(32) && Not(Mask(32, z), 32) == Pow2(z) - 1
  {
    Pow2Monotone(z, 32);
  }

  /** ip & mask, ~mask + 1 and start | ~mask in terms of the aligned interval. */
  lemma {:induction false} SubnetValues(ip: nat, z: nat, mask: nat)
    requires z < 32 && ip < Pow2(32) && mask == Mask(32, z)
    ensures mask < Pow2(32) && And(ip, mask) == StartOf(ip, z) && Not(mask, 32) + 1 == Pow2(z)
    ensures Or(StartOf(ip, z), Not(mask, 32)) == StartOf(ip, z) + Pow2(z) - 1
  {
    AndMask(ip, 32, z);
    InvertedMask(z);
    OrLow(Shr(ip, z), z);
  }

  /** The values computed for one candidate: the shortcut, the last address, the number of addresses needed. */
  method CandidateV4(ip: nat, zct: nat, c: Config) returns (skip: bool, ipEnd: nat, need: nat)
    requires ValidConfig(c) && c.V4? && zct <= c.zmax && ip < Pow2(32)
    ensures skip == Skips(c, ip, zct) && need == Threshold(c, zct)
    ensures ipEnd == StartOf(ip, zct) + Pow2(zct) - 1
  {
    var mask := MaskFromBitcount(zct);
    SubnetValues(ip, zct, mask);
    var ipStart := And(ip, mask);
    var subnetCt := Not(mask, 32) + 1;
    skip := TooHigh(c, ip, ipStart, subnetCt);
    ipEnd := Or(ipStart, Not(mask, 32));
    need := Needed(c, subnetCt);
  }

  /** The search of the IPv4 loop for the subnet at pos. */
  method SearchV4(iplist: array<nat>, ipct: nat, pos: nat, c: Config) returns (zctBest: nat, posEnd: nat)
    requires ValidConfig(c) && c.V4? && pos < ipct <= iplist.Length && Addresses(iplist[..ipct], c)
    ensures Chosen(iplist[..ipct], c, pos, zctBest, posEnd)
  {
    ghost var s := iplist[..ipct];
    var ipCtBest: nat := 0;
    var zct: int := c.zmax;
    ghost var searched := zct;
    zctBest, posEnd := 0, pos + 1;
    assert s[pos] == iplist[pos];
    while zct >= c.zmin
      invariant searched == zct <= c.zmax && Searched(s, c, pos, searched, Best(zctBest, ipCtBest, posEnd))
    {
      var skip, ipEnd, need := CandidateV4(iplist[pos], zct, c);
      if skip {
        SearchSkips(s, c, pos, zct, Best(zctBest, ipCtBest, posEnd));
        zct, searched := zct - 1, searched - 1;
        continue;
      }
      var p, ipCt := CountV4(iplist, ipct, pos, ipEnd, zct);
      SearchCounted(s, c, pos, zct, Best(zctBest, ipCtBest, posEnd), p, ipCt);
      if ipCt == 1 {
        SearchBreaks(s, c, pos, zct, Best(zctBest, ipCtBest, posEnd));
        searched := 0;
        break;
      }
      if ipCt >= need {
        if ipCtBest == 0 || ipCt == ipCtBest {
          ipCtBest, zctBest, posEnd := ipCt, zct, p;
        } else {
          SearchBreaks(s, c, pos, zct, Best(zctBest, ipCtBest, posEnd));
          searched := 0;
          break;
        }
      }
      zct, searched := zct - 1, searched - 1;
    }
    ghost var best := Best(zctBest, ipCtBest, posEnd);
    if zctBest == 0 {
      posEnd := pos + 1;
    }
    SearchEnds(s, c, pos, searched, best, posEnd);
  }

  /** The search of the IPv6 loop. */
  method SearchV6(iplist: array<nat>, ipct: nat, pos: nat, c: Config, ip6Mask: seq<nat>)
    returns (zctBest: nat, posEnd: nat)
    requires ValidConfig(c) && c.V6? && pos < ipct <= iplist.Length && Addresses(iplist[..ipct], c) &&
             MaskTable(ip6Mask)
    ensures Chosen(iplist[..ipct], c, pos, zctBest, posEnd)
  {
    ghost var s := iplist[..ipct];
    var ipCtBest: nat := 0;
    var zct: int := c.zmax;
    ghost var searched := zct;
    zctBest, posEnd := 0, pos + 1;
    assert s[pos] == iplist[pos];
    while zct >= c.zmin
      invariant searched == zct <= c.zmax && Searched(s, c, pos, searched, Best(zctBest, ipCtBest, posEnd))
    {
      var mask := ip6Mask[zct];
      AndMask(iplist[pos], 128, zct);
      var ipStart := And(iplist[pos], mask);
      var p, ipCt := CountV6(iplist, ipct, pos, mask, ipStart, zct);
      SearchCounted(s, c, pos, zct, Best(zctBest, ipCtBest, posEnd), p, ipCt);
      if ipCt == 1 {
        SearchBreaks(s, c, pos, zct, Best(zctBest, ipCtBest, posEnd));
        searched := 0;
        break;
      }
      if ipCt >= c.threshold {
        if ipCtBest == 0 || ipCt == ipCtBest {
          ipCtBest, zctBest, posEnd := ipCt, zct, p;
        } else {
          SearchBreaks(s, c, pos, zct, Best(zctBest, ipCtBest, posEnd));
          searched := 0;
          break;
        }
      }
      zct, searched := zct - 1, searched - 1;
    }
    ghost var best := Best(zctBest, ipCtBest, posEnd);
    if zctBest == 0 {
      posEnd := pos + 1;
    }
    SearchEnds(s, c, pos, searched, best, posEnd);
  }

  // ----- the program -----

  /** ucmp */
  function Ucmp(a: nat, b: nat): (r: int)
    ensures r < 0 <==> a < b
    ensures r > 0 <==> a > b
  {
    if a < b then -1 else if a > b then 1 else 0
  }

  /** cmp6: the upper 64 bits in host order, then the lower ones */
  function Cmp6(a: nat, b: nat): (r: int)
    ensures r < 0 <==> a < b
    ensures r > 0 <==> a > b
  {
    var base := 0x1_0000_0000_0000_0000;
    if a / base < b / base then -1 else if a / base > b / base then 1
    else if a % base < b % base then -1 else if a % base > b % base then 1 else 0
  }

  /** The subnet of an address in the output loop. */
  method NetStart(ip: nat, zct: nat, c: Config, ip6Mask: seq<nat>) returns (ipStart: nat)
    requires ValidConfig(c) && zct <= c.zmax && ip < Pow2(Width(c)) && (c.V6? ==> MaskTable(ip6Mask))
    ensures ipStart == StartOf(ip, zct)
  {
    if zct == 0 {
      ipStart := ip;
    } else {
      AndMask(ip, Width(c), zct);
      ipStart := And(ip, if c.V4? then MaskFromBitcount(zct) else ip6Mask[zct]);
    }
  }

  /** Replaces the addresses, sorted and without duplicates, by subnets where there are enough of them. */
  method Group(iplist: array<nat>, ipct: nat, c: Config, ip6Mask: seq<nat>)
    returns (out: seq<Net>, ghost cuts: seq<nat>)
    requires ValidConfig(c) && ipct <= iplist.Length && Addresses(iplist[..ipct], c) && (c.V6? ==> MaskTable(ip6Mask))
    ensures Grouped(iplist[..ipct], c, out, cuts) && cuts[|out|] == ipct
  {
    ghost var s := iplist[..ipct];
    var pos := 0;
    out, cuts := [], [0];
    while pos < ipct
      invariant pos <= ipct && Grouped(s, c, out, cuts) && cuts[|out|] == pos
    {
      var zctBest, posEnd;
      if c.V4? {
        zctBest, posEnd := SearchV4(iplist, ipct, pos, c);
      } else {
        zctBest, posEnd := SearchV6(iplist, ipct, pos, c, ip6Mask);
      }
      assert iplist[pos] == s[pos];
      var ipStart := NetStart(iplist[pos], zctBest, c, ip6Mask);
      GroupedStep(s, c, out, cuts, zctBest, posEnd);
      out, cuts := out + [Net(ipStart, zctBest)], cuts + [posEnd];
      pos := posEnd;
    }
  }

  lemma GroupedStep(s: seq<nat>, c: Config, out: seq<Net>, cuts: seq<nat>, z: nat, end: nat)
    requires Grouped(s, c, out, cuts) && Ascending(s) && cuts[|out|] < |s| && Chosen(s, c, cuts[|out|], z, end)
    ensures Grouped(s, c, out + [Net(StartOf(s[cuts[|out|]], z), z)], cuts + [end])
  {
    EndMonotone(s, cuts[|out|], z, z);
  }

  /** What is printed for the addresses in s: nets that cover every address, disjoint and in ascending order, and a
      subnet only where it holds at least two given addresses and the required number of them. */
  ghost predicate Summary(c: Config, out: seq<Net>, s: seq<nat>)
    requires ValidConfig(c)
  {
    && (forall x | x in s :: exists k | 0 <= k < |out| :: Inside(x, out[k]))
    && (forall j, k | 0 <= j < k < |out| :: out[j].start + Pow2(out[j].zct) <= out[k].start)
    && forall k | 0 <= k < |out| :: Needs(c, out[k], s)
  }

  ghost predicate Needs(c: Config, net: Net, s: seq<nat>)
    requires ValidConfig(c)
  {
    match net
    case Net(start, zct) =>
      var held := set x | x in s && Inside(x, net);
      if zct == 0 then held == {start} else |held| >= 2 && |held| >= Threshold(c, zct)
  }

  /** Sorts and removes duplicates. */
  method SortUnique(iplist: array<nat>, c: Config) returns (ipct: nat)
    requires ValidConfig(c) && iplist.Length < 0x1_0000_0000
    modifies iplist
    ensures ipct <= iplist.Length && Ascending(iplist[..ipct])
    ensures forall x :: x in iplist[..ipct] <==> x in old(iplist[..])
  {
    ghost var s0 := iplist[..];
    if c.V4? {
      QSort.GnuQuicksort(iplist, Ucmp);
      SameMembers(s0, iplist[..]);
      assert iplist[..iplist.Length] == iplist[..];
      DedupSorted(iplist[..]);
      ipct := Unique(iplist, iplist.Length);
    } else {
      QSort.GnuQuicksort(iplist, Cmp6);
      SameMembers(s0, iplist[..]);
      assert iplist[..iplist.Length] == iplist[..];
      DedupSorted(iplist[..]);
      ipct := Unique6(iplist, iplist.Length);
    }
  }

  /** The whole program on a list of addresses. */
  method Summarise(iplist: array<nat>, c: Config) returns (out: seq<Net>, ghost s: seq<nat>, ghost cuts: seq<nat>)
    requires ValidConfig(c) && iplist.Length < 0x1_0000_0000
    requires forall i | 0 <= i < iplist.Length :: iplist[i] < Pow2(Width(c))
    modifies iplist
    ensures Addresses(s, c) && forall x :: x in s <==> x in old(iplist[..])
    ensures Grouped(s, c, out, cuts) && cuts[|out|] == |s| && Summary(c, out, s)
  {
    ghost var s0 := iplist[..];
    var ipct := SortUnique(iplist, c);
    s := iplist[..ipct];
    forall i | 0 <= i < |s| ensures s[i] < Pow2(Width(c)) {
      assert s[i] in s0;
    }
    var ip6Mask := [];
    if c.V6? {
      ip6Mask := MaskFromBitcount6Prepare();
    }
    out, cuts := Group(iplist, ipct, c, ip6Mask);
    SummaryMeaning(c, out, s, cuts);
  }

  lemma SameMembers<T>(s: seq<T>, t: seq<T>)
    requires multiset(s) == multiset(t)
    ensures forall x :: x in s <==> x in t
  {
    forall x ensures x in s <==> x in t {
      assert x in s <==> x in multiset(s);
      assert x in t <==> x in multiset(t);
    }
  }

  /** The grouping amounts to that. */
  lemma SummaryMeaning(c: Config, out: seq<Net>, s: seq<nat>, cuts: seq<nat>)
    requires Addresses(s, c) && Grouped(s, c, out, cuts) && cuts[|out|] == |s|
    ensures Summary(c, out, s)
  {
    forall x | x in s ensures exists k | 0 <= k < |out| :: Inside(x, out[k]) {
      var q :| 0 <= q < |s| && s[q] == x;
      var k := CoveredOnce(s, c, out, cuts, q);
      assert Inside(x, out[k]);
    }
    forall j, k | 0 <= j < k < |out| ensures out[j].start + Pow2(out[j].zct) <= out[k].start {
      NetsAscend(s, c, out, cuts, j, k);
    }
    forall k | 0 <= k < |out| ensures Needs(c, out[k], s) {
      HeldCount(c, out, s, cuts, k);
    }
  }

  lemma HeldAre(c: Config, out: seq<Net>, s: seq<nat>, cuts: seq<nat>, k: nat, x: nat)
    requires Addresses(s, c) && Grouped(s, c, out, cuts) && cuts[|out|] == |s| && k < |out|
    requires cuts[k] < cuts[k + 1] <= |s|
    ensures x in s && Inside(x, out[k]) <==> x in s[cuts[k]..cuts[k + 1]]
  {
    var a, b := cuts[k], cuts[k + 1];
    if x in s {
      var q :| 0 <= q < |s| && s[q] == x;
      GroupHolds(s, c, out, cuts, k, q);
      if a <= q < b { assert s[a..b][q - a] == x; }
    }
    if x in s[a..b] {
      var r :| 0 <= r < b - a && s[a..b][r] == x;
      assert s[a + r] == x;
      GroupHolds(s, c, out, cuts, k, a + r);
    }
  }

  lemma HeldCount(c: Config, out: seq<Net>, s: seq<nat>, cuts: seq<nat>, k: nat)
    requires Addresses(s, c) && Grouped(s, c, out, cuts) && cuts[|out|] == |s| && k < |out|
    ensures Needs(c, out[k], s)
  {
    var held := set x | x in s && Inside(x, out[k]);
    var a, b := cuts[k], cuts[k + 1];
    assert a < b && b <= cuts[|out|];
    var t := s[a..b];
    forall x: nat ensures x in held <==> x in t {
      HeldAre(c, out, s, cuts, k, x);
    }
    AscendingSlice(s, a, b);
    DistinctCount(t, held);
    if out[k].zct == 0 {
      assert out[k].start == s[a];
      if a + 1 < |s| { EndMeaning(s, a, 0, a + 1); }
      assert t == [s[a]];
    }
  }

  lemma AscendingSlice(s: seq<nat>, a: nat, b: nat)
    requires Ascending(s) && a <= b <= |s|
    ensures Ascending(s[a..b])
  {
    var t := s[a..b];
    forall i, j | 0 <= i < j < |t| ensures t[i] < t[j] {
      assert t[i] == s[a + i] && t[j] == s[a + j];
    }
  }

  lemma {:induction false} DistinctCount(t: seq<nat>, h: set<nat>)
    requires Ascending(t) && forall x: nat :: x in h <==> x in t
    ensures |h| == |t|
  {
    var n := |t|;
    if n == 0 {
      assert h == {};
    } else {
      assert t == t[..n - 1] + [t[n - 1]];
      AscendingSlice(t, 0, n - 1);
      assert t[0..n - 1] == t[..n - 1];
      DistinctCount(t[..n - 1], h - {t[n - 1]});
    }
  }
}
