/** What the grouping loops of upstream/ip2net/ip2net.c look for, and what their choices add up to. */
module Subnets {
  import opened BitArith
  import opened Sequences
  import opened Wire

  /** The parameters parse_params accepts; zct is the number of zero bits of a mask. */
  datatype Config =
    | V4(mult: nat, div: nat, zmin: nat, zmax: nat)
    | V6(threshold: nat, zmin: nat, zmax: nat)

  /** A printed line: the addresses with the upper bits of start. No zero bits: a single address. */
  datatype Net = Net(start: nat, zct: nat)

  function Width(c: Config): nat {
    if c.V4? then 32 else 128
  }

  ghost predicate ValidConfig(c: Config) {
    && 1 <= c.zmin <= c.zmax < Width(c)
    && if c.V4? then 1 <= c.mult < c.div < 0x1_0000_0000 else 1 <= c.threshold < 0x1_0000_0000
  }

  /** In ascending order, each once. */
  ghost predicate Addresses(s: seq<nat>, c: Config) {
    Ascending(s) && forall i | 0 <= i < |s| :: s[i] < Pow2(Width(c))
  }

  // ----- one candidate: the subnet of s[pos] with z zero bits -----

  function StartOf(ip: nat, z: nat): nat {
    Shl(Shr(ip, z), z)
  }

  ghost predicate Inside(ip: nat, net: Net) {
    Shr(ip, net.zct) == Shr(net.start, net.zct)
  }

  /** The IPv4 shortcut: the address is so high in the subnet that the rest of it cannot fill it. */
  predicate TooHigh(c: Config, ip: nat, start: nat, size: nat)
    requires c.V4? && 1 <= c.mult < c.div
  {
    ip > U32(start + U32(size * (c.div - c.mult)) / c.div)
  }

  function Needed(c: Config, size: nat): nat
    requires c.V4? && c.div > 0
  {
    U32(size * c.mult) / c.div
  }

  ghost predicate Skips(c: Config, ip: nat, z: nat): (yes: bool)
    requires ValidConfig(c)
    ensures c.V6? ==> !yes
    ensures c.V4? ==>
              (yes <==> ip > (StartOf(ip, z) + Pow2(z) * (c.div - c.mult) % 0x1_0000_0000 / c.div) % 0x1_0000_0000)
  {
    c.V4? && TooHigh(c, ip, StartOf(ip, z), Pow2(z))
  }

  /** How many addresses a candidate must hold: the fraction of it, or the number for IPv6. */
  ghost function Threshold(c: Config, z: nat): (n: nat)
    requires ValidConfig(c)
    ensures n == if c.V6? then c.threshold else Pow2(z) * c.mult % 0x1_0000_0000 / c.div
  {
    if c.V4? then Needed(c, Pow2(z)) else c.threshold
  }

  ghost function EndFrom(s: seq<nat>, p: nat, z: nat, k: nat): (e: nat)
    requires p <= |s|
    ensures p <= e <= |s|
    decreases |s| - p
  {
    if p < |s| && Shr(s[p], z) == k then EndFrom(s, p + 1, z, k) else p
  }

  /** The end of the addresses counted for the candidate: from pos on, as long as they are in the subnet. */
  ghost function End(s: seq<nat>, pos: nat, z: nat): (e: nat)
    requires pos < |s|
  {
    EndFrom(s, pos, z, Shr(s[pos], z))
  }

  lemma {:induction false} EndFromMeaning(s: seq<nat>, p: nat, z: nat, k: nat, q: nat)
    requires Ascending(s) && p <= q < |s| && (p < |s| ==> Shr(s[p], z) >= k)
    ensures q < EndFrom(s, p, z, k) <==> Shr(s[q], z) == k
    decreases |s| - p
  {
    if Shr(s[p], z) == k {
      if p < q {
        ShrMonotone(s[p], s[p + 1], z);
        EndFromMeaning(s, p + 1, z, k, q);
      }
    } else if p < q {
      ShrMonotone(s[p], s[q], z);
    }
  }

  /** Counting from pos on finds exactly the addresses of the subnet that are not before pos. */
  lemma {:induction false} EndMeaning(s: seq<nat>, pos: nat, z: nat, q: nat)
    requires Ascending(s) && pos <= q < |s|
    ensures q < End(s, pos, z) <==> Shr(s[q], z) == Shr(s[pos], z)
  {
    EndFromMeaning(s, pos, z, Shr(s[pos], z), q);
  }

  lemma EndMonotone(s: seq<nat>, pos: nat, y: nat, z: nat)
    requires Ascending(s) && pos < |s| && y <= z
    ensures pos < End(s, pos, y) <= End(s, pos, z)
  {
    var e := End(s, pos, y);
    EndMeaning(s, pos, y, pos);
    EndMeaning(s, pos, y, e - 1);
    ShrMore(s[e - 1], s[pos], y, z);
    EndMeaning(s, pos, z, e - 1);
  }

  ghost predicate Qualifies(s: seq<nat>, c: Config, pos: nat, z: nat)
    requires ValidConfig(c) && pos < |s|
  {
    !Skips(c, s[pos], z) && End(s, pos, z) - pos >= 2 && End(s, pos, z) - pos >= Threshold(c, z)
  }

  /** The smallest candidate with the most addresses among those that qualify; 0 if none does. */
  ghost predicate Chosen(s: seq<nat>, c: Config, pos: nat, zbest: nat, end: nat)
    requires ValidConfig(c) && pos < |s|
  {
    && end == End(s, pos, zbest)
    && (zbest == 0 ==> forall z | c.zmin <= z <= c.zmax :: !Qualifies(s, c, pos, z))
    && (zbest != 0 ==>
          && c.zmin <= zbest <= c.zmax && Qualifies(s, c, pos, zbest)
          && (forall z | c.zmin <= z <= c.zmax && Qualifies(s, c, pos, z) :: End(s, pos, z) <= end)
          && forall z | c.zmin <= z < zbest && Qualifies(s, c, pos, z) :: End(s, pos, z) < end)
  }

  // ----- the groups -----

  /** The printed nets and the positions they start at. */
  ghost predicate Grouped(s: seq<nat>, c: Config, out: seq<Net>, cuts: seq<nat>) {
    && ValidConfig(c) && |cuts| == |out| + 1 && cuts[0] == 0 && cuts[|out|] <= |s|
    && (forall k | 0 <= k < |out| :: cuts[k] < cuts[k + 1])
    && (forall k, m | 0 <= k <= m <= |out| :: cuts[k] <= cuts[m])
    && forall k | 0 <= k < |out| ::
         && Chosen(s, c, cuts[k], out[k].zct, cuts[k + 1])
         && out[k].start == StartOf(s[cuts[k]], out[k].zct)
  }

  /** A subnet chosen at pos holds no earlier address, though only the addresses from pos on were counted: had it
      held one, the earlier step would have seen more addresses in it, and chosen it or a wider one. */
  lemma {:induction false} NoEarlier(s: seq<nat>, c: Config, pos0: nat, z0: nat, end0: nat, pos: nat, z: nat,
                                     end: nat, q: nat)
    requires ValidConfig(c) && Ascending(s) && pos0 <= q < end0 <= pos < |s|
    requires Chosen(s, c, pos0, z0, end0) && Chosen(s, c, pos, z, end)
    ensures Shr(s[q], z) != Shr(s[pos], z)
  {
    if Shr(s[q], z) == Shr(s[pos], z) {
      EndMeaning(s, pos0, z0, q);
      EndMeaning(s, pos0, z0, pos);
      if z <= z0 {
        ShrMore(s[q], s[pos], z, z0);
      } else {
        ShrMore(s[q], s[pos0], z0, z);
        EarlierQualifies(s, c, pos0, pos, z);
        EndMonotone(s, pos0, z0, z);
        EndMeaning(s, pos0, z, pos);
      }
    }
  }

  lemma {:induction false} EarlierQualifies(s: seq<nat>, c: Config, pos0: nat, pos: nat, z: nat)
    requires ValidConfig(c) && Ascending(s) && pos0 < pos < |s|
    requires Qualifies(s, c, pos, z) && Shr(s[pos0], z) == Shr(s[pos], z)
    ensures Qualifies(s, c, pos0, z) && End(s, pos0, z) >= End(s, pos, z)
  {
    var e := End(s, pos, z);
    EndMeaning(s, pos, z, e - 1);
    EndMeaning(s, pos0, z, e - 1);
  }

  lemma {:induction false} ShrStart(ip: nat, z: nat)
    ensures Shr(StartOf(ip, z), z) == Shr(ip, z)
  {
    ShrRange(StartOf(ip, z), z, Shr(ip, z));
  }

  lemma {:induction false} GroupOf(cuts: seq<nat>, n: nat, q: nat) returns (m: nat)
    requires n < |cuts| && cuts[0] == 0 && q < cuts[n]
    ensures m < n && cuts[m] <= q < cuts[m + 1]
  {
    if cuts[n - 1] <= q { m := n - 1; } else { m := GroupOf(cuts, n - 1, q); }
  }

  /** A printed net holds exactly the addresses from its cut to the next: those counted, none before, none after. */
  lemma GroupHolds(s: seq<nat>, c: Config, out: seq<Net>, cuts: seq<nat>, k: nat, q: nat)
    requires Grouped(s, c, out, cuts) && Ascending(s) && k < |out| && q < |s|
    ensures Inside(s[q], out[k]) <==> cuts[k] <= q < cuts[k + 1]
  {
    var pos, z := cuts[k], out[k].zct;
    assert cuts[k] < cuts[k + 1] && cuts[k + 1] <= cuts[|out|];
    ShrStart(s[pos], z);
    if q < pos {
      var m := GroupOf(cuts, k, q);
      NoEarlier(s, c, cuts[m], out[m].zct, cuts[m + 1], pos, z, cuts[k + 1], q);
    } else {
      EndMeaning(s, pos, z, q);
    }
  }

  /** Every address is in exactly one printed net. */
  lemma CoveredOnce(s: seq<nat>, c: Config, out: seq<Net>, cuts: seq<nat>, q: nat) returns (k: nat)
    requires Grouped(s, c, out, cuts) && Ascending(s) && cuts[|out|] == |s| && q < |s|
    ensures k < |out| && forall m | 0 <= m < |out| :: Inside(s[q], out[m]) <==> m == k
  {
    k := GroupOf(cuts, |out|, q);
    forall m | 0 <= m < |out| ensures Inside(s[q], out[m]) <==> m == k {
      GroupHolds(s, c, out, cuts, m, q);
      if m < k { assert cuts[m + 1] <= cuts[k]; } else if k < m { assert cuts[k + 1] <= cuts[m]; }
    }
  }

  /** The subnet with more zero bits holds the one with fewer. */
  lemma {:induction false} StartNested(ip: nat, z: nat, v: nat)
    requires z <= v
    ensures StartOf(ip, v) <= StartOf(ip, z) && StartOf(ip, z) + Pow2(z) <= StartOf(ip, v) + Pow2(v)
  {
    var k, a := Shr(ip, z), StartOf(ip, z);
    var b := a + Pow2(z) - 1;
    ShrRange(a, z, k);
    ShrRange(b, z, k);
    ShrMore(a, ip, z, v);
    ShrMore(b, ip, z, v);
    ShrRange(a, v, Shr(ip, v));
    ShrRange(b, v, Shr(ip, v));
  }

  lemma {:induction false} ApartAt(x: nat, y: nat, v: nat)
    requires x < y && Shr(x, v) != Shr(y, v)
    ensures StartOf(x, v) + Pow2(v) <= StartOf(y, v)
  {
    ShrMonotone(x, y, v);
    ShlSucc(Shr(x, v), v);
    ShlMonotone(Shr(x, v) + 1, Shr(y, v), v);
  }

  /** The printed nets are disjoint and in ascending order: one ends before the next begins. */
  lemma NetsAscend(s: seq<nat>, c: Config, out: seq<Net>, cuts: seq<nat>, j: nat, k: nat)
    requires Grouped(s, c, out, cuts) && Ascending(s) && j < k < |out|
    ensures out[j].start + Pow2(out[j].zct) <= out[k].start
  {
    assert cuts[j] < cuts[j + 1] && cuts[j + 1] <= cuts[k] && cuts[k] < cuts[k + 1] && cuts[k + 1] <= cuts[|out|];
    var x, y, zx, zy := s[cuts[j]], s[cuts[k]], out[j].zct, out[k].zct;
    GroupHolds(s, c, out, cuts, j, cuts[k]);
    GroupHolds(s, c, out, cuts, k, cuts[j]);
    ShrStart(x, zx);
    ShrStart(y, zy);
    if zx <= zy {
      ApartAt(x, y, zy);
      StartNested(x, zx, zy);
    } else {
      ApartAt(x, y, zx);
      StartNested(y, zy, zx);
    }
  }

  /** The addresses counted are distinct and lie in the subnet, so they are no more than the room above the first. */
  lemma {:induction false} CountBound(s: seq<nat>, pos: nat, z: nat)
    requires Ascending(s) && pos < |s|
    ensures End(s, pos, z) - pos <= StartOf(s[pos], z) + Pow2(z) - s[pos]
  {
    var e := End(s, pos, z);
    EndMonotone(s, pos, z, z);
    EndMeaning(s, pos, z, e - 1);
    ShrRange(s[e - 1], z, Shr(s[pos], z));
    Spread(s, pos, e - 1);
  }

  lemma {:induction false} Spread(s: seq<nat>, i: nat, j: nat)
    requires Ascending(s) && i <= j < |s|
    ensures s[j] >= s[i] + (j - i)
    decreases j
  {
    if i < j { Spread(s, i, j - 1); }
  }

  // ----- the IPv4 shortcut -----

  /** No product of a subnet size with a percentage part overflows 32 bits. */
  ghost predicate NoOverflow(c: Config) {
    c.V4? ==> Pow2(c.zmax) * c.div < 0x1_0000_0000
  }

  lemma {:induction false} ProductFits(c: Config, z: nat)
    requires ValidConfig(c) && c.V4? && NoOverflow(c) && z <= c.zmax
    ensures Pow2(z) * c.mult <= Pow2(z) * c.div < 0x1_0000_0000 && Pow2(z) * (c.div - c.mult) < 0x1_0000_0000
  {
    Pow2Monotone(z, c.zmax);
    MulMonotone(Pow2(z), Pow2(c.zmax), c.div);
    MulMonotone(c.mult, c.div, Pow2(z));
    MulMonotone(c.div - c.mult, c.div, Pow2(z));
  }

  /** The size rounded up minus the count needed: where floor and ceiling agree, the two parts make the whole. */
  lemma PartsOfSize(t: nat, mult: nat, div: nat)
    requires 1 <= mult < div && t >= 1
    ensures t * mult / div < t
    ensures t * (div - mult) / div == t - t * mult / div - (if t * mult % div == 0 then 0 else 1)
  {
    var m, d := t * mult, div;
    var q, r := m / d, m % d;
    assert m == q * d + r;
    assert t * (d - mult) == t * d - m;
    assert m < t * d by { StrictMul(t, mult, d); }
    if q >= t { MulMonotone(t, q, d); }
    var n := t - q - (if r == 0 then 0 else 1);
    var r' := if r == 0 then 0 else d - r;
    assert n * d + r' == t * d - m by { Expand(t, q, d, r); }
    QuotientIs(t * d - m, d, n, r');
  }

  lemma StrictMul(t: nat, a: nat, b: nat)
    requires a < b && t >= 1
    ensures t * a < t * b
  {
  }

  lemma Expand(t: int, q: int, d: int, r: int)
    ensures (t - q) * d == t * d - q * d
    ensures (t - q - 1) * d + (d - r) == t * d - q * d - r
  {
  }

  lemma RoomBound(t: nat, mult: nat, div: nat)
    requires 1 <= mult < div && t >= 1
    ensures 0 <= t * (div - mult) / div < t
  {
    PartsOfSize(t, mult, div);
    if t * mult % div == 0 { NotZero(t, mult, div); }
  }

  lemma NoWrap(start: nat, below: nat, d: nat, room: nat)
    requires d > 0 && below < 0x1_0000_0000 && below / d == room && start + room < 0x1_0000_0000
    ensures U32(start + U32(below) / d) == start + room
  {
    assert U32(below) == below;
  }

  /** How much of the subnet lies below the addresses the shortcut discards. */
  ghost function Room(c: Config, z: nat): (r: nat)
    requires ValidConfig(c) && c.V4?
    ensures r < Pow2(z)
  {
    var t := Pow2(z);
    RoomBound(t, c.mult, c.div);
    t * (c.div - c.mult) / c.div
  }

  lemma Limit(c: Config, ip: nat, z: nat)
    requires ValidConfig(c) && c.V4? && NoOverflow(c) && z <= c.zmax && ip < Pow2(32)
    ensures Skips(c, ip, z) <==> ip > StartOf(ip, z) + Room(c, z)
  {
    ProductFits(c, z);
    SubnetFits(ip, z);
    NoWrap(StartOf(ip, z), Pow2(z) * (c.div - c.mult), c.div, Room(c, z));
  }

  lemma {:induction false} ThresholdExact(c: Config, z: nat)
    requires ValidConfig(c) && c.V4? && NoOverflow(c) && z <= c.zmax
    ensures Threshold(c, z) == Pow2(z) * c.mult / c.div
  {
    ProductFits(c, z);
    NeededExact(c, Pow2(z), Pow2(z) * c.mult);
  }

  lemma NeededExact(c: Config, size: nat, product: nat)
    requires c.V4? && c.div > 0 && product == size * c.mult < 0x1_0000_0000
    ensures Needed(c, size) == product / c.div
  {
    assert U32(product) == product;
  }

  lemma {:induction false} SubnetFits(ip: nat, z: nat)
    requires z < 32 && ip < Pow2(32)
    ensures StartOf(ip, z) + Pow2(z) <= 0x1_0000_0000
  {
    StartNested(ip, z, 32);
    Top(ip, 32);
    Pow2At32();
  }

  lemma NotZero(t: nat, m: nat, d: nat)
    requires d > 0 && t > 0 && m > 0 && t * m % d == 0
    ensures t * m / d >= 1
  {
    StrictMul(t, 0, m);
  }

  lemma {:induction false} Top(x: nat, w: nat)
    requires x < Pow2(w)
    ensures Shr(x, w) == 0 && StartOf(x, w) == 0
  {
    if w > 0 { Top(x / 2, w - 1); }
    ZeroShl(w);
  }

  lemma {:induction false} ZeroShl(w: nat)
    ensures Shl(0, w) == 0
  {
    if w > 0 { ZeroShl(w - 1); }
  }

  /** After the shortcut too few addresses are left, or, when the division rounds, just the threshold. */
  lemma {:induction false} SkippedCount(s: seq<nat>, c: Config, pos: nat, z: nat)
    requires ValidConfig(c) && c.V4? && NoOverflow(c) && Addresses(s, c) && pos < |s| && z <= c.zmax
    requires Skips(c, s[pos], z)
    ensures End(s, pos, z) - pos <= Threshold(c, z) - if Pow2(z) * c.mult % c.div == 0 then 1 else 0
  {
    Limit(c, s[pos], z);
    ThresholdExact(c, z);
    CountBound(s, pos, z);
    PartsOfSize(Pow2(z), c.mult, c.div);
  }

  /** A candidate that has the addresses it needs, and is passed over by the shortcut. */
  ghost predicate Discarded(s: seq<nat>, c: Config, pos: nat, z: nat)
    requires ValidConfig(c)
  {
    && Addresses(s, c) && pos < |s| && Skips(c, s[pos], z)
    && End(s, pos, z) - pos >= 2 && End(s, pos, z) - pos >= Threshold(c, z)
  }

  /** The shortcut discards a qualifying candidate for some addresses exactly if the required count is not whole. */
  lemma {:induction false} ShortcutDiscards(c: Config, z: nat)
    requires ValidConfig(c) && c.V4? && NoOverflow(c) && z <= c.zmax
    ensures (exists s, pos :: Discarded(s, c, pos, z))
       <==> Pow2(z) * c.mult % c.div != 0 && Pow2(z) * c.mult / c.div >= 2
  {
    ThresholdExact(c, z);
    forall s, pos | Discarded(s, c, pos, z) ensures Pow2(z) * c.mult % c.div != 0 && Threshold(c, z) >= 2 {
      SkippedCount(s, c, pos, z);
    }
    if Pow2(z) * c.mult % c.div != 0 && Threshold(c, z) >= 2 {
      var s := TopOfSubnet(c, z);
      assert Discarded(s, c, 0, z);
    }
  }

  lemma {:induction false} TopRoom(c: Config, z: nat)
    requires ValidConfig(c) && c.V4? && NoOverflow(c) && z <= c.zmax && Pow2(z) * c.mult % c.div != 0
    ensures Room(c, z) == Pow2(z) - Threshold(c, z) - 1
  {
    ThresholdExact(c, z);
    PartsOfSize(Pow2(z), c.mult, c.div);
  }

  /** The last addresses of the subnet at 0, as many as the threshold. */
  lemma TopOfSubnet(c: Config, z: nat) returns (s: seq<nat>)
    requires ValidConfig(c) && c.V4? && NoOverflow(c) && z <= c.zmax
    requires Pow2(z) * c.mult % c.div != 0 && Threshold(c, z) >= 2
    ensures Discarded(s, c, 0, z)
  {
    var t, thr := Pow2(z), Threshold(c, z);
    TopRoom(c, z);
    s := seq(thr, i requires 0 <= i < thr => t - thr + i);
    Pow2Monotone(z, 32);
    Top(s[0], z);
    Top(s[thr - 1], z);
    EndMeaning(s, 0, z, thr - 1);
    Limit(c, s[0], z);
  }

  lemma HalfThreshold(c: Config, y: nat, z: nat)
    requires ValidConfig(c) && c.V4? && NoOverflow(c) && y < z <= c.zmax
    ensures Threshold(c, z) >= 2 * Threshold(c, y)
  {
    ThresholdExact(c, y);
    ThresholdExact(c, z);
    Pow2Monotone(y + 1, z);
    DoubleQuotient(Pow2(z), Pow2(y), c.mult, c.div);
  }

  lemma DoubleQuotient(t: nat, u: nat, m: nat, d: nat)
    requires d > 0 && t >= 2 * u
    ensures t * m / d >= 2 * (u * m / d)
  {
    var q, a, b := u * m / d, t * m, u * m;
    assert a >= 2 * b by { MulMonotone(2 * u, t, m); TwiceMul(u, m); }
    if a / d < 2 * q { MulMonotone(a / d + 1, 2 * q, d); }
  }

  lemma TwiceMul(u: nat, m: nat)
    ensures 2 * u * m == 2 * (u * m)
  {
  }

  /** The net printed is the smallest in range with all addresses of the widest one that qualifies: the shortcut
      never makes it wider than necessary. */
  lemma ChosenIsTightest(s: seq<nat>, c: Config, pos: nat, zbest: nat, end: nat, z: nat)
    requires ValidConfig(c) && NoOverflow(c) && Addresses(s, c) && pos < |s|
    requires Chosen(s, c, pos, zbest, end) && zbest != 0 && c.zmin <= z <= c.zmax
    ensures z < zbest ==> End(s, pos, z) < end
    ensures z >= zbest && Qualifies(s, c, pos, z) ==> End(s, pos, z) == end
  {
    if z < zbest {
      EndMonotone(s, pos, z, zbest);
      if c.V4? {
        HalfThreshold(c, z, zbest);
        if Skips(c, s[pos], z) { SkippedCount(s, c, pos, z); }
      }
    } else {
      EndMonotone(s, pos, zbest, z);
    }
  }

  /** A candidate with the addresses it needs, whatever the shortcut says. */
  ghost predicate Reaches(s: seq<nat>, c: Config, pos: nat, z: nat)
    requires ValidConfig(c) && pos < |s|
  {
    End(s, pos, z) - pos >= 2 && End(s, pos, z) - pos >= Threshold(c, z)
  }

  /** The count needed is whole, as it always is for IPv6. */
  predicate Whole(c: Config, z: nat)
    requires ValidConfig(c)
  {
    c.V4? ==> Pow2(z) * c.mult % c.div == 0
  }

  /** Where the count needed is whole, the shortcut loses nothing: the net printed is the smallest in range with all
      addresses of the widest candidate that has those it needs, and a single address is printed only if there is no
      such candidate. */
  lemma {:induction false} ChosenReachesMost(s: seq<nat>, c: Config, pos: nat, zbest: nat, end: nat, z: nat)
    requires ValidConfig(c) && NoOverflow(c) && Addresses(s, c) && pos < |s|
    requires Chosen(s, c, pos, zbest, end) && c.zmin <= z <= c.zmax && Whole(c, z) && Reaches(s, c, pos, z)
    ensures zbest != 0 && End(s, pos, z) <= end && (z < zbest <==> End(s, pos, z) < end)
  {
    if c.V4? && Skips(c, s[pos], z) {
      SkippedCount(s, c, pos, z);
      assert false;
    }
    assert Qualifies(s, c, pos, z);
    ChosenIsTightest(s, c, pos, zbest, end, z);
  }
}
