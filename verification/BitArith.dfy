/** Unsigned integers and their bits: shifts, masks and the bitwise operators of C, for any width. */
module BitArith {

  function Pow2(n: nat): (r: nat)
    ensures r >= 1
  {
    if n == 0 then 1 else 2 * Pow2(n - 1)
  }

  lemma {:induction false} Pow2Monotone(m: nat, n: nat)
    requires m <= n
    ensures Pow2(m) <= Pow2(n)
    decreases n
  {
    if m < n { Pow2Monotone(m, n - 1); }
  }

  lemma Pow2Add10(n: nat)
    ensures Pow2(n + 10) == 1024 * Pow2(n)
  {
    assert Pow2(n + 2) == 4 * Pow2(n);
    assert Pow2(n + 4) == 4 * Pow2(n + 2);
    assert Pow2(n + 6) == 4 * Pow2(n + 4);
    assert Pow2(n + 8) == 4 * Pow2(n + 6);
    assert Pow2(n + 10) == 4 * Pow2(n + 8);
  }

  lemma Pow2Byte(n: nat)
    ensures Pow2(n + 8) == 256 * Pow2(n)
  {
    assert Pow2(n + 2) == 4 * Pow2(n);
    assert Pow2(n + 4) == 4 * Pow2(n + 2);
    assert Pow2(n + 6) == 4 * Pow2(n + 4);
    assert Pow2(n + 8) == 4 * Pow2(n + 6);
  }

  lemma Pow2At32()
    ensures Pow2(32) == 0x1_0000_0000
  {
    assert Pow2(2) == 4;
    Pow2Add10(2);
    Pow2Add10(12);
    Pow2Add10(22);
  }

  lemma Pow2At62()
    ensures Pow2(62) == 0x4000_0000_0000_0000
  {
    Pow2At32();
    Pow2Add10(32);
    Pow2Add10(42);
    Pow2Add10(52);
  }

  // ----- shifts -----

  /** x >> z */
  function Shr(x: nat, z: nat): nat {
    if z == 0 then x else Shr(x / 2, z - 1)
  }

  /** x << z, without truncation */
  function Shl(x: nat, z: nat): nat {
    if z == 0 then x else 2 * Shl(x, z - 1)
  }

  lemma {:induction false} ShlSucc(x: nat, z: nat)
    ensures Shl(x + 1, z) == Shl(x, z) + Pow2(z)
  {
    if z > 0 { ShlSucc(x, z - 1); }
  }

  lemma {:induction false} ShlMonotone(x: nat, y: nat, z: nat)
    requires x <= y
    ensures Shl(x, z) <= Shl(y, z)
  {
    if z > 0 { ShlMonotone(x, y, z - 1); }
  }

  lemma {:induction false} ShrMonotone(x: nat, y: nat, z: nat)
    requires x <= y
    ensures Shr(x, z) <= Shr(y, z)
  {
    if z > 0 { ShrMonotone(x / 2, y / 2, z - 1); }
  }

  /** A shift selects an aligned interval of 2^z values. */
  lemma {:induction false} ShrRange(x: nat, z: nat, k: nat)
    ensures Shr(x, z) == k <==> Shl(k, z) <= x < Shl(k, z) + Pow2(z)
  {
    if z > 0 { ShrRange(x / 2, z - 1, k); }
  }

  lemma {:induction false} ShrMore(x: nat, y: nat, z: nat, v: nat)
    requires Shr(x, z) == Shr(y, z) && z <= v
    ensures Shr(x, v) == Shr(y, v)
    decreases v
  {
    if z < v {
      ShrMore(x, y, z, v - 1);
      ShrOnce(x, v - 1);
      ShrOnce(y, v - 1);
    }
  }

  lemma {:induction false} ShrOnce(x: nat, z: nat)
    ensures Shr(x, z + 1) == Shr(x, z) / 2
  {
    if z > 0 { ShrOnce(x / 2, z - 1); }
  }

  // ----- bitwise operators -----

  function And(x: nat, y: nat): nat {
    if x == 0 || y == 0 then 0 else 2 * And(x / 2, y / 2) + (if x % 2 == 1 && y % 2 == 1 then 1 else 0)
  }

  function Or(x: nat, y: nat): nat
    decreases x + y
  {
    if x == 0 then y else if y == 0 then x else 2 * Or(x / 2, y / 2) + (if x % 2 == 1 || y % 2 == 1 then 1 else 0)
  }

  /** ~x in a word of w bits */
  function Not(x: nat, w: nat): (r: nat)
    requires x < Pow2(w)
  {
    Pow2(w) - 1 - x
  }

  /** The mask of a word of w bits with its lowest z bits clear. */
  function Mask(w: nat, z: nat): (m: nat)
    requires z <= w
  {
    Pow2Monotone(z, w);
    Pow2(w) - Pow2(z)
  }

  lemma {:induction false} AndOnes(x: nat, w: nat)
    requires x < Pow2(w)
    ensures And(x, Pow2(w) - 1) == x
  {
    if w > 0 && x > 0 {
      assert (Pow2(w) - 1) / 2 == Pow2(w - 1) - 1;
      AndOnes(x / 2, w - 1);
    }
  }

  /** x & mask rounds down to the start of the aligned interval. */
  lemma {:induction false} AndMask(x: nat, w: nat, z: nat)
    requires z <= w && x < Pow2(w)
    ensures And(x, Mask(w, z)) == Shl(Shr(x, z), z)
  {
    if z == 0 {
      AndOnes(x, w);
    } else {
      assert Mask(w, z) == 2 * Mask(w - 1, z - 1);
      if x == 0 || Mask(w, z) == 0 {
        AndMask(x / 2, w - 1, z - 1);
      } else {
        assert And(x, Mask(w, z)) == 2 * And(x / 2, Mask(w, z) / 2);
        AndMask(x / 2, w - 1, z - 1);
      }
    }
  }

  /** start | ~mask is the last value of the interval. */
  lemma {:induction false} OrLow(k: nat, z: nat)
    ensures Or(Shl(k, z), Pow2(z) - 1) == Shl(k, z) + Pow2(z) - 1
  {
    if z > 0 {
      assert Shl(k, z) / 2 == Shl(k, z - 1) && (Pow2(z) - 1) / 2 == Pow2(z - 1) - 1;
      OrLow(k, z - 1);
    }
  }

  lemma MulMonotone(x: int, y: int, z: nat)
    requires x <= y
    ensures x * z <= y * z
  {
  }

  lemma QuotientIs(x: nat, d: nat, q: nat, r: nat)
    requires d > 0 && r < d && x == q * d + r
    ensures x / d == q
  {
    if x / d < q { MulMonotone(x / d + 1, q, d); } else if q < x / d { MulMonotone(q + 1, x / d, d); }
  }

  lemma Residue(k: nat, n: nat, j: nat)
    requires n > 0 && k % n == 0
    ensures j < n ==> (k + j) % n == j
    ensures (k + n) % n == 0
  {
    var q := k / n;
    assert k == n * q;
    if j < n { ResidueOf(k + j, n, q, j); }
    ResidueOf(k + n, n, q + 1, 0);
  }

  lemma ResidueOf(x: nat, n: nat, q: nat, r: nat)
    requires r < n && x == n * q + r
    ensures x % n == r
  {
    QuotientIs(x, n, q, r);
  }
}
