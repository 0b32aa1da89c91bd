/**
  Python's bitwise operators `&`, `|`, `<<` and `>>` on non-negative integers,
  defined digit by digit on the binary expansion, with the arithmetic facts the
  RGB565 packer relies on: masking with 2^n - 1 is reduction modulo 2^n, or-ing
  two values whose set bits do not overlap is addition, and and-ing with a
  shifted mask is shifting the masked, unshifted value.
*/
module Bits {

  /** 2 to the power n. */
  function Pow2(n: nat): (r: nat)
    ensures r >= 1
  {
    if n == 0 then 1 else 2 * Pow2(n - 1)
  }

  /** Python `a << n` for a non-negative `a`: n doublings. */
  function Shl(a: nat, n: nat): (r: nat)
    ensures r == 0 <==> a == 0
    ensures a <= r
  {
    if n == 0 then a else 2 * Shl(a, n - 1)
  }

  /** Python `a >> n` for a non-negative `a`: n halvings, each dropping the lowest bit. */
  function Shr(a: nat, n: nat): (r: nat)
    ensures r <= a
  {
    if n == 0 then a else Shr(a / 2, n - 1)
  }

  /** Python `a & b` for non-negative operands: bit i of the result is set iff it is set in both. */
  function And(a: nat, b: nat): (r: nat)
    ensures r <= a && r <= b
    decreases a
  {
    if a == 0 || b == 0 then 0
    else 2 * And(a / 2, b / 2) + (if a % 2 == 1 && b % 2 == 1 then 1 else 0)
  }

  /** Python `a | b` for non-negative operands: bit i of the result is set iff it is set in either. */
  function Or(a: nat, b: nat): (r: nat)
    ensures a <= r && b <= r && r <= a + b
    decreases a + b
  {
    if a == 0 then b
    else if b == 0 then a
    else 2 * Or(a / 2, b / 2) + (if a % 2 == 1 || b % 2 == 1 then 1 else 0)
  }

  lemma Pow2Constants()
    ensures Pow2(5) == 32 && Pow2(6) == 64 && Pow2(8) == 256 && Pow2(11) == 2048
  {
  }

  /** `v >> 8` and `v & 0xFF` are the high and the low byte of v. */
  lemma ByteHalves(v: nat)
    ensures Shr(v, 8) == v / 0x100 && And(v, 0xFF) == v % 0x100
  {
    Pow2Constants();
    AndLowMask(v, 8);
    ShrDiv(v, 8);
  }

  /** Quotient and remainder are the unique pair with a == d * q + r and 0 <= r < d. */
  lemma DivModUnique(a: int, d: int, q: int, r: int)
    requires d > 0 && a == d * q + r && 0 <= r < d
    ensures a / d == q && a % d == r
  {
    var k := q - a / d;
    assert d * k == a % d - r;
    MulSign(d, k);
  }

  /** The product of naturals is a natural. */
  lemma MulNonneg(a: int, b: int)
    requires a >= 0 && b >= 0
    ensures a * b >= 0
  {
    if a > 0 && b > 0 {
      MulSign(a, b);
    }
  }

  /** A non-zero multiple of a positive d is at least d in magnitude. */
  lemma {:induction false} MulSign(d: int, k: int)
    requires d > 0
    ensures k >= 1 ==> d * k >= d
    ensures k <= -1 ==> d * k <= -d
    decreases if k < 0 then -k else k
  {
    if k > 1 {
      MulSign(d, k - 1);
      assert d * k == d * (k - 1) + d;
    } else if k < -1 {
      MulSign(d, k + 1);
      assert d * k == d * (k + 1) - d;
    }
  }

  /** Dividing by 2 and then by p is dividing by 2 * p, and the remainder splits accordingly. */
  lemma HalfDivMod(a: nat, p: nat)
    requires p >= 1
    ensures a / 2 / p == a / (2 * p)
    ensures a % (2 * p) == 2 * ((a / 2) % p) + a % 2
  {
    var h, b0 := a / 2, a % 2;
    var q, s := h / p, h % p;
    assert a == (2 * p) * q + (2 * s + b0);
    DivModUnique(a, 2 * p, q, 2 * s + b0);
  }

  /** Masking with the n low bits set (`a & (2**n - 1)`) keeps exactly a modulo 2^n. */
  lemma {:induction false} AndLowMask(a: nat, n: nat)
    ensures And(a, Pow2(n) - 1) == a % Pow2(n)
  {
    if n == 0 || a == 0 {
    } else {
      var p := Pow2(n - 1);
      assert Pow2(n) - 1 == 2 * (p - 1) + 1;
      assert (Pow2(n) - 1) / 2 == p - 1 && (Pow2(n) - 1) % 2 == 1;
      AndLowMask(a / 2, n - 1);
      HalfDivMod(a, p);
    }
  }

  /** Shifting left by n multiplies by 2^n. */
  lemma {:induction false} ShlMul(a: nat, n: nat)
    ensures Shl(a, n) == a * Pow2(n)
  {
    if n > 0 {
      ShlMul(a, n - 1);
      var p := Pow2(n - 1);
      assert a * (2 * p) == 2 * (a * p);
    }
  }

  /** Shifting right by n is floor division by 2^n. */
  lemma {:induction false} ShrDiv(a: nat, n: nat)
    ensures Shr(a, n) == a / Pow2(n)
  {
    if n > 0 {
      ShrDiv(a / 2, n - 1);
      HalfDivMod(a, Pow2(n - 1));
    }
  }

  /** Or-ing a value shifted left by k with a value below 2^k is addition: the bits do not overlap. */
  lemma {:induction false} OrShifted(a: nat, b: nat, k: nat)
    requires b < Pow2(k)
    ensures Or(Shl(a, k), b) == Shl(a, k) + b
  {
    if k == 0 || a == 0 || b == 0 {
    } else {
      var x := Shl(a, k);
      assert x / 2 == Shl(a, k - 1) && x % 2 == 0;
      OrShifted(a, b / 2, k - 1);
    }
  }

  /** And-ing with a mask shifted left by k selects the masked bits of a >> k, shifted back into place. */
  lemma {:induction false} AndShifted(a: nat, m: nat, k: nat)
    ensures And(a, Shl(m, k)) == Shl(And(Shr(a, k), m), k)
  {
    if k == 0 || m == 0 || a == 0 {
    } else {
      var s := Shl(m, k);
      assert s / 2 == Shl(m, k - 1) && s % 2 == 0;
      AndShifted(a / 2, m, k - 1);
    }
  }

  /** Shifting left then right by the same amount is the identity. */
  lemma {:induction false} ShrShl(a: nat, k: nat)
    ensures Shr(Shl(a, k), k) == a
  {
    if k > 0 {
      assert Shl(a, k) / 2 == Shl(a, k - 1);
      ShrShl(a, k - 1);
    }
  }
}
