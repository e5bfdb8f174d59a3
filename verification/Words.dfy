/** 64-bit machine arithmetic on mathematical integers: wrap-around, truncating
    division, bitwise AND on naturals and the one-bit left shift. */
module Words {

  const TWO63: int := 0x8000_0000_0000_0000
  const TWO64: int := 0x1_0000_0000_0000_0000

  type Int64 = x: int | -TWO63 <= x < TWO63

  datatype Option<+T> = None | Some(value: T)

  /** The two's complement reading of the low 64 bits of `x`. */
  function Wrap(x: int): Int64
  {
    (x + TWO63) % TWO64 - TWO63
  }

  function Abs(x: int): nat
  {
    if x < 0 then -x else x
  }

  /** Division as C and `idiv` do it: the quotient is rounded toward zero. */
  function TruncDiv(a: int, b: int): int
    requires b != 0
  {
    if a >= 0 then (if b > 0 then a / b else -(a / -b))
    else (if b > 0 then -(-a / b) else -a / -b)
  }

  /** Quotient and remainder belong together; the remainder is smaller than the divisor and has the
      sign of the dividend. */
  lemma TruncDivLaw(a: int, b: int)
    requires b != 0
    ensures
      var r := a - b * TruncDiv(a, b);
      Abs(r) < Abs(b) && (a >= 0 ==> r >= 0) && (a <= 0 ==> r <= 0)
  {
    var x, y: nat := Abs(a), Abs(b);
    var q := x / y;
    Remainder(x, y);
    SignedProducts(y, q);
    if a >= 0 {
      assert TruncDiv(a, b) == if b > 0 then q else -q;
      assert b * TruncDiv(a, b) == y * q;
    } else {
      assert TruncDiv(a, b) == if b > 0 then -q else q;
      assert b * TruncDiv(a, b) == -(y * q);
    }
  }

  lemma Remainder(x: nat, y: nat)
    requires y > 0
    ensures 0 <= x - y * (x / y) < y
  {
  }

  lemma QuotientBound(x: nat, y: nat)
    requires y > 0
    ensures 0 <= x / y <= x
    ensures y >= 2 && x > 0 ==> x / y < x
  {
    var q := x / y;
    assert q <= q * y <= x;
    if y >= 2 {
      assert q * 2 <= q * y;
    }
  }

  lemma SignedProducts(y: int, q: int)
    ensures -y * -q == y * q && y * -q == -(y * q) && -y * q == -(y * q)
  {
  }

  function Pow2(k: nat): (p: nat)
    ensures p >= 1
  {
    if k == 0 then 1 else 2 * Pow2(k - 1)
  }

  /** Bitwise AND of two naturals, bit by bit from the lowest. */
  function BitAnd(a: nat, b: nat): nat
  {
    if a == 0 || b == 0 then 0 else 2 * BitAnd(a / 2, b / 2) + (if a % 2 == 1 && b % 2 == 1 then 1 else 0)
  }

  /** One `shl` step drops the top bit and brings in a zero; `k` steps in a row. */
  function ShiftLeft(x: Int64, k: nat): Int64
  {
    if k == 0 then x else Wrap(2 * ShiftLeft(x, k - 1))
  }

  /** The exponent that `log2` returns for an exact power of two (rounded down otherwise). */
  function Log2(v: nat): nat
    requires v >= 1
  {
    if v == 1 then 0 else 1 + Log2(v / 2)
  }

  lemma WrapIdentity(x: int)
    requires -TWO63 <= x < TWO63
    ensures Wrap(x) == x
  {
  }

  lemma WrapShift(x: int, q: int)
    ensures Wrap(x + q * TWO64) == Wrap(x)
  {
    var y := x + TWO63;
    assert (y + q * TWO64) % TWO64 == y % TWO64;
  }

  /** Wrapping an operand first does not change a wrapped product. */
  lemma WrapProduct(x: int, c: int)
    ensures Wrap(c * Wrap(x)) == Wrap(c * x)
  {
    var q := (x + TWO63) / TWO64;
    assert Wrap(x) == x - q * TWO64;
    assert c * Wrap(x) == c * x + (-(c * q)) * TWO64 by {
      assert c * (x - q * TWO64) == c * x - c * (q * TWO64);
      assert c * (q * TWO64) == (c * q) * TWO64;
    }
    WrapShift(c * x, -(c * q));
  }

  /** A k-bit left shift is wrapped multiplication by 2^k, for every operand. */
  lemma {:induction false} ShiftIsMultiplication(x: Int64, k: nat)
    ensures ShiftLeft(x, k) == Wrap(x * Pow2(k))
  {
    if k > 0 {
      ShiftIsMultiplication(x, k - 1);
      WrapProduct(x * Pow2(k - 1), 2);
      assert 2 * (x * Pow2(k - 1)) == x * Pow2(k);
    } else {
      WrapIdentity(x);
    }
  }

  lemma {:induction false} Log2OfPow2(k: nat)
    ensures Log2(Pow2(k)) == k
  {
    if k > 0 {
      Log2OfPow2(k - 1);
      assert Pow2(k) / 2 == Pow2(k - 1);
    }
  }

  /** `v & (v - 1) == 0` for v >= 1 says exactly that `v` is a power of two. */
  lemma {:induction false} PowerOfTwoTest(v: nat)
    requires v >= 1
    ensures BitAnd(v, v - 1) == 0 <==> v == Pow2(Log2(v))
  {
    if v == 1 {
    } else if v % 2 == 0 {
      assert (v - 1) / 2 == v / 2 - 1;
      PowerOfTwoTest(v / 2);
    } else {
      // The lowest bits are 1 and 0, and the remaining bits agree.
      assert (v - 1) / 2 == v / 2;
      BitAndSelf(v / 2);
    }
  }

  lemma {:induction false} BitAndSelf(v: nat)
    ensures BitAnd(v, v) == v
  {
    if v > 0 {
      BitAndSelf(v / 2);
    }
  }
}
