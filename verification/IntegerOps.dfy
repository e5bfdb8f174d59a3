/** 32-bit integer operators, as the interpreter computes them. */
module IntegerOps {
  import opened Words

  type Int32 = x: int | -0x8000_0000 <= x < 0x8000_0000

  function Wrap32(x: int): (y: Int32)
    ensures (y - x) % 0x1_0000_0000 == 0
  {
    WrapCongruent(x);
    (x + 0x8000_0000) % 0x1_0000_0000 - 0x8000_0000
  }

  lemma WrapCongruent(x: int)
    ensures ((x + 0x8000_0000) % 0x1_0000_0000 - 0x8000_0000 - x) % 0x1_0000_0000 == 0
  {
  }

  function Unsigned32(x: int): nat
  {
    x % 0x1_0000_0000
  }

  /** The bitwise combination of the n low bits of two numbers. */
  function Bitwise(f: (int, int) -> int, x: nat, y: nat, n: nat): int
    decreases n
  {
    if n == 0 then 0 else f(x % 2, y % 2) + 2 * Bitwise(f, x / 2, y / 2, n - 1)
  }

  function Logic(f: (int, int) -> int, a: int, b: int): int
  {
    Wrap32(Bitwise(f, Unsigned32(a), Unsigned32(b), 32))
  }

  function And32(a: int, b: int): int
  {
    Logic((x, y) => x * y, a, b)
  }

  function Or32(a: int, b: int): int
  {
    Logic((x, y) => if x == 0 then y else x, a, b)
  }

  function Xor32(a: int, b: int): int
  {
    Logic((x, y) => if x == y then 0 else 1, a, b)
  }

  datatype Operator = Add | Sub | Mul | Div | Rem | Shl | Shr | Ushr | And | Or | Xor | Other

  /** Division by zero gives 0 and the remainder by zero the negated dividend. Shifts are defined
      for counts from 0 to 31; other counts are taken modulo 32. */
  function Calculate(op: Operator, a: int, b: int): int
  {
    match op
    case Add => Wrap32(a + b)
    case Sub => Wrap32(a - b)
    case Mul => Wrap32(a * b)
    case Div => if b == 0 then 0 else Wrap32(TruncDiv(a, b))
    case Rem => if b == 0 then Wrap32(-a) else Wrap32(a - b * TruncDiv(a, b))
    case Shl => Wrap32(a * Pow2(b % 32))
    case Shr => Wrap32(a / Pow2(b % 32))
    case Ushr => Wrap32(Unsigned32(a) / Pow2(b % 32))
    case And => And32(a, b)
    case Or => Or32(a, b)
    case Xor => Xor32(a, b)
    case Other => 0
  }

  /** The one quotient that is out of range: C leaves it undefined, and the processor traps. */
  predicate Overflows(op: Operator, a: int, b: int)
  {
    (op.Div? || op.Rem?) && a == -0x8000_0000 && b == -1
  }

  // ----- Sums, products, quotients -----

  predicate Congruent(x: int, y: int)
  {
    (x - y) % 0x1_0000_0000 == 0
  }

  /** A 32-bit number is known by its residue. */
  lemma OneResidue(x: Int32, y: Int32)
    requires Congruent(x, y)
    ensures x == y
  {
  }

  /** Sum, difference and product are the 32-bit numbers congruent to them, and subtraction undoes
      addition. */
  lemma RingLaws(a: Int32, b: Int32)
    ensures Congruent(Calculate(Add, a, b), a + b)
    ensures Congruent(Calculate(Sub, a, b), a - b)
    ensures Congruent(Calculate(Mul, a, b), a * b)
    ensures Calculate(Add, Calculate(Sub, a, b), b) == a
    ensures forall op :: op == Add || op == Sub || op == Mul ==> -0x8000_0000 <= Calculate(op, a, b) < 0x8000_0000
  {
    var d := Calculate(Sub, a, b);
    assert Congruent(d + b, a) by { assert (d + b) - a == d - (a - b); }
    CongruentTrans(Calculate(Add, d, b), d + b, a);
    OneResidue(Calculate(Add, d, b), a);
  }

  lemma CongruentTrans(x: int, y: int, z: int)
    requires Congruent(x, y) && Congruent(y, z)
    ensures Congruent(x, z)
  {
  }

  /** Quotient and remainder belong together; the remainder has the sign of the dividend. */
  lemma DivisionLaws(a: Int32, b: Int32)
    requires b != 0 && !Overflows(Div, a, b)
    ensures
      var q, r := Calculate(Div, a, b), Calculate(Rem, a, b);
      a == b * q + r && Abs(r) < Abs(b) && (a >= 0 ==> r >= 0) && (a <= 0 ==> r <= 0)
  {
    TruncDivLaw(a, b);
    QuotientInRange(a, b);
    var q := TruncDiv(a, b);
    assert Wrap32(q) == q by { OneResidue(Wrap32(q), q); }
    var r := a - b * q;
    assert Wrap32(r) == r by { OneResidue(Wrap32(r), r); }
  }

  lemma QuotientInRange(a: Int32, b: Int32)
    requires b != 0 && !(a == -0x8000_0000 && b == -1)
    ensures -0x8000_0000 <= TruncDiv(a, b) < 0x8000_0000
  {
    QuotientBound(Abs(a), Abs(b));
  }

  lemma DivisionByZero(a: Int32)
    ensures Calculate(Div, a, 0) == 0 && Congruent(Calculate(Rem, a, 0), 0 - a)
  {
  }

  // ----- Bits -----

  /** The i-th binary digit, in two's complement. */
  function Bit(x: int, i: nat): (b: int)
    ensures b == 0 || b == 1
    decreases i
  {
    if i == 0 then x % 2 else Bit(x / 2, i - 1)
  }

  lemma HalfSum(x: int, y: int)
    ensures (x + 2 * y) / 2 == x / 2 + y && (x + 2 * y) % 2 == x % 2
  {
  }

  /** Adding a multiple of 2^n changes none of the n low bits. */
  lemma {:induction false} LowBits(x: int, k: int, n: nat, i: nat)
    requires i < n
    ensures Bit(x + k * Pow2(n), i) == Bit(x, i)
    decreases n
  {
    var y := k * Pow2(n - 1);
    Doubled(k, n);
    HalfSum(x, y);
    if i > 0 {
      LowBits(x / 2, k, n - 1, i - 1);
    }
  }

  lemma Doubled(k: int, n: nat)
    requires n > 0
    ensures k * Pow2(n) == 2 * (k * Pow2(n - 1))
  {
  }

  /** Above its range a number repeats its sign. */
  lemma {:induction false} HighBits(x: int, n: nat, i: nat)
    requires -(Pow2(n) as int) <= x < Pow2(n) && i >= n
    ensures Bit(x, i) == if x < 0 then 1 else 0
    decreases n + i
  {
    if i > 0 {
      if n == 0 {
        HighBits(x / 2, 0, i - 1);
      } else {
        HighBits(x / 2, n - 1, i - 1);
      }
    }
  }

  lemma {:induction false} PowSum(m: nat, n: nat)
    ensures Pow2(m + n) == Pow2(m) * Pow2(n)
  {
    if m > 0 {
      PowSum(m - 1, n);
    }
  }

  lemma Pow16()
    ensures Pow2(16) == 0x1_0000 && Pow2(15) == 0x8000
  {
    Pow8();
    PowSum(8, 7);
    hide Pow2;
    Pow2Step(15);
  }

  lemma Pow8()
    ensures Pow2(8) == 0x100 && Pow2(7) == 0x80
  {
    assert Pow2(4) == 0x10;
  }

  lemma Pow2Step(k: nat)
    ensures Pow2(k + 1) == 2 * Pow2(k)
  {
  }

  lemma Pow32()
    ensures Pow2(32) == 0x1_0000_0000 && Pow2(31) == 0x8000_0000
  {
    Pow16();
    PowSum(16, 15);
    hide Pow2;
    assert Pow2(31) == 0x1_0000 * 0x8000;
    Pow2Step(31);
  }

  lemma CongruentBits(x: int, y: int, i: nat)
    requires Congruent(x, y) && i < 32
    ensures Bit(x, i) == Bit(y, i)
  {
    Pow32();
    var k := (x - y) / 0x1_0000_0000;
    assert x == y + k * Pow2(32);
    LowBits(y, k, 32, i);
  }

  lemma {:induction false} ShiftedLeft(x: int, k: nat, i: nat)
    ensures Bit(x * Pow2(k), i) == if i < k then 0 else Bit(x, i - k)
    decreases k
  {
    if k > 0 {
      Doubled(x, k);
      HalfSum(0, x * Pow2(k - 1));
      if i > 0 {
        ShiftedLeft(x, k - 1, i - 1);
      }
    } else {
      assert x * Pow2(0) == x;
    }
  }

  lemma DivideTwice(x: int, p: nat)
    requires p > 0
    ensures x / (2 * p) == (x / 2) / p
  {
    var q := (x / 2) / p;
    var r := (x / 2) - p * q;
    assert 0 <= r < p;
    assert x == 2 * (p * q) + (2 * r + x % 2);
    assert 0 <= 2 * r + x % 2 < 2 * p;
    assert x == (2 * p) * q + (2 * r + x % 2);
    EuclidUnique(x, 2 * p, q, 2 * r + x % 2);
  }

  lemma EuclidUnique(x: int, d: nat, q: int, r: int)
    requires d > 0 && x == d * q + r && 0 <= r < d
    ensures x / d == q
  {
    var e := x / d;
    Quotients(x, d);
    Distribute(d, e, q);
    SmallMultiple(d, e - q);
  }

  lemma Quotients(x: int, d: nat)
    requires d > 0
    ensures 0 <= x - d * (x / d) < d
  {
  }

  lemma Distribute(d: int, e: int, q: int)
    ensures d * (e - q) == d * e - d * q
  {
  }

  lemma SmallMultiple(d: nat, t: int)
    requires -(d as int) < d * t < d
    ensures t == 0
  {
    Distribute(d, t, 1);
    Distribute(d, -1, t);
  }

  lemma {:induction false} ShiftedRight(x: int, k: nat, i: nat)
    ensures Bit(x / Pow2(k), i) == Bit(x, i + k)
    decreases k
  {
    if k > 0 {
      DivideTwice(x, Pow2(k - 1));
      ShiftedRight(x / 2, k - 1, i);
    }
  }

  /** Shifting left moves every bit up and fills with zeros. */
  lemma ShlBits(a: Int32, k: nat, i: nat)
    requires k < 32 && i < 32
    ensures Bit(Calculate(Shl, a, k), i) == if i < k then 0 else Bit(a, i - k)
  {
    CongruentBits(Calculate(Shl, a, k), a * Pow2(k), i);
    ShiftedLeft(a, k, i);
  }

  /** Shifting right moves every bit down and repeats the sign. */
  lemma ShrBits(a: Int32, k: nat, i: nat)
    requires k < 32 && i < 32
    ensures Bit(Calculate(Shr, a, k), i) == if i + k < 32 then Bit(a, i + k) else Bit(a, 31)
  {
    CongruentBits(Calculate(Shr, a, k), a / Pow2(k), i);
    ShiftedRight(a, k, i);
    Pow32();
    HighBits(a, 31, 31);
    if i + k >= 32 {
      HighBits(a, 31, i + k);
    }
  }

  /** Shifting right without the sign fills with zeros. */
  lemma UshrBits(a: Int32, k: nat, i: nat)
    requires k < 32 && i < 32
    ensures Bit(Calculate(Ushr, a, k), i) == if i + k < 32 then Bit(a, i + k) else 0
  {
    var u := Unsigned32(a);
    CongruentBits(Calculate(Ushr, a, k), u / Pow2(k), i);
    ShiftedRight(u, k, i);
    if i + k < 32 {
      UnsignedBits(a, i + k);
    } else {
      Pow32();
      HighBits(u, 32, i + k);
    }
  }

  lemma UnsignedBits(a: int, i: nat)
    requires i < 32
    ensures Bit(Unsigned32(a), i) == Bit(a, i)
  {
    assert Congruent(Unsigned32(a), a) by { Quotients(a, 0x1_0000_0000); }
    CongruentBits(Unsigned32(a), a, i);
  }

  lemma {:induction false} BitwiseBits(f: (int, int) -> int, x: nat, y: nat, n: nat, i: nat)
    requires i < n && forall p, q :: 0 <= p <= 1 && 0 <= q <= 1 ==> 0 <= f(p, q) <= 1
    ensures Bit(Bitwise(f, x, y, n), i) == f(Bit(x, i), Bit(y, i))
    decreases n
  {
    var rest := Bitwise(f, x / 2, y / 2, n - 1);
    HalfSum(f(x % 2, y % 2), rest);
    if i > 0 {
      BitwiseBits(f, x / 2, y / 2, n - 1, i - 1);
    }
  }

  lemma LogicBits(f: (int, int) -> int, a: int, b: int, i: nat)
    requires i < 32 && forall p, q :: 0 <= p <= 1 && 0 <= q <= 1 ==> 0 <= f(p, q) <= 1
    ensures Bit(Logic(f, a, b), i) == f(Bit(a, i), Bit(b, i))
  {
    hide Bitwise, Bit;
    var x := Bitwise(f, Unsigned32(a), Unsigned32(b), 32);
    CongruentBits(Logic(f, a, b), x, i);
    BitwiseBits(f, Unsigned32(a), Unsigned32(b), 32, i);
    UnsignedBits(a, i);
    UnsignedBits(b, i);
  }

  /** And, or and exclusive or work bit by bit. */
  lemma LogicLaws(a: int, b: int, i: nat)
    requires i < 32
    ensures
      var p, q := Bit(a, i), Bit(b, i);
      && Bit(Calculate(And, a, b), i) == (if p == 1 && q == 1 then 1 else 0)
      && Bit(Calculate(Or, a, b), i) == (if p == 1 || q == 1 then 1 else 0)
      && Bit(Calculate(Xor, a, b), i) == (if p != q then 1 else 0)
  {
    hide Bit, Logic;
    LogicBits((x, y) => x * y, a, b, i);
    LogicBits((x, y) => if x == 0 then y else x, a, b, i);
    LogicBits((x, y) => if x == y then 0 else 1, a, b, i);
  }
}
