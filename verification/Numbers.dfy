/** Reading and writing unsigned 64-bit numbers. */
module Numbers {
  import opened Characters

  const MAX: nat := 0xFFFF_FFFF_FFFF_FFFF

  /** Strings end at their terminator: past the end there is the null character. */
  function At(s: string, i: nat): char
  {
    if i < |s| then s[i] else '\0'
  }

  // ----- Digits -----

  /** The value that strtoul gives a character, or -1 where it stops. The first range reaches past
      '9' when the base is above 10. */
  function DigitOf(c: char, base: nat): int
  {
    var k := c as int;
    if 48 <= k < 48 + base then k - 48
    else if base > 10 && 97 <= k < 97 + base - 10 then k - 97 + 10
    else if base > 10 && 65 <= k < 65 + base - 10 then k - 65 + 10
    else -1
  }

  function UpperDigit(d: nat): char
    requires d < 36
  {
    if d < 10 then (48 + d) as char else (65 + d - 10) as char
  }

  function LowerDigit(d: nat): char
    requires d < 36
  {
    if d < 10 then (48 + d) as char else (97 + d - 10) as char
  }

  /** A digit in upper or lower case is read as its value, for every base up to 17; from base 18 on
      the first letters are misread. */
  lemma DigitsRead(base: nat, d: nat)
    requires base <= 36 && d < base
    ensures DigitOf(LowerDigit(d), base) == d
    ensures DigitOf(UpperDigit(d), base) == d <==> d < 10 || UpperDigit(d) as int >= 48 + base
    ensures base <= 17 ==> DigitOf(UpperDigit(d), base) == d
  {
  }

  /** The characters after '9' that the first range takes for digits: punctuation, and from base 18
      on the first capital letters too. */
  predicate Misread(c: char, base: nat)
  {
    base > 10 && 58 <= c as int < 48 + base
  }

  /** A character gets the value of the digit it is, or none, exactly unless it is such a one; a
      misread one always gets a larger value. */
  lemma MisreadPunctuation(c: char, base: nat)
    requires base <= 36
    ensures DigitOf(c, base) == DigitValue(c, base) <==> !Misread(c, base)
    ensures Misread(c, base) ==> DigitOf(c, base) > DigitValue(c, base)
  {
  }

  function ValueOf(s: string, base: nat): nat
  {
    if s == [] then 0
    else
      var d := DigitOf(s[|s| - 1], base);
      ValueOf(s[..|s| - 1], base) * base + if d < 0 then 0 else d
  }

  /** The longest run of digits from position i on. */
  function DigitsEnd(s: string, i: nat, base: nat): (e: nat)
    requires i <= |s|
    ensures i <= e <= |s| && (forall k :: i <= k < e ==> DigitOf(s[k], base) >= 0) && (e < |s| ==> DigitOf(s[e], base) < 0)
    decreases |s| - i
  {
    if i < |s| && DigitOf(s[i], base) >= 0 then DigitsEnd(s, i + 1, base) else i
  }

  function SkipSpaces(s: string, i: nat): (e: nat)
    requires i <= |s|
    ensures i <= e <= |s| && (forall k :: i <= k < e ==> IsSpace(s[k])) && (e < |s| ==> !IsSpace(s[e]))
    decreases |s| - i
  {
    if i < |s| && IsSpace(s[i]) then SkipSpaces(s, i + 1) else i
  }

  predicate HexPrefix(s: string, i: nat)
  {
    At(s, i) == '0' && (At(s, i + 1) == 'x' || At(s, i + 1) == 'X')
  }

  /** The base that is meant, and where the digits start. */
  function Detect(s: string, i: nat, base: nat): (r: (nat, nat))
    requires i <= |s|
    ensures i <= r.1 <= |s| && r.0 > 0 && (base <= 36 ==> r.0 <= 36)
  {
    if (base == 0 || base == 16) && HexPrefix(s, i) then (16, i + 2)
    else if base == 0 then (if At(s, i) == '0' then 8 else 10, i)
    else (base, i)
  }

  /** A number that does not fit is replaced by the largest one. */
  function Saturate(v: nat): (x: nat)
    ensures x <= MAX
  {
    if v > MAX then MAX else v
  }

  /** The two's complement. */
  function Negated(x: nat): nat
    requires x <= MAX
  {
    if x == 0 then 0 else MAX + 1 - x
  }

  /** Whether there is a minus sign, and where the number starts, after spaces and sign. */
  function Sign(s: string): (r: (bool, nat))
    ensures r.1 <= |s|
  {
    var i := SkipSpaces(s, 0);
    var negative := At(s, i) == '-';
    (negative, if negative || At(s, i) == '+' then i + 1 else i)
  }

  /** Whether there is a minus sign, the base, and where the digits start. */
  function Prefix(s: string, base: nat): (r: (bool, nat, nat))
    ensures r.2 <= |s| && r.1 > 0 && (base <= 36 ==> r.1 <= 36)
  {
    var (negative, j) := Sign(s);
    var (b, k) := Detect(s, j, base);
    (negative, b, k)
  }

  /** What a string says: spaces, a sign, a prefix, digits. The result is the saturated number, or
      its two's complement after a minus sign; the end is the first character that is no digit. */
  function Meaning(s: string, base: nat): (nat, nat)
  {
    var (negative, b, k) := Prefix(s, base);
    var e := DigitsEnd(s, k, b);
    var x := Saturate(ValueOf(s[k..e], b));
    (if negative then Negated(x) else x, e)
  }

  function Append(x: nat, base: nat, digit: nat): nat
  {
    x * base + digit
  }

  lemma ValueStep(s: string, k: nat, e: nat, base: nat)
    requires k <= e < |s| && DigitOf(s[e], base) >= 0
    ensures ValueOf(s[k..e + 1], base) == Append(ValueOf(s[k..e], base), base, DigitOf(s[e], base))
  {
    var t := s[k..e + 1];
    assert t[..|t| - 1] == s[k..e];
  }

  /** The test for overflow: it is made before the multiplication, and exact. */
  lemma OverflowTest(x: nat, digit: nat, base: nat)
    requires base > 0 && digit <= MAX
    ensures x > (MAX - digit) / base <==> Append(x, base, digit) > MAX
  {
    var q := (MAX - digit) / base;
    if x > q {
      assert x * base >= (q + 1) * base;
    } else {
      assert x * base <= q * base;
    }
  }

  lemma StaysLarge(v: nat, base: nat, digit: nat)
    requires v > MAX && base > 0
    ensures Append(v, base, digit) > MAX
  {
    assert v * base >= v;
  }

  /** Whether another digit would overflow. */
  predicate TooLarge(x: nat, digit: nat, base: nat)
    requires base > 0 && digit <= MAX
  {
    x > (MAX - digit) / base
  }

  /** The digit loop of strtoul. */
  method ReadDigits(s: string, k: nat, base: nat) returns (x: nat, end: nat)
    requires k <= |s| && 0 < base <= 36
    ensures end == DigitsEnd(s, k, base) && x == Saturate(ValueOf(s[k..end], base))
  {
    hide ValueOf, Append;
    EmptyValue(s, k, base);
    x, end := 0, k;
    var overflow := false;
    while DigitOf(At(s, end), base) >= 0
      invariant k <= end <= |s| && DigitsEnd(s, end, base) == DigitsEnd(s, k, base)
      invariant x <= MAX && if overflow then ValueOf(s[k..end], base) > MAX else x == ValueOf(s[k..end], base)
      decreases |s| - end
    {
      var digit := DigitOf(At(s, end), base);
      ValueStep(s, k, end, base);
      OverflowTest(x, digit, base);
      if overflow {
        StaysLarge(ValueOf(s[k..end], base), base, digit);
      }
      if TooLarge(x, digit, base) {
        overflow := true;
      } else {
        x := Append(x, base, digit);
      }
      end := end + 1;
    }
    if overflow {
      x := MAX;
    }
  }

  lemma EmptyValue(s: string, k: nat, base: nat)
    requires k <= |s|
    ensures ValueOf(s[k..k], base) == 0
  {
  }

  method Strtoul(s: string, base: nat) returns (x: nat, end: nat)
    requires base <= 36
    ensures (x, end) == Meaning(s, base)
  {
    hide ValueOf, DigitOf, DigitsEnd, SkipSpaces, Detect, Saturate;
    var i := SkipWhite(s);
    var negative := At(s, i) == '-';
    if negative || At(s, i) == '+' {
      i := i + 1;
    }
    var b, k := FindBase(s, i, base);
    x, end := ReadDigits(s, k, b);
    if negative {
      x := Negated(x);
    }
  }

  method SkipWhite(s: string) returns (i: nat)
    ensures i == SkipSpaces(s, 0)
  {
    i := 0;
    while IsSpace(At(s, i))
      invariant i <= |s| && SkipSpaces(s, i) == SkipSpaces(s, 0)
      decreases |s| - i
    {
      i := i + 1;
    }
  }

  method FindBase(s: string, i: nat, base: nat) returns (b: nat, k: nat)
    requires i <= |s|
    ensures (b, k) == Detect(s, i, base)
  {
    b, k := base, i;
    if base == 0 {
      if HexPrefix(s, i) {
        b, k := 16, i + 2;
      } else if At(s, i) == '0' {
        b := 8;
      } else {
        b := 10;
      }
    } else if base == 16 && HexPrefix(s, i) {
      k := i + 2;
    }
  }

  // ----- Writing -----

  /** The digits of a number, most significant first. */
  function Written(v: nat, base: nat, lower: bool): string
    requires 2 <= base <= 36
    decreases v
  {
    Quotient(v, base);
    if v < base then [Digit(v % base, lower)] else Written(v / base, base, lower) + [Digit(v % base, lower)]
  }

  function Digit(d: nat, lower: bool): char
    requires d < 36
  {
    if lower then LowerDigit(d) else UpperDigit(d)
  }

  lemma Quotient(v: nat, base: nat)
    requires base >= 2
    ensures v % base < base && v == v / base * base + v % base
    ensures v < base <==> v / base == 0
    ensures v >= base ==> 0 < v / base < v
  {
    if v >= base {
      assert v / base * base <= v;
      assert v / base * 2 <= v / base * base;
    }
  }

  /** Write a number with its terminator at the end of the buffer. The base is at least 8 and at
      most 16, as for all formats; a negative base asks for lower case. */
  method FillNumbuf(buf: array<char>, val: nat, base: int) returns (start: nat)
    requires buf.Length == 24 && val <= MAX && (8 <= base <= 16 || -16 <= base <= -8)
    modifies buf
    ensures start < 23 && buf[23] == '\0'
    ensures buf[start..23] == Written(val, if base < 0 then -base else base, base < 0)
    ensures forall c :: c in buf[start..23] ==> InCase(c, base < 0)
  {
    hide Written, Digit, Power, InCase;
    var lower := base < 0;
    var b := if base < 0 then -base else base;
    start := 23;
    buf[start] := '\0';
    var v: nat := val;
    PowerBound();
    assert Written(v, b, lower) + buf[start..23] == Written(v, b, lower);
    var done := false;
    while !done
      invariant start <= 23 && buf[23] == '\0'
      invariant !done ==> start >= 2 && v < Power(8, start - 1)
      invariant done ==> 1 <= start < 23
      invariant (if done then [] else Written(v, b, lower)) + buf[start..23] == Written(val, b, lower)
      decreases start, if done then 0 else 1
    {
      ghost var was := buf[start..23];
      Quotient(v, b);
      var c := Digit(v % b, lower);
      PowerStep(v, b, start - 1);
      WrittenStep(v, b, lower, was);
      start := start - 1;
      buf[start] := c;
      assert buf[start..23] == [c] + was;
      v := v / b;
      done := v == 0;
    }
    WrittenCase(val, b, lower);
  }

  predicate InCase(c: char, lower: bool)
  {
    '0' <= c <= '9' || (if lower then 'a' <= c <= 'f' else 'A' <= c <= 'F')
  }

  /** Digits are written in the wanted case. */
  lemma {:induction false} WrittenCase(v: nat, base: nat, lower: bool)
    requires 2 <= base <= 16
    ensures forall c :: c in Written(v, base, lower) ==> InCase(c, lower)
  {
    Quotient(v, base);
    if v >= base {
      WrittenCase(v / base, base, lower);
    }
  }

  lemma WrittenStep(v: nat, base: nat, lower: bool, rest: string)
    requires 2 <= base <= 36
    ensures v % base < base
    ensures Written(v, base, lower) + rest
      == (if v / base == 0 then [] else Written(v / base, base, lower)) + ([Digit(v % base, lower)] + rest)
  {
    Quotient(v, base);
  }

  lemma PowerBound()
    ensures Power(8, 22) > MAX
  {
    assert Power(8, 11) == 0x2_0000_0000;
    assert Power(8, 22) == 0x800 * 0x800 * 0x800 * 0x2_0000_0000;
  }

  lemma PowerStep(v: nat, b: nat, n: nat)
    requires v < Power(8, n) && b >= 8 && n > 0
    ensures v / b < Power(8, n - 1) && (n == 1 ==> v / b == 0)
  {
    assert v / b <= v / 8 by { DivisorBound(v, b); }
  }

  lemma DivisorBound(v: nat, b: nat)
    requires b >= 8
    ensures v / b <= v / 8
  {
    var q := v / b;
    assert q * 8 <= q * b <= v;
  }

  function Power(b: nat, n: nat): nat
  {
    if n == 0 then 1 else b * Power(b, n - 1)
  }

  // ----- Round trip -----

  lemma {:induction false} WrittenValue(v: nat, base: nat, lower: bool)
    requires 2 <= base <= 17
    ensures ValueOf(Written(v, base, lower), base) == v
    ensures forall k :: 0 <= k < |Written(v, base, lower)| ==> DigitOf(Written(v, base, lower)[k], base) >= 0
  {
    hide DigitOf, UpperDigit, LowerDigit;
    Quotient(v, base);
    DigitsRead(base, v % base);
    var s := Written(v, base, lower);
    if v >= base {
      WrittenValue(v / base, base, lower);
      assert s[..|s| - 1] == Written(v / base, base, lower);
    } else {
      assert s[..|s| - 1] == [];
    }
  }

  lemma {:induction false} WrittenStart(v: nat, base: nat, lower: bool)
    requires 2 <= base <= 36
    ensures var s := Written(v, base, lower);
      |s| > 0 && s[0] != '-' && s[0] != '+' && !IsSpace(s[0]) && (s[0] == '0' <==> v == 0) && (v == 0 ==> |s| == 1)
  {
    Quotient(v, base);
    if v >= base {
      WrittenStart(v / base, base, lower);
    }
  }

  lemma {:induction false} AllDigits(s: string, i: nat, base: nat)
    requires i <= |s| && forall k :: i <= k < |s| ==> DigitOf(s[k], base) >= 0
    ensures DigitsEnd(s, i, base) == |s|
    decreases |s| - i
  {
    if i < |s| {
      AllDigits(s, i + 1, base);
    }
  }

  /** What was written is read back, up to the terminator. */
  lemma RoundTrip(v: nat, base: nat, lower: bool)
    requires v <= MAX && 8 <= base <= 16
    ensures var s := Written(v, base, lower); Meaning(s, base) == (v, |s|)
  {
    var s := Written(v, base, lower);
    WrittenStart(v, base, lower);
    WrittenValue(v, base, lower);
    AllDigits(s, 0, base);
    assert s[0..|s|] == s;
  }
}
