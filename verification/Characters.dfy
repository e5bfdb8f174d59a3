/** Characters as the C library classifies and reads them. */
module Characters {

  predicate IsSpace(c: char)
  {
    '\t' <= c <= '\r' || c == ' '
  }

  /** The value of a digit of the base, or -1 for any other character. */
  function DigitValue(c: char, base: nat): int
  {
    var d := if '0' <= c <= '9' then c as int - 48
             else if 'a' <= c <= 'z' then c as int - 87
             else if 'A' <= c <= 'Z' then c as int - 55 else -1;
    if d < base then d else -1
  }

  predicate AreDigits(t: string, base: nat)
  {
    t != [] && forall i :: 0 <= i < |t| ==> DigitValue(t[i], base) >= 0
  }

  /** The number that a digit string stands for. */
  function DigitsValue(t: string, base: nat): nat
  {
    if t == [] then 0
    else
      var d := DigitValue(t[|t| - 1], base);
      DigitsValue(t[..|t| - 1], base) * base + if d < 0 then 0 else d
  }
}
