/** strtoul as section 7.22.1.4 of ISO/IEC 9899:2011 has it, and when the kernel's strtoul agrees.
    Base 1, which the standard does not define, is taken in the same way as the others. */
module StandardNumbers {
  import opened Characters
  import opened Numbers

  // ----- The subject sequence -----

  /** Hexadecimal digits after 0x or 0X. */
  predicate HexForm(t: string)
  {
    |t| > 2 && t[0] == '0' && (t[1] == 'x' || t[1] == 'X') && AreDigits(t[2..], 16)
  }

  /** The expected form of a number. In base 0 it is that of an integer constant. */
  predicate Subject(t: string, base: nat)
  {
    if base == 0 then HexForm(t) || (AreDigits(t, 8) && t[0] == '0') || (AreDigits(t, 10) && t[0] != '0')
    else AreDigits(t, base) || (base == 16 && HexForm(t))
  }

  /** The base of a number that starts with the character `c`. */
  function BaseFrom(c: char, base: nat): (b: nat)
    ensures b > 0 && (base <= 36 ==> b <= 36)
  {
    if base != 0 then base else if c == '0' then 8 else 10
  }

  function SubjectValue(t: string, base: nat): nat
    requires Subject(t, base)
  {
    if HexForm(t) && (base == 0 || base == 16) then DigitsValue(t[2..], 16)
    else DigitsValue(t, BaseFrom(t[0], base))
  }

  function StandardEnd(s: string, i: nat, base: nat): (e: nat)
    requires i <= |s|
    ensures i <= e <= |s| && (forall k :: i <= k < e ==> DigitValue(s[k], base) >= 0) && (e < |s| ==> DigitValue(s[e], base) < 0)
    decreases |s| - i
  {
    if i < |s| && DigitValue(s[i], base) >= 0 then StandardEnd(s, i + 1, base) else i
  }

  /** A prefix counts only when a digit follows it. */
  predicate PrefixedAt(s: string, j: nat, base: nat)
  {
    (base == 0 || base == 16) && HexPrefix(s, j) && DigitValue(At(s, j + 2), 16) >= 0
  }

  function SubjectEnd(s: string, j: nat, base: nat): (e: nat)
    requires j <= |s|
    ensures j <= e <= |s|
  {
    if PrefixedAt(s, j, base) then StandardEnd(s, j + 2, 16) else StandardEnd(s, j, BaseFrom(At(s, j), base))
  }

  /** It is the end of the longest initial part that has the expected form, if there is one. */
  lemma SubjectLongest(s: string, j: nat, base: nat)
    requires j <= |s|
    ensures
      var e := SubjectEnd(s, j, base);
      && (e > j ==> Subject(s[j..e], base))
      && (forall e' :: e < e' <= |s| ==> !Subject(s[j..e'], base))
  {
    hide DigitValue, StandardEnd;
    PrefixNoDigit();
    var e := SubjectEnd(s, j, base);
    if e > j {
      SubjectForm(s, j, base);
    }
    forall e' | e < e' <= |s| ensures !Subject(s[j..e'], base) {
      NoLonger(s, j, base, e');
    }
  }

  lemma PrefixNoDigit()
    ensures forall b :: b <= 16 ==> DigitValue('x', b) < 0 && DigitValue('X', b) < 0
    ensures DigitValue('0', 8) >= 0 && DigitValue('0', 10) >= 0 && DigitValue('0', 16) >= 0
    ensures forall b :: DigitValue('\0', b) < 0
  {
  }

  lemma SubjectForm(s: string, j: nat, base: nat)
    requires j <= |s| && j < SubjectEnd(s, j, base)
    ensures Subject(s[j..SubjectEnd(s, j, base)], base)
  {
    hide DigitValue, StandardEnd;
    PrefixNoDigit();
    var e := SubjectEnd(s, j, base);
    var t := s[j..e];
    if PrefixedAt(s, j, base) {
      assert t[2..] == s[j + 2..e];
      assert AreDigits(t[2..], 16);
    } else {
      assert AreDigits(t, BaseFrom(At(s, j), base));
    }
  }

  lemma NoLonger(s: string, j: nat, base: nat, e: nat)
    requires j <= |s| && SubjectEnd(s, j, base) < e <= |s|
    ensures !Subject(s[j..e], base)
  {
    hide DigitValue, StandardEnd;
    PrefixNoDigit();
    var t, r := s[j..e], SubjectEnd(s, j, base);
    assert t[r - j] == s[r];
    if |t| > 1 {
      assert t[1] == s[j + 1];
    }
    if |t| > 2 {
      assert t[2..] == s[j + 2..e];
    }
  }

  /** The number and where it ends; 0 and the start of the string when there is none; and the
      largest number for every one that does not fit. */
  function StandardMeaning(s: string, base: nat): (nat, nat)
  {
    var (negative, j) := Sign(s);
    var e := SubjectEnd(s, j, base);
    if e == j then (0, 0)
    else
      SubjectForm(s, j, base);
      var v := SubjectValue(s[j..e], base);
      (if v > MAX then MAX else if negative then Negated(v) else v, e)
  }

  // ----- When the kernel's strtoul agrees -----

  predicate AllRead(s: string, base: nat)
  {
    forall i :: 0 <= i < |s| ==> !Misread(s[i], base)
  }

  /** On a string of digits, a misread one makes the number too large, and otherwise it is right. */
  lemma {:induction false} MisreadValue(s: string, base: nat)
    requires 0 < base <= 36 && forall i :: 0 <= i < |s| ==> DigitValue(s[i], base) >= 0
    ensures if AllRead(s, base) then ValueOf(s, base) == DigitsValue(s, base)
      else ValueOf(s, base) > DigitsValue(s, base)
  {
    hide DigitOf, DigitValue, Misread;
    if s != [] {
      var t, c := s[..|s| - 1], s[|s| - 1];
      MisreadValue(t, base);
      MisreadPunctuation(c, base);
      assert AllRead(s, base) <==> AllRead(t, base) && !Misread(c, base) by {
        assert s == t + [c];
      }
      Larger(ValueOf(t, base), DigitsValue(t, base), base);
    }
  }

  lemma Larger(x: nat, y: nat, base: nat)
    requires base > 0 && x >= y
    ensures x * base >= y * base && (x > y ==> x * base > y * base)
  {
    Sum(y, x - y, base);
    if x > y {
      Sum(x - y - 1, 1, base);
    }
  }

  lemma Sum(a: nat, b: nat, base: nat)
    ensures (a + b) * base == a * base + b * base >= a * base
  {
  }

  /** Reading stops where it should exactly when no misread character stands there. */
  lemma {:induction false} EndRightIff(s: string, i: nat, base: nat)
    requires i <= |s| && 0 < base <= 36
    ensures
      var e := StandardEnd(s, i, base);
      && e <= DigitsEnd(s, i, base)
      && (DigitsEnd(s, i, base) == e <==> !(e < |s| && Misread(s[e], base)))
    decreases |s| - i
  {
    hide DigitOf, DigitValue, Misread;
    if i < |s| {
      MisreadPunctuation(s[i], base);
      DigitRange(s[i], base);
      if DigitValue(s[i], base) >= 0 {
        EndRightIff(s, i + 1, base);
      }
    }
  }

  lemma DigitRange(c: char, base: nat)
    requires base <= 36
    ensures DigitOf(c, base) >= -1 && DigitValue(c, base) >= -1
  {
  }

  /** Where the code finds a prefix and a digit after it, so does the standard. */
  lemma PrefixedSubject(s: string, j: nat, base: nat)
    requires j <= |s| && (base == 0 || base == 16) && HexPrefix(s, j) && StandardEnd(s, j + 2, 16) > j + 2
    ensures
      var e := StandardEnd(s, j + 2, 16);
      SubjectEnd(s, j, base) == e && Subject(s[j..e], base) && SubjectValue(s[j..e], base) == DigitsValue(s[j + 2..e], 16)
  {
    hide DigitValue, DigitsValue, StandardEnd;
    PrefixNoDigit();
    assert PrefixedAt(s, j, base);
    SubjectForm(s, j, base);
    var e := StandardEnd(s, j + 2, 16);
    assert s[j..e][2..] == s[j + 2..e];
    assert s[j..e][1] == s[j + 1];
  }

  /** Where the code finds a prefix without digits, the standard finds the 0 of the prefix. */
  lemma BarePrefix(s: string, j: nat, base: nat)
    requires j <= |s| && (base == 0 || base == 16) && HexPrefix(s, j) && StandardEnd(s, j + 2, 16) == j + 2
    ensures SubjectEnd(s, j, base) == j + 1
  {
    hide DigitValue;
    PrefixNoDigit();
    assert !PrefixedAt(s, j, base);
    var b := BaseFrom('0', base);
    assert StandardEnd(s, j + 1, b) == j + 1;
    assert StandardEnd(s, j, b) == StandardEnd(s, j + 1, b);
  }

  /** Without a prefix both look for digits of the same base at the same place. */
  lemma PlainSubject(s: string, j: nat, base: nat)
    requires j <= |s| && !((base == 0 || base == 16) && HexPrefix(s, j))
    ensures
      var b := BaseFrom(At(s, j), base);
      var e := StandardEnd(s, j, b);
      && SubjectEnd(s, j, base) == e
      && (e > j ==> Subject(s[j..e], base) && SubjectValue(s[j..e], base) == DigitsValue(s[j..e], b))
  {
    hide DigitValue, DigitsValue, StandardEnd;
    var e := StandardEnd(s, j, BaseFrom(At(s, j), base));
    if e > j {
      SubjectForm(s, j, base);
      assert s[j..e][0] == At(s, j);
      if base == 0 || base == 16 {
        NotHexForm(s, j, e);
      }
    }
  }

  /** Together: the same digits, or only the 0 of a prefix, or no number. */
  lemma SubjectFrom(s: string, base: nat)
    requires base <= 36
    ensures
      var (_, j) := Sign(s);
      var (_, b, k) := Prefix(s, base);
      var e, r := StandardEnd(s, k, b), SubjectEnd(s, j, base);
      && (e > k ==> r == e && Subject(s[j..r], base) && SubjectValue(s[j..r], base) == DigitsValue(s[k..e], b))
      && (e == k && k > j ==> j < r < k)
      && (e == k == j ==> r == j)
  {
    hide Sign, DigitsValue, StandardEnd, Subject, SubjectValue, SubjectEnd;
    var (_, j) := Sign(s);
    var (_, b, k) := Prefix(s, base);
    if (base == 0 || base == 16) && HexPrefix(s, j) {
      if StandardEnd(s, k, b) > k {
        PrefixedSubject(s, j, base);
      } else {
        BarePrefix(s, j, base);
      }
    } else {
      PlainSubject(s, j, base);
    }
  }

  lemma NotHexForm(s: string, j: nat, e: nat)
    requires j <= e <= |s| && !HexPrefix(s, j)
    ensures !HexForm(s[j..e])
  {
    if e > j + 1 {
      assert s[j..e][0] == s[j] && s[j..e][1] == s[j + 1];
    }
  }

  /** The number that the code makes of what it read, and the one that the standard makes. */
  lemma NumbersAgreeIff(negative: bool, x: nat, v: nat)
    requires x >= v
    ensures
      var right := if v > MAX then MAX else if negative then Negated(v) else v;
      (if negative then Negated(Saturate(x)) else Saturate(x)) == right <==>
        (x == v || v >= MAX) && !(negative && v > MAX)
  {
  }

  /** Every string: number and end are those of the standard exactly when
      a digit follows spaces, sign and prefix, or there is none of these;
      the character that ends the digits is not misread;
      no digit is misread, unless the number is too large anyway;
      and a number that does not fit has no minus sign. */
  lemma ReadRightIff(s: string, base: nat)
    requires base <= 36
    ensures
      var (negative, b, k) := Prefix(s, base);
      var e := StandardEnd(s, k, b);
      var v := DigitsValue(s[k..e], b);
      Meaning(s, base) == StandardMeaning(s, base) <==>
        && (e > k || k == 0)
        && !(e < |s| && Misread(s[e], b))
        && (AllRead(s[k..e], b) || v >= MAX)
        && !(negative && v > MAX)
  {
    hide ValueOf, DigitsValue, DigitsEnd, StandardEnd, Misread, Negated, Saturate, Detect, SkipSpaces, SubjectEnd, Subject, SubjectValue;
    var (negative, b, k) := Prefix(s, base);
    var (_, j) := Sign(s);
    var e := StandardEnd(s, k, b);
    EndRightIff(s, k, b);
    SubjectFrom(s, base);
    assert Meaning(s, base).1 == DigitsEnd(s, k, b) >= e;
    if e > k {
      if DigitsEnd(s, k, b) == e {
        MisreadValue(s[k..e], b);
        NumbersAgreeIff(negative, ValueOf(s[k..e], b), DigitsValue(s[k..e], b));
      }
    } else if k == 0 {
      NothingRead(s, base);
    }
  }

  /** A string that does not begin with a number: nothing is read, and nothing should be. */
  lemma NothingRead(s: string, base: nat)
    requires base <= 36 && Prefix(s, base).2 == 0 && StandardEnd(s, 0, Prefix(s, base).1) == 0
    ensures StandardMeaning(s, base) == (0, 0) && DigitsValue(s[0..0], Prefix(s, base).1) == 0
    ensures AllRead(s[0..0], Prefix(s, base).1)
    ensures !Prefix(s, base).0
    ensures DigitsEnd(s, 0, Prefix(s, base).1) == 0 ==> Meaning(s, base) == (0, 0)
  {
    hide StandardEnd, DigitsEnd, SubjectEnd, Detect, SkipSpaces;
    SubjectFrom(s, base);
  }

  // ----- Inputs that are read wrong -----

  /** "1:" in base 16 is read as 26 up to its end; it should be read as 1 up to the colon. */
  lemma MisreadExample()
    ensures Meaning("1:", 16) == (26, 2) && StandardMeaning("1:", 16) == (1, 1)
  {
    var s := "1:";
    assert Sign(s) == (false, 0) && Prefix(s, 16) == (false, 16, 0);
    assert DigitsEnd(s, 2, 16) == 2 && DigitsEnd(s, 1, 16) == 2 && DigitsEnd(s, 0, 16) == 2;
    assert StandardEnd(s, 1, 16) == 1 && StandardEnd(s, 0, 16) == 1;
    assert s[0..2] == s && s[..1] == "1" && s[0..1] == "1";
    assert ValueOf("1", 16) == 1 && DigitsValue("1", 16) == 1;
    SubjectFrom(s, 16);
  }

  /** "0xg" in base 16 is read up to the g; only the 0 is a number. */
  lemma BarePrefixExample()
    ensures Meaning("0xg", 16) == (0, 2) && StandardMeaning("0xg", 16) == (0, 1)
  {
    var s := "0xg";
    assert Sign(s) == (false, 0) && Prefix(s, 16) == (false, 16, 2);
    assert DigitsEnd(s, 2, 16) == 2 && StandardEnd(s, 2, 16) == 2;
    assert s[2..2] == [];
    BarePrefix(s, 0, 16);
    SubjectForm(s, 0, 16);
    assert s[0..1] == "0" && DigitsValue("0", 16) == 0;
  }

  /** " +z" in base 10 is no number, so that its end should be its start; it is read up to the z. */
  lemma NoNumberExample()
    ensures Meaning(" +z", 10) == (0, 2) && StandardMeaning(" +z", 10) == (0, 0)
  {
    var s := " +z";
    assert SkipSpaces(s, 1) == 1 && SkipSpaces(s, 0) == 1;
    assert Sign(s) == (false, 2) && Prefix(s, 10) == (false, 10, 2);
    assert DigitsEnd(s, 2, 10) == 2 && StandardEnd(s, 2, 10) == 2;
    assert s[2..2] == [];
    PlainSubject(s, 2, 10);
  }

  /** A minus sign before digits whose number does not fit: the code gives 1 instead of MAX. */
  lemma NegativeTooLarge(t: string)
    requires (forall i :: 0 <= i < |t| ==> '0' <= t[i] <= '9') && DigitsValue(t, 10) > MAX
    ensures Meaning("-" + t, 10) == (1, |t| + 1) && StandardMeaning("-" + t, 10) == (MAX, |t| + 1)
  {
    hide DigitsValue, ValueOf, StandardEnd, DigitsEnd, Subject, SubjectValue, SubjectEnd;
    var s := "-" + t;
    assert Sign(s) == (true, 1) && Prefix(s, 10) == (true, 10, 1);
    assert StandardEnd(s, 1, 10) == |s| && DigitsEnd(s, 1, 10) == |s|;
    assert s[1..|s|] == t;
    assert t != [] by { assert DigitsValue([], 10) == 0 by { EmptyStandard(); } }
    SubjectFrom(s, 10);
    MisreadValue(t, 10);
  }

  lemma EmptyStandard()
    ensures DigitsValue([], 10) == 0
  {
  }

  /** In particular "-18446744073709551616", a minus sign and the digits of 2^64. */
  lemma NegativeTooLargeExample()
    ensures
      var s := "-" + Written(MAX + 1, 10, false);
      Meaning(s, 10) == (1, |s|) && StandardMeaning(s, 10) == (MAX, |s|)
  {
    hide DigitsValue, Meaning, StandardMeaning;
    var t := Written(MAX + 1, 10, false);
    WrittenDigits(MAX + 1);
    WrittenValue(MAX + 1, 10, false);
    MisreadValue(t, 10);
    NegativeTooLarge(t);
  }

  lemma {:induction false} WrittenDigits(v: nat)
    ensures forall i :: 0 <= i < |Written(v, 10, false)| ==> '0' <= Written(v, 10, false)[i] <= '9'
  {
    Quotient(v, 10);
    if v >= 10 {
      WrittenDigits(v / 10);
    }
  }
}
