/**
 The slice of JavaScript's built-in value semantics that the pages rely on:
 integer-valued numbers with `NaN`, radix-10 `parseInt`, `Number.prototype.toString`,
 the `x || 0` idiom, ASCII `toLowerCase`/`toUpperCase` and `String.prototype.includes`.
 */
module JsValues {

  /** A JavaScript number restricted to integer values, plus `NaN`. */
  datatype JsNum = Finite(n: int) | NaN

  /** `a * b`: `NaN` is absorbing. */
  function Times(a: JsNum, b: JsNum): (r: JsNum)
    ensures r.Finite? <==> a.Finite? && b.Finite?
    ensures r.Finite? ==> r.n == a.n * b.n
  {
    match (a, b)
    case (Finite(x), Finite(y)) => Finite(x * y)
    case _ => NaN
  }

  /** `a + b`: `NaN` is absorbing. */
  function Plus(a: JsNum, b: JsNum): (r: JsNum)
    ensures r.Finite? <==> a.Finite? && b.Finite?
    ensures r.Finite? ==> r.n == a.n + b.n
  {
    match (a, b)
    case (Finite(x), Finite(y)) => Finite(x + y)
    case _ => NaN
  }

  /** `x || 0`: `NaN` and `0` are falsy and give `0`; every other number is kept. */
  function OrZero(x: JsNum): (r: int)
    ensures x.NaN? ==> r == 0
    ensures x.Finite? ==> r == x.n
  {
    if x.Finite? && x.n != 0 then x.n else 0
  }

  predicate IsDigit(c: char) {
    '0' <= c <= '9'
  }

  predicate AllDigits(s: string) {
    forall i :: 0 <= i < |s| ==> IsDigit(s[i])
  }

  function DigitValue(c: char): (d: nat)
    requires IsDigit(c)
    ensures d < 10
  {
    (c as int) - ('0' as int)
  }

  function DigitChar(d: nat): (c: char)
    requires d < 10
    ensures IsDigit(c) && DigitValue(c) == d
  {
    (('0' as int) + d) as char
  }

  /** The longest prefix of `s` made of decimal digits. */
  function DigitRun(s: string): (r: string)
    ensures r <= s
    ensures AllDigits(r)
    ensures |r| < |s| ==> !IsDigit(s[|r|])
  {
    if |s| == 0 || !IsDigit(s[0]) then [] else [s[0]] + DigitRun(s[1..])
  }

  /** The value of a digit string read in base 10, most significant digit first. */
  function DigitsValue(d: string): nat
    requires AllDigits(d)
  {
    if |d| == 0 then 0 else 10 * DigitsValue(d[..|d| - 1]) + DigitValue(d[|d| - 1])
  }

  /** The white-space characters `parseInt` skips (the ASCII ones and no-break space). */
  predicate IsWhiteSpace(c: char) {
    c == ' ' || c == '\t' || c == '\n' || c == '\r' || c == '\U{000B}' || c == '\U{000C}' || c == '\U{00A0}'
  }

  /** `s` with its leading white space removed. */
  function TrimStart(s: string): (r: string)
    ensures |r| <= |s| && r == s[|s| - |r|..]
    ensures |r| > 0 ==> !IsWhiteSpace(r[0])
    ensures forall i :: 0 <= i < |s| - |r| ==> IsWhiteSpace(s[i])
  {
    if |s| > 0 && IsWhiteSpace(s[0]) then TrimStart(s[1..]) else s
  }

  /** A run of digits read with a sign; `NaN` when the run is empty. */
  function SignedValue(negative: bool, digits: string): JsNum
    requires AllDigits(digits)
  {
    if |digits| == 0 then NaN
    else if negative then Finite(-(DigitsValue(digits) as int))
    else Finite(DigitsValue(digits))
  }

  /** An optional sign followed by the longest run of digits. */
  function ParseSigned(t: string): JsNum
  {
    if |t| > 0 && (t[0] == '-' || t[0] == '+') then SignedValue(t[0] == '-', DigitRun(t[1..]))
    else SignedValue(false, DigitRun(t))
  }

  /**
   `parseInt(s)` with the default radix on decimal text: skip leading white space,
   read an optional sign, then the longest run of digits; `NaN` when that run is empty.
   */
  function ParseInt(s: string): JsNum
  {
    ParseSigned(TrimStart(s))
  }

  /** The decimal numeral of a natural number, without leading zeros. */
  function NatToDecimal(n: nat): (r: string)
    ensures |r| > 0 && AllDigits(r)
    ensures |r| > 1 ==> r[0] != '0'
  {
    if n < 10 then [DigitChar(n)] else NatToDecimal(n / 10) + [DigitChar(n % 10)]
  }

  /** `x.toString()` for an integer-valued number or `NaN`. */
  function ToString(x: JsNum): string
  {
    match x
    case NaN => "NaN"
    case Finite(n) => if n < 0 then "-" + NatToDecimal(-n) else NatToDecimal(n)
  }

  /** A numeral as `toString` writes a natural number: digits only, no superfluous leading zero. */
  predicate IsCanonicalNatural(s: string) {
    |s| > 0 && AllDigits(s) && (|s| > 1 ==> s[0] != '0')
  }

  lemma {:induction false} DigitRunOfDigits(s: string)
    requires AllDigits(s)
    ensures DigitRun(s) == s
  {
    if |s| > 0 {
      DigitRunOfDigits(s[1..]);
    }
  }

  lemma {:induction false} DigitsValueOfDecimal(n: nat)
    ensures DigitsValue(NatToDecimal(n)) == n
  {
    var d := NatToDecimal(n);
    if n >= 10 {
      assert d[..|d| - 1] == NatToDecimal(n / 10);
      DigitsValueOfDecimal(n / 10);
    }
  }

  /** `parseInt` of a numeral `toString` wrote for a natural number. */
  lemma ParseIntOfNatDecimal(m: nat)
    ensures ParseInt(NatToDecimal(m)) == Finite(m)
  {
    var d := NatToDecimal(m);
    DigitRunOfDigits(d);
    DigitsValueOfDecimal(m);
    ParseIntOfDigits(d);
  }

  lemma ParseIntOfDigits(d: string)
    requires |d| > 0 && AllDigits(d)
    ensures ParseInt(d) == Finite(DigitsValue(d))
  {
    assert IsDigit(d[0]);
    assert TrimStart(d) == d;
    DigitRunOfDigits(d);
    assert ParseSigned(d) == SignedValue(false, d);
  }

  /** `parseInt` of a numeral `toString` wrote for a negative number. */
  lemma ParseIntOfNegDecimal(n: int)
    requires n < 0
    ensures ParseInt("-" + NatToDecimal(-n)) == Finite(n)
  {
    var d := NatToDecimal(-n);
    var s := "-" + d;
    assert TrimStart(s) == s;
    assert s[1..] == d;
    DigitRunOfDigits(d);
    DigitsValueOfDecimal(-n);
  }

  /** `parseInt` reads back what `toString` wrote, `NaN` included. */
  lemma ParseIntOfToString(x: JsNum)
    ensures ParseInt(ToString(x)) == x
  {
    match x
    case NaN =>
      ParseIntOfNaNText();
    case Finite(n) =>
      if n < 0 {
        ParseIntOfNegativeText(n);
      } else {
        ParseIntOfNonNegativeText(n);
      }
  }

  lemma ParseIntOfNegativeText(n: int)
    requires n < 0
    ensures ParseInt(ToString(Finite(n))) == Finite(n)
  {
    calc {
      ParseInt(ToString(Finite(n)));
      ParseInt("-" + NatToDecimal(-n));
      { ParseIntOfNegDecimal(n); }
      Finite(n);
    }
  }

  lemma ParseIntOfNonNegativeText(n: nat)
    ensures ParseInt(ToString(Finite(n))) == Finite(n)
  {
    var t := ToString(Finite(n));
    assert t == NatToDecimal(n);
    ParseIntOfNatDecimal(n);
  }

  /** `parseInt("NaN")` is `NaN`: the text has no digits. */
  lemma ParseIntOfNaNText()
    ensures ParseInt("NaN") == NaN
  {
    assert TrimStart("NaN") == "NaN";
    assert DigitRun("NaN") == "";
  }

  lemma {:induction false} LeadingNonZeroIsPositive(d: string)
    requires AllDigits(d) && |d| > 0 && d[0] != '0'
    ensures DigitsValue(d) >= 1
  {
    if |d| > 1 {
      LeadingNonZeroIsPositive(d[..|d| - 1]);
    }
  }

  /** `toString` writes back a canonical numeral that `parseInt` read. */
  lemma {:induction false} ToStringOfParseInt(s: string)
    requires IsCanonicalNatural(s)
    ensures ParseInt(s) == Finite(DigitsValue(s))
    ensures ToString(ParseInt(s)) == s
  {
    ParseIntOfDigits(s);
    DecimalOfDigitsValue(s);
  }

  lemma {:induction false} DecimalOfDigitsValue(s: string)
    requires IsCanonicalNatural(s)
    ensures NatToDecimal(DigitsValue(s)) == s
  {
    var init := s[..|s| - 1];
    var n := DigitsValue(s);
    if |init| == 0 {
      assert s == [s[0]];
    } else {
      LeadingNonZeroIsPositive(init);
      assert n / 10 == DigitsValue(init) && n % 10 == DigitValue(s[|s| - 1]);
      DecimalOfDigitsValue(init);
      assert s == init + [s[|s| - 1]];
    }
  }

  function ToLowerChar(c: char): char {
    if 'A' <= c <= 'Z' then (c as int + 32) as char else c
  }

  function ToUpperChar(c: char): char {
    if 'a' <= c <= 'z' then (c as int - 32) as char else c
  }

  /** `s.toLowerCase()` on ASCII letters. */
  function ToLower(s: string): (r: string)
    ensures |r| == |s|
    ensures forall i :: 0 <= i < |s| ==> r[i] == ToLowerChar(s[i])
  {
    if |s| == 0 then [] else [ToLowerChar(s[0])] + ToLower(s[1..])
  }

  /** Lower-casing twice is lower-casing once. */
  lemma ToLowerIdempotent(s: string)
    ensures ToLower(ToLower(s)) == ToLower(s)
  {
  }

  /** `s.includes(t)`: `t` occurs in `s` as a contiguous block (the empty string occurs everywhere). */
  predicate Includes(s: string, t: string)
    decreases |s|
  {
    t <= s || (|s| > 0 && Includes(s[1..], t))
  }

  /** `t` sits in `s` at offset `i`. */
  predicate OccursAt(s: string, t: string, i: int) {
    0 <= i <= |s| - |t| && s[i..i + |t|] == t
  }

  /** `Includes` holds exactly when `t` sits at some offset of `s`. */
  lemma {:induction false} IncludesAtOffset(s: string, t: string)
    ensures Includes(s, t) <==> exists i :: OccursAt(s, t, i)
  {
    if |s| > 0 {
      IncludesAtOffset(s[1..], t);
      if t <= s {
        assert OccursAt(s, t, 0);
      } else if Includes(s[1..], t) {
        var i :| OccursAt(s[1..], t, i);
        assert s[1..][i..i + |t|] == s[i + 1..i + 1 + |t|];
        assert OccursAt(s, t, i + 1);
      }
      if exists i :: OccursAt(s, t, i) {
        var i :| OccursAt(s, t, i);
        if i > 0 {
          assert s[1..][i - 1..i - 1 + |t|] == s[i..i + |t|];
          assert OccursAt(s[1..], t, i - 1);
        } else {
          assert t <= s;
        }
      }
    } else {
      if exists i :: OccursAt(s, t, i) {
        assert t == [];
      } else {
        assert OccursAt(s, t, 0) ==> t == [];
      }
    }
  }
}
