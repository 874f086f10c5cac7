/**
 * JavaScript's `Number(value)` for the two kinds of value a form field can hold:
 * a string (the StringToNumber grammar of section 7.1.4.1.1 of ECMA-262) and
 * `null` (which converts to 0). Finite numbers are kept as exact rationals.
 */
module JsNumber {
  import opened JsValues

  datatype Number = NaN | PositiveInfinity | NegativeInfinity | Finite(value: real)

  /** `Number.isInteger(n)`: finite with no fractional part. */
  predicate IsInteger(n: Number) {
    n.Finite? && n.value.Floor as real == n.value
  }

  /** `n < bound` for a real bound; NaN compares false. */
  predicate LessThan(n: Number, bound: real) {
    match n
    case NaN => false
    case PositiveInfinity => false
    case NegativeInfinity => true
    case Finite(v) => v < bound
  }

  /* ---------------- white space ---------------- */

  /** StrWhiteSpaceChar: the WhiteSpace and LineTerminator code points. */
  predicate IsStrWhiteSpace(c: char) {
    var n := c as int;
    n == 0x09 || n == 0x0A || n == 0x0B || n == 0x0C || n == 0x0D || n == 0x20
    || n == 0xA0 || n == 0x1680 || 0x2000 <= n <= 0x200A || n == 0x2028 || n == 0x2029
    || n == 0x202F || n == 0x205F || n == 0x3000 || n == 0xFEFF
  }

  /** Drops the leading white space. */
  function TrimStart(s: string): (r: string)
    ensures |r| <= |s| && r == s[|s| - |r|..]
    ensures r == [] || !IsStrWhiteSpace(r[0])
    ensures forall k :: 0 <= k < |s| - |r| ==> IsStrWhiteSpace(s[k])
  {
    if s != [] && IsStrWhiteSpace(s[0]) then TrimStart(s[1..]) else s
  }

  /** Drops the trailing white space. */
  function TrimEnd(s: string): (r: string)
    ensures |r| <= |s| && r == s[..|r|]
    ensures r == [] || !IsStrWhiteSpace(r[|r| - 1])
    ensures forall k :: |r| <= k < |s| ==> IsStrWhiteSpace(s[k])
  {
    if s != [] && IsStrWhiteSpace(s[|s| - 1]) then TrimEnd(s[..|s| - 1]) else s
  }

  function Trim(s: string): string {
    TrimEnd(TrimStart(s))
  }

  /* ---------------- digits in a radix ---------------- */

  /** The value of a hexadecimal digit (which covers the binary, octal and decimal ones). */
  function HexDigitValue(c: char): Option<nat> {
    if IsDigit(c) then Some(DigitValue(c))
    else if 'a' <= c <= 'f' then Some(c as int - 'a' as int + 10)
    else if 'A' <= c <= 'F' then Some(c as int - 'A' as int + 10)
    else None
  }

  predicate IsRadixDigit(c: char, radix: nat) {
    HexDigitValue(c).Some? && HexDigitValue(c).value < radix
  }

  predicate AllRadixDigits(s: string, radix: nat) {
    forall k :: 0 <= k < |s| ==> IsRadixDigit(s[k], radix)
  }

  /** `v * radix` for the three radices of the prefixed literals, written out so that it stays linear. */
  function TimesRadix(v: nat, radix: nat): nat
    requires radix == 2 || radix == 8 || radix == 16
  {
    if radix == 2 then 2 * v else if radix == 8 then 8 * v else 16 * v
  }

  function RadixValue(s: string, radix: nat): nat
    requires radix == 2 || radix == 8 || radix == 16
    requires AllRadixDigits(s, radix)
  {
    if s == [] then 0
    else TimesRadix(RadixValue(s[..|s| - 1], radix), radix) + HexDigitValue(s[|s| - 1]).value
  }

  /** The radix a `0x`, `0o` or `0b` prefix announces; 0 for any other letter. */
  function PrefixRadix(c: char): nat {
    if c == 'x' || c == 'X' then 16
    else if c == 'o' || c == 'O' then 8
    else if c == 'b' || c == 'B' then 2
    else 0
  }

  /** NonDecimalIntegerLiteral: `0x`, `0o` or `0b` followed by at least one digit. */
  predicate IsNonDecimalLiteral(t: string) {
    |t| > 2 && t[0] == '0' && PrefixRadix(t[1]) != 0 && AllRadixDigits(t[2..], PrefixRadix(t[1]))
  }

  /* ---------------- decimal literals ---------------- */

  /** `m * 10^e`, one factor of ten at a time. */
  function ScaleByPowerOf10(m: real, e: int): real
    decreases if e >= 0 then e else -e
  {
    if e == 0 then m
    else if e > 0 then 10.0 * ScaleByPowerOf10(m, e - 1)
    else ScaleByPowerOf10(m, e + 1) / 10.0
  }

  /** The value of the digits `f` written after a decimal point. */
  function FractionValue(f: string): real
    requires AllDigits(f)
  {
    ScaleByPowerOf10(DecimalValue(f) as real, -|f|)
  }

  function Pow10Nat(k: nat): (r: nat)
    ensures r >= 1
  {
    if k == 0 then 1 else 10 * Pow10Nat(k - 1)
  }

  /** Scaling down by 10^k divides by 10^k. */
  lemma {:induction false} ScaleDown(x: real, k: nat)
    ensures ScaleByPowerOf10(x, -(k as int)) * (Pow10Nat(k) as real) == x
    decreases k
  {
    if k > 0 {
      ScaleDown(x, k - 1);
      var y := ScaleByPowerOf10(x, -((k - 1) as int));
      assert ScaleByPowerOf10(x, -(k as int)) == y / 10.0;
      assert Pow10Nat(k) as real == 10.0 * (Pow10Nat(k - 1) as real);
    }
  }

  /** A numeral of k digits denotes less than 10^k. */
  lemma {:induction false} DecimalValueBelowPow10(s: string)
    requires AllDigits(s)
    ensures DecimalValue(s) < Pow10Nat(|s|)
    decreases |s|
  {
    if s != [] {
      DecimalValueBelowPow10(s[..|s| - 1]);
    }
  }

  /** The digits after a point denote a proper fraction, positive unless they are all zeros. */
  lemma FractionDigitsValue(f: string)
    requires AllDigits(f)
    ensures 0.0 <= FractionValue(f) < 1.0
    ensures DecimalValue(f) > 0 ==> FractionValue(f) > 0.0
  {
    var n := DecimalValue(f);
    var p := Pow10Nat(|f|) as real;
    var q := ScaleByPowerOf10(n as real, -|f|);
    DecimalValueBelowPow10(f);
    ScaleDown(n as real, |f|);
    ProperFraction(q, n as real, p);
  }

  /** A quotient by a positive number of something smaller than it lies in [0, 1). */
  lemma ProperFraction(q: real, n: real, p: real)
    requires q * p == n && 0.0 <= n < p
    ensures 0.0 <= q < 1.0
    ensures n > 0.0 ==> q > 0.0
  {
  }

  /** Index of the first character of `s` that is in `cs`, or |s| when there is none. */
  function FirstIndexIn(s: string, cs: set<char>): (i: nat)
    ensures i <= |s|
    ensures i < |s| ==> s[i] in cs
    ensures forall k :: 0 <= k < i ==> s[k] !in cs
  {
    if s == [] || s[0] in cs then 0 else 1 + FirstIndexIn(s[1..], cs)
  }

  /** The digits before and after a point, either of which may be empty but not both. */
  function PointedValue(whole: string, frac: string): Option<real> {
    if AllDigits(whole) && AllDigits(frac) && |whole| + |frac| > 0 then
      Some(DecimalValue(whole) as real + FractionValue(frac))
    else None
  }

  /** `DecimalDigits [. DecimalDigits]`, `DecimalDigits .` or `. DecimalDigits`. */
  function MantissaValue(m: string): Option<real> {
    var d := FirstIndexIn(m, {'.'});
    if d < |m| then PointedValue(m[..d], m[d + 1..]) else PointedValue(m, "")
  }

  /** The digits after `e` or `E`, with an optional sign. */
  function ExponentValue(x: string): Option<int> {
    if x != [] && (x[0] == '+' || x[0] == '-') then
      var digits := x[1..];
      if digits != [] && AllDigits(digits) then
        var magnitude: int := DecimalValue(digits);
        Some(if x[0] == '-' then -magnitude else magnitude)
      else None
    else if x != [] && AllDigits(x) then Some(DecimalValue(x))
    else None
  }

  /** StrUnsignedDecimalLiteral other than `Infinity`: a mantissa and an optional exponent. */
  function UnsignedDecimalValue(u: string): Option<real> {
    var e := FirstIndexIn(u, {'e', 'E'});
    var m := MantissaValue(u[..e]);
    var x := if e == |u| then Some(0) else ExponentValue(u[e + 1..]);
    if m.Some? && x.Some? then Some(ScaleByPowerOf10(m.value, x.value)) else None
  }

  /** StringToNumber on a string whose surrounding white space is already removed. */
  function TrimmedToNumber(t: string): Number {
    if t == "" then Finite(0.0)
    else if IsNonDecimalLiteral(t) then Finite(RadixValue(t[2..], PrefixRadix(t[1])) as real)
    else
      var negative := t[0] == '-';
      var u := if t[0] == '+' || t[0] == '-' then t[1..] else t;
      if u == "Infinity" then (if negative then NegativeInfinity else PositiveInfinity)
      else match UnsignedDecimalValue(u)
        case Some(v) => Finite(if negative then -v else v)
        case None => NaN
  }

  /** `Number(s)` for a string `s`. */
  function StringToNumber(s: string): Number {
    TrimmedToNumber(Trim(s))
  }

  /** `Number(v)` for a form entry: `null` converts to 0. */
  function ToNumber(v: Option<string>): Number {
    match v
    case None => Finite(0.0)
    case Some(s) => StringToNumber(s)
  }

  /* ---------------- what the conversion gives ---------------- */

  /** A string without characters from `cs` has no first one. */
  lemma NoIndexIn(s: string, cs: set<char>)
    requires forall k :: 0 <= k < |s| ==> s[k] !in cs
    ensures FirstIndexIn(s, cs) == |s|
  {
  }

  /** A digit is neither a point nor an exponent mark. */
  lemma DigitsHaveNoMarks(s: string)
    requires AllDigits(s)
    ensures FirstIndexIn(s, {'.'}) == |s|
    ensures FirstIndexIn(s, {'e', 'E'}) == |s|
  {
    forall k | 0 <= k < |s| ensures s[k] !in {'.'} && s[k] !in {'e', 'E'} {
      assert IsDigit(s[k]);
    }
    NoIndexIn(s, {'.'});
    NoIndexIn(s, {'e', 'E'});
  }

  /** The mantissa reading of a plain numeral is the number it denotes. */
  lemma NumeralMantissaValue(s: string)
    requires s != "" && AllDigits(s)
    ensures MantissaValue(s) == Some(DecimalValue(s) as real)
  {
    DigitsHaveNoMarks(s);
    assert s[..|s|] == s;
  }

  /** The unsigned-literal reading of a plain numeral is the number it denotes. */
  lemma NumeralUnsignedValue(s: string)
    requires s != "" && AllDigits(s)
    ensures UnsignedDecimalValue(s) == Some(DecimalValue(s) as real)
  {
    DigitsHaveNoMarks(s);
    assert s[..|s|] == s;
    NumeralMantissaValue(s);
  }

  /** A string that neither starts nor ends with white space is its own trim. */
  lemma NoOuterBlanks(t: string)
    requires t != "" && !IsStrWhiteSpace(t[0]) && !IsStrWhiteSpace(t[|t| - 1])
    ensures Trim(t) == t
  {
    assert TrimStart(t) == t;
  }

  /** A plain decimal numeral converts to the number it denotes. */
  lemma NumeralToNumber(s: string)
    requires s != "" && AllDigits(s)
    ensures StringToNumber(s) == Finite(DecimalValue(s) as real)
  {
    assert IsDigit(s[0]) && IsDigit(s[|s| - 1]);
    NoOuterBlanks(s);
    assert s != "Infinity";
    assert !IsNonDecimalLiteral(s) by { assert |s| > 1 ==> IsDigit(s[1]); }
    NumeralUnsignedValue(s);
  }

  /** A minus sign followed by digits converts to the negated number. */
  lemma NegatedNumeralToNumber(t: string)
    requires |t| >= 2 && t[0] == '-' && AllDigits(t[1..])
    ensures StringToNumber(t) == Finite(-(DecimalValue(t[1..]) as real))
    ensures ToNumber(Some(t)) == Finite(-(DecimalValue(t[1..]) as real))
  {
    assert IsDigit(t[1..][|t| - 2]);
    NoOuterBlanks(t);
    assert !IsNonDecimalLiteral(t);
    assert t[1..] != "Infinity" by { assert IsDigit(t[1..][0]); }
    NumeralUnsignedValue(t[1..]);
  }


  /** In a string whose first mark from `cs` follows a run of characters outside `cs`, the search stops there. */
  lemma FirstIndexAfterRun(w: string, rest: string, cs: set<char>)
    requires forall k :: 0 <= k < |w| ==> w[k] !in cs
    requires rest != [] && rest[0] in cs
    ensures FirstIndexIn(w + rest, cs) == |w|
  {
    var m := w + rest;
    assert m[|w|] == rest[0];
    assert forall k :: 0 <= k < |w| ==> m[k] == w[k];
  }

  /** In `w.f` with `w` made of digits, the first point is the one after `w`. */
  lemma PointAfterDigits(w: string, f: string)
    requires AllDigits(w)
    ensures FirstIndexIn(w + "." + f, {'.'}) == |w|
    ensures (w + "." + f)[..|w|] == w && (w + "." + f)[|w| + 1..] == f
  {
    forall k | 0 <= k < |w| ensures w[k] !in {'.'} {
      assert IsDigit(w[k]);
    }
    assert w + "." + f == w + ("." + f);
    FirstIndexAfterRun(w, "." + f, {'.'});
  }

  /** The mantissa `w.f` denotes the whole part plus the fraction. */
  lemma FractionMantissaValue(w: string, f: string)
    requires AllDigits(w) && AllDigits(f) && f != ""
    ensures MantissaValue(w + "." + f) == Some(DecimalValue(w) as real + FractionValue(f))
  {
    PointAfterDigits(w, f);
  }

  /** A decimal fraction `w.f` has no exponent, so its unsigned reading is its mantissa. */
  lemma FractionUnsignedValue(w: string, f: string)
    requires AllDigits(w) && AllDigits(f) && f != ""
    ensures UnsignedDecimalValue(w + "." + f) ==
      Some(DecimalValue(w) as real + FractionValue(f))
  {
    var m := w + "." + f;
    forall k | 0 <= k < |m| ensures m[k] !in {'e', 'E'} {
      if k < |w| { assert m[k] == w[k] && IsDigit(w[k]); }
      else if k > |w| { assert m[k] == f[k - |w| - 1] && IsDigit(f[k - |w| - 1]); }
    }
    NoIndexIn(m, {'e', 'E'});
    assert m[..|m|] == m;
    FractionMantissaValue(w, f);
  }

  /** An unsigned decimal literal without surrounding blanks converts to the value it denotes. */
  lemma UnsignedLiteralToNumber(t: string, v: real)
    requires t != "" && !IsStrWhiteSpace(t[0]) && !IsStrWhiteSpace(t[|t| - 1])
    requires t[0] != '+' && t[0] != '-' && t != "Infinity" && !IsNonDecimalLiteral(t)
    requires UnsignedDecimalValue(t) == Some(v)
    ensures StringToNumber(t) == Finite(v)
  {
    NoOuterBlanks(t);
  }

  /** A decimal fraction `w.f` is an unsigned decimal literal with no blank at either end. */
  lemma FractionLiteralShape(w: string, f: string)
    requires AllDigits(w) && AllDigits(f) && f != ""
    ensures var m := w + "." + f;
      m != "" && !IsStrWhiteSpace(m[0]) && !IsStrWhiteSpace(m[|m| - 1]) &&
      m[0] != '+' && m[0] != '-' && m != "Infinity" && !IsNonDecimalLiteral(m)
  {
    var m := w + "." + f;
    assert m[|m| - 1] == f[|f| - 1] && IsDigit(f[|f| - 1]);
    assert m[0] == '.' || IsDigit(m[0]) by {
      if |w| > 0 { assert m[0] == w[0] && IsDigit(w[0]); }
    }
    assert !IsNonDecimalLiteral(m) by {
      if |m| > 2 && m[0] == '0' {
        if |w| > 1 { assert m[1] == w[1] && IsDigit(w[1]); } else if |w| == 1 { assert m[1] == '.'; }
      }
    }
  }

  /** A decimal fraction `w.f` converts to the whole part plus the proper fraction the digits denote. */
  lemma FractionToNumber(w: string, f: string)
    requires AllDigits(w) && AllDigits(f) && f != ""
    ensures StringToNumber(w + "." + f) == Finite(DecimalValue(w) as real + FractionValue(f))
  {
    FractionLiteralShape(w, f);
    FractionUnsignedValue(w, f);
    UnsignedLiteralToNumber(w + "." + f, DecimalValue(w) as real + FractionValue(f));
  }

  /** String(n) converts back to n. */
  lemma NatNumeralRoundTrip(n: nat)
    ensures StringToNumber(NatToDecimal(n)) == Finite(n as real)
  {
    NumeralToNumber(NatToDecimal(n));
    DecimalRoundTrip(n);
  }

  /** The empty string, and white space alone, convert to 0. */
  lemma BlankIsZero(s: string)
    requires forall k :: 0 <= k < |s| ==> IsStrWhiteSpace(s[k])
    ensures StringToNumber(s) == Finite(0.0)
  {
  }

  /** A mantissa that starts with neither a digit nor a point is not one. */
  lemma MantissaOfForeignStart(m: string)
    requires m != [] ==> !IsDigit(m[0]) && m[0] != '.'
    ensures MantissaValue(m) == None
  {
    if m != [] {
      var d := FirstIndexIn(m, {'.'});
      assert d > 0;
      assert m[..d][0] == m[0];
    }
  }

  /**
   * A string whose first non-blank character cannot start a numeric literal
   * (not a digit, a sign, a point or the `I` of `Infinity`) converts to NaN.
   */
  lemma ForeignStartIsNaN(s: string)
    requires Trim(s) != ""
    requires Trim(s)[0] !in "0123456789+-.I"
    ensures StringToNumber(s) == NaN
  {
    ForeignTrimmedIsNaN(Trim(s));
  }

  /** The same, for a string already trimmed. */
  lemma ForeignTrimmedIsNaN(t: string)
    requires t != "" && t[0] !in "0123456789+-.I"
    ensures TrimmedToNumber(t) == NaN
  {
    assert !IsNonDecimalLiteral(t);
    assert t != "Infinity";
    var e := FirstIndexIn(t, {'e', 'E'});
    if e > 0 {
      assert t[..e][0] == t[0];
    }
    MantissaOfForeignStart(t[..e]);
  }
}
