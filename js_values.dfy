/**
 * The few JavaScript value operations the invitation pages rely on, stated over
 * Dafny values: `string | undefined` as Option<string>, truthiness and `||` on it,
 * String.prototype.includes, String.prototype.padStart, String(n) for a
 * non-negative integer below 10^21, the UTF-16 length of a string, and `filter(Boolean)`.
 */
module JsValues {

  datatype Option<+T> = None | Some(value: T)

  /* ---------------- truthiness and || on string | undefined ---------------- */

  /** A `string | undefined` value is truthy when it is defined and non-empty. */
  predicate Truthy(v: Option<string>) {
    v.Some? && v.value != ""
  }

  /** `a || b` where both operands are `string | undefined`. */
  function Or(a: Option<string>, b: Option<string>): Option<string> {
    if Truthy(a) then a else b
  }

  /** `a || d` where `d` is a string literal. */
  function OrDefault(a: Option<string>, d: string): string {
    if Truthy(a) then a.value else d
  }

  /** The value chosen by `a || b || d` is the first truthy operand, else `d`. */
  lemma OrChain(a: Option<string>, b: Option<string>, d: string)
    ensures Truthy(a) ==> OrDefault(Or(a, b), d) == a.value
    ensures !Truthy(a) && Truthy(b) ==> OrDefault(Or(a, b), d) == b.value
    ensures !Truthy(a) && !Truthy(b) ==> OrDefault(Or(a, b), d) == d
    ensures d != "" ==> OrDefault(Or(a, b), d) != ""
  {
  }

  /* ---------------- String.prototype.includes ---------------- */

  /** `p` occurs in `s` starting at index `i`. */
  predicate OccursAt(s: string, p: string, i: int) {
    0 <= i && i + |p| <= |s| && s[i..i + |p|] == p
  }

  /** `s.includes(p)`: `p` occurs in `s` at some index. */
  predicate Includes(s: string, p: string) {
    exists i :: 0 <= i <= |s| && OccursAt(s, p, i)
  }

  /**
   * The first index at which `p` occurs in `s` at or after `from`, or -1:
   * the left-to-right search `includes` is defined by.
   */
  function IndexOf(s: string, p: string, from: nat): (r: int)
    ensures r == -1 || (from <= r && OccursAt(s, p, r))
    ensures forall i :: from <= i < r ==> !OccursAt(s, p, i)
    decreases |s| - from
  {
    if from + |p| > |s| then -1
    else if s[from..from + |p|] == p then from
    else IndexOf(s, p, from + 1)
  }

  /** The search from the start fails exactly when there is no occurrence. */
  lemma {:induction false} IndexOfFindsEveryOccurrence(s: string, p: string, from: nat)
    ensures IndexOf(s, p, from) == -1 <==> forall i :: from <= i ==> !OccursAt(s, p, i)
    decreases |s| - from
  {
    if from + |p| <= |s| && s[from..from + |p|] != p {
      IndexOfFindsEveryOccurrence(s, p, from + 1);
    }
  }

  /** `includes` is the search returning an index. */
  lemma IncludesIffFound(s: string, p: string)
    ensures Includes(s, p) <==> IndexOf(s, p, 0) != -1
  {
    IndexOfFindsEveryOccurrence(s, p, 0);
  }

  /** A string without the first character of a non-empty pattern cannot include it. */
  lemma NotIncludesWithoutFirstChar(s: string, p: string)
    requires |p| > 0 && p[0] !in s
    ensures !Includes(s, p)
  {
    forall i ensures !OccursAt(s, p, i) {
      if 0 <= i && i + |p| <= |s| {
        assert s[i..i + |p|][0] == s[i];
      }
    }
  }

  /** A string includes every one of its prefixes. */
  lemma PrefixIncluded(s: string, p: string)
    requires |p| <= |s| && s[..|p|] == p
    ensures Includes(s, p)
  {
    assert OccursAt(s, p, 0);
  }

  /* ---------------- String.prototype.padStart ---------------- */

  /** The string of `n` copies of `c`. */
  function Repeat(c: char, n: nat): (r: string)
    ensures |r| == n
    ensures forall k :: 0 <= k < n ==> r[k] == c
  {
    if n == 0 then "" else [c] + Repeat(c, n - 1)
  }

  /**
   * `s.padStart(width, fill)` with a one-character filler: `s` itself when it is
   * already at least `width` long, else `s` preceded by as many fillers as needed.
   */
  function PadStart(s: string, width: nat, fill: char): (r: string)
    ensures |r| == if |s| >= width then |s| else width
    ensures r[|r| - |s|..] == s
    ensures forall k :: 0 <= k < |r| - |s| ==> r[k] == fill
  {
    if |s| >= width then s else Repeat(fill, width - |s|) + s
  }

  /* ---------------- decimal digits, String(n) ---------------- */

  predicate IsDigit(c: char) {
    '0' <= c <= '9'
  }

  predicate AllDigits(s: string) {
    forall k :: 0 <= k < |s| ==> IsDigit(s[k])
  }

  function DigitValue(c: char): (d: nat)
    requires IsDigit(c)
    ensures d < 10
  {
    (c as int) - ('0' as int)
  }

  function DigitChar(d: nat): (c: char)
    requires d < 10
    ensures IsDigit(c) && DigitValue(c) == d
  {
    (('0' as int) + d) as char
  }

  /** The number a string of decimal digits denotes (leading zeros allowed). */
  function DecimalValue(s: string): nat
    requires AllDigits(s)
  {
    if s == [] then 0 else DecimalValue(s[..|s| - 1]) * 10 + DigitValue(s[|s| - 1])
  }

  /**
   * String(n) for a non-negative integer below 10^21: its shortest decimal
   * numeral. From 10^21 on JavaScript writes an exponent instead.
   */
  function NatToDecimal(n: nat): (r: string)
    ensures |r| >= 1 && AllDigits(r)
    ensures n > 0 ==> r[0] != '0'
    ensures n < 10 <==> |r| == 1
    decreases n
  {
    if n < 10 then [DigitChar(n)] else NatToDecimal(n / 10) + [DigitChar(n % 10)]
  }

  /** Reading back the numeral String(n) gives n. */
  lemma {:induction false} DecimalRoundTrip(n: nat)
    ensures DecimalValue(NatToDecimal(n)) == n
    decreases n
  {
    var r := NatToDecimal(n);
    if n >= 10 {
      DecimalRoundTrip(n / 10);
      assert r[..|r| - 1] == NatToDecimal(n / 10);
    } else {
      assert r[..|r| - 1] == [];
    }
  }

  /** A numeral made only of zeros denotes 0. */
  lemma {:induction false} ZerosValue(k: nat)
    ensures AllDigits(Repeat('0', k)) && DecimalValue(Repeat('0', k)) == 0
    decreases k
  {
    if k > 0 {
      ZerosValue(k - 1);
      var z := Repeat('0', k);
      assert z[..k - 1] == Repeat('0', k - 1);
    }
  }

  /** Leading zeros do not change the number a numeral denotes. */
  lemma {:induction false} LeadingZerosValue(k: nat, s: string)
    requires AllDigits(s)
    ensures AllDigits(Repeat('0', k) + s)
    ensures DecimalValue(Repeat('0', k) + s) == DecimalValue(s)
    decreases |s|
  {
    var z := Repeat('0', k);
    if s == [] {
      assert z + s == z;
      ZerosValue(k);
    } else {
      LeadingZerosValue(k, s[..|s| - 1]);
      assert (z + s)[..|z + s| - 1] == z + s[..|s| - 1];
    }
  }

  /** Numbers below 100 have numerals of at most two digits. */
  lemma {:induction false} TwoDigitNumeral(n: nat)
    requires n < 100
    ensures |NatToDecimal(n)| <= 2
    ensures n >= 10 ==> |NatToDecimal(n)| == 2
  {
    if n >= 10 {
      assert NatToDecimal(n) == NatToDecimal(n / 10) + [DigitChar(n % 10)];
      assert |NatToDecimal(n / 10)| == 1;
    }
  }

  /* ---------------- String.prototype.length ---------------- */

  /** The UTF-16 length of a string: characters outside the BMP take two code units. */
  function Utf16Length(s: string): (r: nat)
    ensures |s| <= r <= 2 * |s|
  {
    if s == [] then 0 else (if s[0] as int >= 0x1_0000 then 2 else 1) + Utf16Length(s[1..])
  }

  /** On a string of Basic Multilingual Plane characters the UTF-16 length is the character count. */
  lemma {:induction false} Utf16LengthOfBmp(s: string)
    requires forall k :: 0 <= k < |s| ==> s[k] as int < 0x1_0000
    ensures Utf16Length(s) == |s|
    decreases |s|
  {
    if s != [] {
      Utf16LengthOfBmp(s[1..]);
    }
  }

  /* ---------------- Array.prototype.filter(Boolean) ---------------- */

  /** The entries of `[x]` that survive `filter(Boolean)`. */
  function Keep(x: Option<string>): seq<string> {
    if Truthy(x) then [x.value] else []
  }

  /** `xs.filter(Boolean)` on an array of `string | undefined`. */
  function FilterTruthy(xs: seq<Option<string>>): (r: seq<string>)
    ensures |r| <= |xs|
    ensures forall k :: 0 <= k < |r| ==> r[k] != ""
  {
    if xs == [] then [] else Keep(xs[0]) + FilterTruthy(xs[1..])
  }

  /** Filtering a sequence with a first entry keeps that entry's survivor in front. */
  lemma FilterTruthyCons(x: Option<string>, zs: seq<Option<string>>)
    ensures FilterTruthy([x] + zs) == Keep(x) + FilterTruthy(zs)
  {
    assert ([x] + zs)[0] == x && ([x] + zs)[1..] == zs;
  }

  /** Filtering commutes with concatenation, so the survivors keep their order. */
  lemma {:induction false} FilterTruthyAppend(xs: seq<Option<string>>, ys: seq<Option<string>>)
    ensures FilterTruthy(xs + ys) == FilterTruthy(xs) + FilterTruthy(ys)
    decreases |xs|
  {
    if xs == [] {
      assert xs + ys == ys;
    } else {
      var x, rest := xs[0], xs[1..];
      assert FilterTruthy(xs) == Keep(x) + FilterTruthy(rest) by {
        assert xs == [x] + rest;
        FilterTruthyCons(x, rest);
      }
      assert FilterTruthy(xs + ys) == Keep(x) + FilterTruthy(rest + ys) by {
        assert xs + ys == [x] + (rest + ys);
        FilterTruthyCons(x, rest + ys);
      }
      FilterTruthyAppend(rest, ys);
      assert Keep(x) + (FilterTruthy(rest) + FilterTruthy(ys)) == (Keep(x) + FilterTruthy(rest)) + FilterTruthy(ys);
    }
  }

  /** A string survives the filter exactly when it is non-empty and occurs in the input. */
  lemma {:induction false} FilterTruthyMembers(xs: seq<Option<string>>, s: string)
    ensures s in FilterTruthy(xs) <==> s != "" && Some(s) in xs
    decreases |xs|
  {
    if xs != [] {
      FilterTruthyMembers(xs[1..], s);
      assert xs == [xs[0]] + xs[1..];
    }
  }

  /** Nothing survives exactly when no entry is truthy. */
  lemma {:induction false} FilterTruthyEmpty(xs: seq<Option<string>>)
    ensures FilterTruthy(xs) == [] <==> forall i :: 0 <= i < |xs| ==> !Truthy(xs[i])
    decreases |xs|
  {
    if xs != [] {
      FilterTruthyEmpty(xs[1..]);
      assert forall i :: 1 <= i < |xs| ==> xs[i] == xs[1..][i - 1];
    }
  }
}
