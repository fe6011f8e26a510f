/**
 * PHP's numeric strings (PHP 8 rules): the leading-numeric scan that `is_numeric`,
 * the `(int)` cast and the arithmetic operators share, and the decimal rendering
 * of an integer that string concatenation uses.
 *
 * Grammar scanned, after optional leading whitespace and an optional sign:
 *   digits [ "." digits? ]  |  "." digits     followed by an optional  [eE] [+-]? digits
 * A match without "." and without exponent is an integer, every other match a float.
 */
module PhpNumber {
  import opened Wrappers
  import opened PhpText

  /** The two kinds of PHP number; a float is modelled by its exact value. */
  datatype Number = IntNum(i: int) | FloatNum(x: real)

  function DigitValue(c: char): (d: nat)
    requires IsDigit(c)
    ensures d < 10
  {
    c as int - '0' as int
  }

  function DigitChar(d: nat): (c: char)
    requires d < 10
    ensures IsDigit(c) && DigitValue(c) == d
  {
    ('0' as int + d) as char
  }

  predicate AllDigits(s: string) {
    forall i :: 0 <= i < |s| ==> IsDigit(s[i])
  }

  predicate AllNumericSpace(s: string) {
    forall i :: 0 <= i < |s| ==> IsNumericSpace(s[i])
  }

  /** The value of a string of decimal digits, most significant first. */
  function DigitsValue(s: string): nat
    requires AllDigits(s)
  {
    if |s| == 0 then 0 else DigitsValue(s[..|s| - 1]) * 10 + DigitValue(s[|s| - 1])
  }

  function Pow10(n: nat): (p: nat)
    ensures p >= 1
  {
    if n == 0 then 1 else 10 * Pow10(n - 1)
  }

  /** Length of the run of digits that starts `s`. */
  function DigitRun(s: string): (n: nat)
    ensures n <= |s| && AllDigits(s[..n])
    ensures n < |s| ==> !IsDigit(s[n])
  {
    if |s| > 0 && IsDigit(s[0]) then 1 + DigitRun(s[1..]) else 0
  }

  /** Length of the run of numeric whitespace that starts `s`. */
  function SpaceRun(s: string): (n: nat)
    ensures n <= |s| && AllNumericSpace(s[..n])
    ensures n < |s| ==> !IsNumericSpace(s[n])
  {
    if |s| > 0 && IsNumericSpace(s[0]) then 1 + SpaceRun(s[1..]) else 0
  }

  /** Length of a well-formed exponent `[eE][+-]?digits` at the start of `s`, or 0 when there is none. */
  function ExponentLength(s: string): (n: nat)
    ensures n <= |s|
    ensures n > 0 ==> n >= 2 && IsDigit(s[n - 1])
  {
    if |s| >= 2 && (s[0] == 'e' || s[0] == 'E') then
      var signed := if s[1] == '+' || s[1] == '-' then 1 else 0;
      var d := DigitRun(s[1 + signed..]);
      if d == 0 then 0 else 1 + signed + d
    else 0
  }

  /** The value of a well-formed exponent of length `n` as a factor: 10^e or 10^-e. */
  function ExponentFactor(s: string, n: nat): (f: real)
    requires 2 <= n <= |s|
    ensures f > 0.0
  {
    var signed := if s[1] == '+' || s[1] == '-' then 1 else 0;
    var digits := s[1 + signed..n];
    if AllDigits(digits) then
      var p := Pow10(DigitsValue(digits)) as real;
      if s[1] == '-' then 1.0 / p else p
    else 1.0
  }

  /**
   * The value of an unsigned float literal made of the integer digits `intPart`,
   * the fraction digits `fracPart` and an exponent `exponent` (empty when absent).
   */
  function FloatValue(intPart: string, fracPart: string, exponent: string): real
    requires AllDigits(intPart) && AllDigits(fracPart)
  {
    assert AllDigits(intPart + fracPart) by {
      forall i | 0 <= i < |intPart + fracPart| ensures IsDigit((intPart + fracPart)[i]) {
        if i >= |intPart| { assert (intPart + fracPart)[i] == fracPart[i - |intPart|]; }
      }
    }
    var mantissa := DigitsValue(intPart + fracPart) as real / Pow10(|fracPart|) as real;
    var factor := if |exponent| >= 2 then ExponentFactor(exponent, |exponent|) else 1.0;
    mantissa * factor
  }

  /**
   * Length of the mantissa `digits [ "." digits? ] | "." digits` at the start of `u`,
   * or 0 when `u` does not start with one.
   */
  function MantissaLength(u: string): (n: nat)
    ensures n <= |u|
    ensures n > 0 ==> IsDigit(u[n - 1]) || u[n - 1] == '.'
    ensures n >= DigitRun(u)
  {
    var whole := DigitRun(u);
    if whole < |u| && u[whole] == '.' then
      var frac := DigitRun(u[whole + 1..]);
      assert frac > 0 ==> u[whole + frac] == u[whole + 1..][frac - 1];
      if whole == 0 && frac == 0 then 0 else whole + 1 + frac
    else whole
  }

  /** Length of the unsigned number (mantissa and exponent) at the start of `u`, 0 when there is none. */
  function UnsignedLength(u: string): (n: nat)
    ensures n <= |u|
    ensures n > 0 ==> IsDigit(u[n - 1]) || u[n - 1] == '.'
  {
    var m := MantissaLength(u);
    if m == 0 then 0
    else
      var e := ExponentLength(u[m..]);
      assert e > 0 ==> u[m + e - 1] == u[m..][e - 1];
      m + e
  }

  /**
   * The value of the unsigned number at the start of `u`: an integer when it has
   * neither a decimal point nor an exponent, a float otherwise.
   */
  function UnsignedValue(u: string): Number
    requires UnsignedLength(u) > 0
  {
    var whole := DigitRun(u);
    var m := MantissaLength(u);
    var e := ExponentLength(u[m..]);
    if m == whole && e == 0 then IntNum(DigitsValue(u[..whole]))
    else
      var fracPart := if m == whole then [] else u[whole + 1..m];
      assert AllDigits(fracPart) by {
        if m > whole { assert fracPart == u[whole + 1..][..DigitRun(u[whole + 1..])]; }
      }
      FloatNum(FloatValue(u[..whole], fracPart, u[m..m + e]))
  }

  function Negate(n: Number): Number {
    match n
    case IntNum(i) => IntNum(-i)
    case FloatNum(x) => FloatNum(-x)
  }

  /** Where the unsigned part of a numeric prefix starts: after leading whitespace and an optional sign. */
  function NumberStart(s: string): (i: nat)
    ensures SpaceRun(s) <= i <= SpaceRun(s) + 1 && i <= |s|
    ensures i == SpaceRun(s) + 1 <==> SpaceRun(s) < |s| && (s[SpaceRun(s)] == '+' || s[SpaceRun(s)] == '-')
  {
    var w := SpaceRun(s);
    if w < |s| && (s[w] == '+' || s[w] == '-') then w + 1 else w
  }

  /**
   * Length of the leading numeric prefix of `s` (whitespace, an optional sign, then
   * a number), or 0 when `s` does not start that way.
   */
  function NumberLength(s: string): (n: nat)
    ensures n <= |s|
    ensures n > 0 ==> IsDigit(s[n - 1]) || s[n - 1] == '.'
  {
    var start := NumberStart(s);
    var u := UnsignedLength(s[start..]);
    assert u > 0 ==> s[start + u - 1] == s[start..][u - 1];
    if u == 0 then 0 else start + u
  }

  /** The value of the leading numeric prefix of `s`, negated after a minus sign. */
  function NumberValue(s: string): Number
    requires NumberLength(s) > 0
  {
    var start := NumberStart(s);
    var v := UnsignedValue(s[start..]);
    if start > SpaceRun(s) && s[start - 1] == '-' then Negate(v) else v
  }

  /** `is_numeric($s)`: the whole string is a number with optional surrounding whitespace. */
  predicate IsNumeric(s: string) {
    NumberLength(s) > 0 && AllNumericSpace(s[NumberLength(s)..])
  }

  /** PHP's float-to-int conversion: truncation toward zero. */
  function Truncate(n: Number): (i: int)
    ensures n.IntNum? ==> i == n.i
    ensures n.FloatNum? ==> (if n.x >= 0.0 then i as real <= n.x < i as real + 1.0 else i as real - 1.0 < n.x <= i as real)
  {
    match n
    case IntNum(i) => i
    case FloatNum(x) => if x >= 0.0 then x.Floor else -((-x).Floor)
  }

  /** `(int)$s`: the leading numeric prefix truncated to an integer; 0 when there is none. */
  function IntCast(s: string): int {
    if NumberLength(s) == 0 then 0 else Truncate(NumberValue(s))
  }

  /**
   * The operand a string becomes in `$s * $n`: its leading numeric prefix (PHP warns
   * when text follows it), or None when PHP 8 throws a TypeError because the string
   * has no numeric prefix at all.
   */
  function ArithmeticOperand(s: string): Option<Number> {
    if NumberLength(s) == 0 then None else Some(NumberValue(s))
  }

  /** The decimal digits of a natural number, as `(string)$n` writes them. */
  function Decimal(n: nat): (r: string)
    ensures |r| > 0 && AllDigits(r) && DigitsValue(r) == n
    ensures |r| > 1 ==> r[0] != '0'
  {
    if n < 10 then [DigitChar(n)]
    else
      var prefix := Decimal(n / 10);
      var r := prefix + [DigitChar(n % 10)];
      assert r[..|r| - 1] == prefix;
      r
  }

  /**
   * A run of digits followed by text that cannot continue a number is a numeric
   * prefix of exactly that run.
   */
  lemma DigitsThenTextLength(d: string, t: string)
    requires |d| > 0 && AllDigits(d)
    requires t == [] || (!IsDigit(t[0]) && t[0] != '.' && t[0] != 'e' && t[0] != 'E')
    ensures NumberStart(d + t) == 0 && MantissaLength(d + t) == |d|
    ensures NumberLength(d + t) == |d|
  {
    var s := d + t;
    assert s[0] == d[0];
    assert SpaceRun(s) == 0;
    DigitRunOfDigits(d, t);
    assert s[0..] == s;
    assert s[|d|..] == t;
  }

  /** ... and its value is the integer those digits spell. */
  lemma DigitsThenText(d: string, t: string)
    requires |d| > 0 && AllDigits(d)
    requires t == [] || (!IsDigit(t[0]) && t[0] != '.' && t[0] != 'e' && t[0] != 'E')
    ensures NumberLength(d + t) == |d| && NumberValue(d + t) == IntNum(DigitsValue(d))
  {
    var s := d + t;
    DigitsThenTextLength(d, t);
    DigitRunOfDigits(d, t);
    assert s[0..] == s;
    assert s[..|d|] == d;
    assert s[|d|..] == t;
  }

  lemma {:induction false} DigitRunOfDigits(d: string, t: string)
    requires AllDigits(d)
    requires t == [] || !IsDigit(t[0])
    ensures DigitRun(d + t) == |d|
  {
    if |d| > 0 {
      assert (d + t)[1..] == d[1..] + t;
      DigitRunOfDigits(d[1..], t);
    } else {
      assert d + t == t;
    }
  }

  /** The decimal rendering of `n` is a numeric string whose integer cast is `n`. */
  lemma DecimalIsNumeric(n: nat)
    ensures NumberLength(Decimal(n)) == |Decimal(n)|
    ensures IsNumeric(Decimal(n)) && IntCast(Decimal(n)) == n
  {
    DigitsThenText(Decimal(n), []);
    assert Decimal(n) + [] == Decimal(n);
    assert Decimal(n)[|Decimal(n)|..] == [];
  }

  /** A numeric string ends in a digit, a decimal point or numeric whitespace, never in a letter. */
  lemma NumericLastChar(s: string)
    requires IsNumeric(s)
    ensures |s| > 0
    ensures IsDigit(s[|s| - 1]) || s[|s| - 1] == '.' || IsNumericSpace(s[|s| - 1])
  {
    var n := NumberLength(s);
    if n < |s| {
      assert s[|s| - 1] == s[n..][|s| - 1 - n];
    }
  }

  /**
   * A string is not numeric when it has a character that is neither a digit, a
   * point nor numeric whitespace, and no digit or point comes after it: the number
   * would have to end at or after that character, and nothing there can end one.
   */
  lemma NotNumericAt(s: string, j: nat)
    requires j < |s| && !IsDigit(s[j]) && s[j] != '.' && !IsNumericSpace(s[j])
    requires forall i :: j < i < |s| ==> !IsDigit(s[i]) && s[i] != '.'
    ensures !IsNumeric(s)
  {
  }

  lemma AllDigitsAppend(a: string, b: string)
    requires AllDigits(a) && AllDigits(b)
    ensures AllDigits(a + b)
  {
    forall i | 0 <= i < |a + b| ensures IsDigit((a + b)[i]) {
      if i >= |a| { assert (a + b)[i] == b[i - |a|]; }
    }
  }

  lemma ShiftDigit(x: int, p: int, y: int, d: int)
    ensures (x * p + y) * 10 + d == x * (p * 10) + (y * 10 + d)
  {
  }

  /** Digits written after other digits shift them left by their own length. */
  lemma {:induction false} DigitsValueAppend(a: string, b: string)
    requires AllDigits(a) && AllDigits(b)
    ensures AllDigits(a + b)
    ensures DigitsValue(a + b) == DigitsValue(a) * Pow10(|b|) + DigitsValue(b)
  {
    AllDigitsAppend(a, b);
    if |b| > 0 {
      var b' := b[..|b| - 1];
      var d := DigitValue(b[|b| - 1]);
      assert (a + b)[..|a + b| - 1] == a + b';
      assert (a + b)[|a + b| - 1] == b[|b| - 1];
      DigitsValueAppend(a, b');
      assert DigitsValue(a + b) == DigitsValue(a + b') * 10 + d;
      assert DigitsValue(b) == DigitsValue(b') * 10 + d;
      assert Pow10(|b|) == Pow10(|b'|) * 10;
      ShiftDigit(DigitsValue(a), Pow10(|b'|), DigitsValue(b'), d);
    } else {
      assert a + b == a;
    }
  }

  /** A string of n digits is worth less than 10^n. */
  lemma {:induction false} DigitsValueBound(b: string)
    requires AllDigits(b)
    ensures DigitsValue(b) < Pow10(|b|)
  {
    if |b| > 0 {
      DigitsValueBound(b[..|b| - 1]);
    }
  }

  /** The mantissa of "a.b" is the whole string. */
  lemma FractionMantissa(a: string, b: string)
    requires |a| > 0 && AllDigits(a) && AllDigits(b)
    ensures DigitRun(a + "." + b) == |a| && MantissaLength(a + "." + b) == |a| + 1 + |b|
  {
    var u := a + "." + b;
    assert u == a + ("." + b);
    DigitRunOfDigits(a, "." + b);
    assert u[|a|] == '.';
    assert u[|a| + 1..] == b;
    DigitRunOfDigits(b, []);
    assert b + [] == b;
  }

  /** "a.b" is an unsigned number spanning the whole string: nothing is left for an exponent. */
  lemma FractionLength(a: string, b: string)
    requires |a| > 0 && AllDigits(a) && AllDigits(b)
    ensures DigitRun(a + "." + b) == |a| && MantissaLength(a + "." + b) == |a| + 1 + |b|
    ensures UnsignedLength(a + "." + b) == |a| + 1 + |b|
  {
    var u := a + "." + b;
    FractionMantissa(a, b);
    assert u[|u|..] == [];
  }

  /** ... and its value is the float with integer digits a and fraction digits b. */
  lemma FractionScan(a: string, b: string)
    requires |a| > 0 && AllDigits(a) && AllDigits(b)
    ensures UnsignedLength(a + "." + b) == |a + "." + b|
    ensures UnsignedValue(a + "." + b) == FloatNum(FloatValue(a, b, []))
  {
    var u := a + "." + b;
    FractionLength(a, b);
    assert u[..|a|] == a;
    assert u[|a| + 1..|a| + 1 + |b|] == b;
    assert u[|u|..] == [];
    assert u[|u|..|u|] == [];
  }

  /** The float value of "a.b" is the digits of ab over 10^|b|. */
  lemma FractionValue(a: string, b: string)
    requires AllDigits(a) && AllDigits(b)
    ensures AllDigits(a + b) && FloatValue(a, b, []) == DigitsValue(a + b) as real / Pow10(|b|) as real
  {
    AllDigitsAppend(a, b);
  }

  /** (q*p + r) / p rounds down to q when 0 <= r < p. */
  lemma FloorOfQuotient(q: nat, p: nat, r: nat, n: nat)
    requires p >= 1 && r < p && n == q * p + r
    ensures n as real / p as real >= 0.0
    ensures (n as real / p as real).Floor == q
  {
    var P, N, Q, R := p as real, n as real, q as real, r as real;
    var x := N / P;
    assert N == Q * P + R;
    assert x * P == N;
    assert x == Q + R / P;
    assert 0.0 <= R / P < 1.0;
  }

  /** The integer part of "a.b" is a: the fraction digits are worth less than one. */
  lemma FractionFloor(a: string, b: string)
    requires AllDigits(a) && AllDigits(b)
    ensures FloatValue(a, b, []) >= 0.0
    ensures FloatValue(a, b, []).Floor == DigitsValue(a)
  {
    DigitsValueAppend(a, b);
    DigitsValueBound(b);
    FractionValue(a, b);
    FloorOfQuotient(DigitsValue(a), Pow10(|b|), DigitsValue(b), DigitsValue(a + b));
  }

  /** A string that is one unsigned number from its first digit to its end is numeric and casts to that number. */
  lemma WholeNumberCast(u: string)
    requires |u| > 0 && IsDigit(u[0])
    requires UnsignedLength(u) == |u|
    ensures IsNumeric(u) && IntCast(u) == Truncate(UnsignedValue(u))
  {
    assert SpaceRun(u) == 0;
    assert NumberStart(u) == 0;
    assert u[0..] == u;
    assert NumberLength(u) == |u|;
    assert u[|u|..] == [];
  }

  /** A minus in front of such a string negates the number, and the result is still numeric. */
  lemma NegatedNumberCast(u: string)
    requires |u| > 0 && IsDigit(u[0])
    requires UnsignedLength(u) == |u|
    ensures IsNumeric("-" + u) && IntCast("-" + u) == Truncate(Negate(UnsignedValue(u)))
  {
    var s := "-" + u;
    assert s[0] == '-' && !IsNumericSpace(s[0]);
    assert SpaceRun(s) == 0;
    assert s[1..] == u;
    assert s[|s|..] == [];
  }

  /** Truncating a non-positive float rounds up: the integer part of -x is minus that of x. */
  lemma TruncateNegative(x: real)
    requires x >= 0.0
    ensures Truncate(Negate(FloatNum(x))) == -x.Floor
  {
    var y := -x;
    assert Negate(FloatNum(x)) == FloatNum(y);
    if x == 0.0 {
      assert Truncate(FloatNum(y)) == 0;
    } else {
      assert Truncate(FloatNum(y)) == -((-y).Floor);
      assert -y == x;
    }
  }

  /** `(int)` truncates toward zero: "a.b" is numeric and casts to a. */
  lemma FractionCast(a: string, b: string)
    requires |a| > 0 && AllDigits(a) && AllDigits(b)
    ensures IsNumeric(a + "." + b) && IntCast(a + "." + b) == DigitsValue(a)
  {
    FractionScan(a, b);
    FractionFloor(a, b);
    WholeNumberCast(a + "." + b);
  }

  /**
   * `(int)` truncates toward zero: "-a.b" is numeric and casts to -a, not to -a-1
   * as rounding down would give.
   */
  lemma NegativeFractionCast(a: string, b: string)
    requires |a| > 0 && AllDigits(a) && AllDigits(b)
    ensures IsNumeric("-" + (a + "." + b)) && IntCast("-" + (a + "." + b)) == -(DigitsValue(a) as int)
  {
    FractionScan(a, b);
    FractionFloor(a, b);
    NegatedNumberCast(a + "." + b);
    TruncateNegative(FloatValue(a, b, []));
  }
}
