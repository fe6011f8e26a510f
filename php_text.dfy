/**
 * The PHP string primitives the file helper relies on: `trim` with its default
 * character list, ASCII `strtoupper`, and the character classes of PHP's
 * numeric-string grammar. PHP strings are byte strings; a `char` stands for one byte.
 */
module PhpText {

  /** The characters `trim` strips by default: space, tab, line feed, carriage return, NUL and vertical tab. */
  predicate IsTrimChar(c: char) {
    c == ' ' || c == '\t' || c == '\n' || c == '\r' || c == '\0' || c as int == 11
  }

  /** The whitespace PHP accepts around a numeric string: space, tab, line feed, vertical tab, form feed, carriage return. */
  predicate IsNumericSpace(c: char) {
    c == ' ' || 9 <= c as int <= 13
  }

  predicate IsDigit(c: char) {
    '0' <= c <= '9'
  }

  predicate IsLowerAscii(c: char) {
    'a' <= c <= 'z'
  }

  /** `strtoupper` on one byte: only the ASCII letters a-z change. */
  function ToUpper(c: char): (u: char)
    ensures IsLowerAscii(c) ==> u as int == c as int - 32
    ensures !IsLowerAscii(c) ==> u == c
    ensures !IsLowerAscii(u)
  {
    if IsLowerAscii(c) then (c as int - 32) as char else c
  }

  /** `ltrim` with the default list: drops the leading run of trim characters. */
  function TrimLeft(s: string): (r: string)
    ensures |r| <= |s| && r == s[|s| - |r|..]
    ensures forall i :: 0 <= i < |s| - |r| ==> IsTrimChar(s[i])
    ensures r == [] || !IsTrimChar(r[0])
  {
    if |s| > 0 && IsTrimChar(s[0]) then TrimLeft(s[1..]) else s
  }

  /** `rtrim` with the default list: drops the trailing run of trim characters. */
  function TrimRight(s: string): (r: string)
    ensures |r| <= |s| && r == s[..|r|]
    ensures forall i :: |r| <= i < |s| ==> IsTrimChar(s[i])
    ensures r == [] || !IsTrimChar(r[|r| - 1])
  {
    if |s| > 0 && IsTrimChar(s[|s| - 1]) then TrimRight(s[..|s| - 1]) else s
  }

  /** `trim($s)`: both runs removed; what is left neither starts nor ends with a trim character. */
  function Trim(s: string): (r: string)
    ensures |r| <= |s|
    ensures exists k: nat :: k <= |s| && r <= s[k..]
    ensures r == [] || (!IsTrimChar(r[0]) && !IsTrimChar(r[|r| - 1]))
  {
    var l := TrimLeft(s);
    var r := TrimRight(l);
    assert l == s[|s| - |l|..] && r <= l;
    r
  }

  predicate AllTrimChars(w: string) {
    forall i :: 0 <= i < |w| ==> IsTrimChar(w[i])
  }

  /** Appending a character that is not a trim character commutes with `ltrim`. */
  lemma {:induction false} TrimLeftAppend(m: string, c: char)
    requires !IsTrimChar(c)
    ensures TrimLeft(m + [c]) == TrimLeft(m) + [c]
  {
    if |m| > 0 && IsTrimChar(m[0]) {
      assert (m + [c])[1..] == m[1..] + [c];
      TrimLeftAppend(m[1..], c);
    } else if |m| == 0 {
      assert m + [c] == [c];
    }
  }

  /** A string that ends in a non-trim character keeps that character as the last one of its trimmed form. */
  lemma TrimEndingIn(m: string, c: char)
    requires !IsTrimChar(c)
    ensures Trim(m + [c]) == TrimLeft(m) + [c]
  {
    TrimLeftAppend(m, c);
  }

  /** Everything from the first non-trim character on survives `ltrim` unchanged. */
  lemma {:induction false} TrimLeftBefore(m: string, c: char, w: string)
    requires !IsTrimChar(c)
    ensures TrimLeft(m + [c] + w) == TrimLeft(m) + [c] + w
  {
    if |m| > 0 && IsTrimChar(m[0]) {
      assert (m + [c] + w)[1..] == m[1..] + [c] + w;
      TrimLeftBefore(m[1..], c, w);
    } else if |m| == 0 {
      assert m + [c] + w == [c] + w;
    } else {
      assert (m + [c] + w)[0] == m[0];
    }
  }

  /** `rtrim` removes exactly a run of trim characters written after a non-trim character. */
  lemma {:induction false} TrimRightTrailing(x: string, w: string)
    requires |x| > 0 && !IsTrimChar(x[|x| - 1])
    requires AllTrimChars(w)
    ensures TrimRight(x + w) == x
    decreases |w|
  {
    if |w| > 0 {
      var w' := w[..|w| - 1];
      assert (x + w)[..|x + w| - 1] == x + w';
      assert (x + w)[|x + w| - 1] == w[|w| - 1];
      TrimRightTrailing(x, w');
    } else {
      assert x + w == x;
    }
  }

  /** `trim` of a string whose left-trimmed form is `x` followed by trim characters is `x`. */
  lemma TrimOfLeftTrimmed(s: string, x: string, w: string)
    requires TrimLeft(s) == x + w
    requires |x| > 0 && !IsTrimChar(x[|x| - 1])
    requires AllTrimChars(w)
    ensures Trim(s) == x
  {
    TrimRightTrailing(x, w);
  }

  /**
   * Trailing trim characters after a non-trim character are dropped: the trimmed
   * form ends in that character and starts where `ltrim` of the part before it starts.
   */
  lemma TrimWithTrailing(m: string, c: char, w: string)
    requires !IsTrimChar(c)
    requires AllTrimChars(w)
    ensures Trim(m + [c] + w) == TrimLeft(m) + [c]
  {
    TrimLeftBefore(m, c, w);
    TrimOfLeftTrimmed(m + [c] + w, TrimLeft(m) + [c], w);
  }
}
