/**
 * The pure parts of the theme framework's file helper: the size-string parser
 * `sizeToBytes`, the string normalisation that `pathToId` applies before its
 * database lookup, and the guard and "Bytes" branch of `bytesToSize`.
 */
module FileHelper {
  import opened Wrappers
  import opened PhpText
  import opened PhpNumber

  /* ---------------------------------------------------------------------------
   * sizeToBytes
   * ------------------------------------------------------------------------- */

  /**
   * What `sizeToBytes` returns: an int, a float (a fractional magnitude times a
   * power of 1024), the unscaled text when the suffix is not a unit, or the
   * TypeError PHP 8 throws when a unit follows text with no numeric prefix.
   */
  datatype Size = IntSize(n: int) | FloatSize(x: real) | TextSize(s: string) | TypeError

  /** The unit letters in switch order from the smallest: K, M, G, T, P. */
  const Units: string := "KMGTP"

  /**
   * The fall-through switch on `strtoupper($suffix)`: how many `*= 1024` steps run
   * from the matched label down to `K` (0 when no label matches).
   */
  function UnitSteps(suffix: string): (k: nat)
    ensures k <= 5
    ensures k > 0 ==> |suffix| == 1 && ToUpper(suffix[0]) == Units[k - 1]
  {
    if |suffix| != 1 then 0
    else
      match ToUpper(suffix[0])
      case 'P' => 5
      case 'T' => 4
      case 'G' => 3
      case 'M' => 2
      case 'K' => 1
      case _ => 0
  }

  /** One `$size *= 1024` on a number. */
  function Times1024(n: Number): Number {
    match n
    case IntNum(i) => IntNum(i * 1024)
    case FloatNum(x) => FloatNum(x * 1024.0)
  }

  /** The `*= 1024` statements executed when control enters the switch `k` labels above `K`. */
  function FallThrough(n: Number, k: nat): (r: Number)
    ensures r.IntNum? <==> n.IntNum?
    ensures k == 0 ==> r == n
    decreases k
  {
    if k == 0 then n else FallThrough(Times1024(n), k - 1)
  }

  function Pow1024(k: nat): (p: nat)
    ensures p >= 1
  {
    if k == 0 then 1 else 1024 * Pow1024(k - 1)
  }

  /** A number multiplied by the factor `f`, keeping its kind. */
  function ScaledBy(n: Number, f: nat): Number {
    match n
    case IntNum(i) => IntNum(i * f)
    case FloatNum(x) => FloatNum(x * f as real)
  }

  function AsSize(n: Number): Size {
    match n
    case IntNum(i) => IntSize(i)
    case FloatNum(x) => FloatSize(x)
  }

  /**
   * The non-numeric branch once the suffix is split off: `size` unchanged when no
   * case label matches, otherwise `size` run through `steps` multiplications.
   */
  function SuffixResult(size: string, steps: nat): (r: Size)
    ensures r.TextSize? <==> steps == 0
    ensures r == TypeError <==> steps > 0 && ArithmeticOperand(size).None?
    ensures r.IntSize? <==> steps > 0 && ArithmeticOperand(size).Some? && ArithmeticOperand(size).value.IntNum?
  {
    if steps == 0 then TextSize(size)
    else
      match ArithmeticOperand(size)
      case None => TypeError
      case Some(v) => AsSize(FallThrough(v, steps))
  }

  /** `File::sizeToBytes($formattedSize)`. */
  function SizeToBytes(formattedSize: string): (r: Size)
    ensures IsNumeric(formattedSize) ==> r == IntSize(IntCast(formattedSize))
  {
    if IsNumeric(formattedSize) then IntSize(IntCast(formattedSize))
    else
      var trimmed := Trim(formattedSize);
      var suffix := if |trimmed| == 0 then [] else trimmed[|trimmed| - 1..];
      var size := if |trimmed| == 0 then [] else trimmed[..|trimmed| - 1];
      SuffixResult(size, UnitSteps(suffix))
  }

  /** The fall-through switch multiplies by exactly 1024^k. */
  lemma {:induction false} FallThroughScales(n: Number, k: nat)
    ensures FallThrough(n, k) == ScaledBy(n, Pow1024(k))
    decreases k
  {
    if k > 0 {
      FallThroughScales(Times1024(n), k - 1);
      match n
      case IntNum(i) =>
        assert i * 1024 * Pow1024(k - 1) == i * (1024 * Pow1024(k - 1));
      case FloatNum(x) =>
        assert x * 1024.0 * Pow1024(k - 1) as real == x * (1024 * Pow1024(k - 1)) as real;
    }
  }

  /** Entering the switch one label higher multiplies the result by 1024 once more. */
  lemma {:induction false} FallThroughStep(n: Number, k: nat)
    ensures FallThrough(n, k + 1) == Times1024(FallThrough(n, k))
    decreases k
  {
    if k > 0 {
      FallThroughStep(Times1024(n), k - 1);
    }
  }

  /** A character that can only be a suffix: not part of a number, not whitespace. */
  predicate SuffixChar(c: char) {
    !IsDigit(c) && c != '.' && !IsNumericSpace(c) && !IsTrimChar(c)
  }

  /** The k-th unit letter is a suffix character whose case label runs k multiplications. */
  lemma UnitLetterSteps(k: nat)
    requires 1 <= k <= 5
    ensures SuffixChar(Units[k - 1]) && UnitSteps([Units[k - 1]]) == k
  {
  }

  /** A lower-case letter and its upper-case form are suffix characters selecting the same case label. */
  lemma LowerLetterSteps(c: char)
    requires IsLowerAscii(c)
    ensures SuffixChar(c) && SuffixChar(ToUpper(c)) && UnitSteps([c]) == UnitSteps([ToUpper(c)])
  {
    assert 'A' <= ToUpper(c) <= 'Z';
  }

  /** No string that ends in a suffix character is numeric. */
  lemma EndsInLetterNotNumeric(m: string, c: char)
    requires SuffixChar(c)
    ensures !IsNumeric(m + [c])
  {
    if IsNumeric(m + [c]) {
      NumericLastChar(m + [c]);
      assert false;
    }
  }

  /**
   * A string ending in a character that is neither a digit, a point nor whitespace
   * splits into its left-trimmed beginning (the magnitude) and that character (the suffix).
   */
  lemma SuffixSplit(m: string, c: char)
    requires SuffixChar(c)
    ensures SizeToBytes(m + [c]) == SuffixResult(TrimLeft(m), UnitSteps([c]))
  {
    EndsInLetterNotNumeric(m, c);
    TrimEndingIn(m, c);
    var t := TrimLeft(m) + [c];
    assert t[|t| - 1..] == [c];
    assert t[..|t| - 1] == TrimLeft(m);
  }

  /** Suffix K, M, G, T, P scales the magnitude by 1024^1 … 1024^5. */
  lemma SuffixScales(m: string, k: nat)
    requires 1 <= k <= 5
    ensures SizeToBytes(m + [Units[k - 1]]) ==
      match ArithmeticOperand(TrimLeft(m))
      case None => TypeError
      case Some(v) => AsSize(ScaledBy(v, Pow1024(k)))
  {
    var c := Units[k - 1];
    UnitLetterSteps(k);
    SuffixSplit(m, c);
    match ArithmeticOperand(TrimLeft(m))
    case None =>
    case Some(v) => FallThroughScales(v, k);
  }

  /** Suffix matching ignores case: a lower-case letter gives what its upper-case form gives. */
  lemma CaseInsensitive(m: string, c: char)
    requires IsLowerAscii(c)
    ensures SizeToBytes(m + [c]) == SizeToBytes(m + [ToUpper(c)])
  {
    LowerLetterSteps(c);
    SuffixSplit(m, c);
    SuffixSplit(m, ToUpper(c));
  }

  /** `Times1024` lifted to results: numbers are multiplied, the other results stay. */
  function SizeTimes1024(r: Size): Size {
    match r
    case IntSize(n) => IntSize(n * 1024)
    case FloatSize(x) => FloatSize(x * 1024.0)
    case _ => r
  }

  /** For one magnitude, each next-larger unit gives exactly 1024 times the previous one's result. */
  lemma NextUnit(m: string, k: nat)
    requires 1 <= k < 5
    ensures SizeToBytes(m + [Units[k]]) == SizeTimes1024(SizeToBytes(m + [Units[k - 1]]))
  {
    UnitLetterSteps(k + 1);
    UnitLetterSteps(k);
    SuffixSplit(m, Units[k]);
    SuffixSplit(m, Units[k - 1]);
    SuffixResultStep(TrimLeft(m), k);
  }

  lemma SuffixResultStep(size: string, k: nat)
    requires k >= 1
    ensures SuffixResult(size, k + 1) == SizeTimes1024(SuffixResult(size, k))
  {
    match ArithmeticOperand(size)
    case None =>
    case Some(v) => FallThroughStep(v, k);
  }

  /**
   * Every non-numeric input splits the same way, whatever its last non-trim character
   * is: that character is the suffix and the left-trimmed rest the magnitude, so
   * "abc5" gives the text "abc" and "1.2.3" the text "1.2.".
   */
  lemma SuffixSplitGeneral(m: string, c: char, w: string)
    requires !IsTrimChar(c)
    requires AllTrimChars(w)
    requires !IsNumeric(m + [c] + w)
    ensures SizeToBytes(m + [c] + w) == SuffixResult(TrimLeft(m), UnitSteps([c]))
  {
    TrimWithTrailing(m, c, w);
    var t := TrimLeft(m) + [c];
    assert t[|t| - 1..] == [c];
    assert t[..|t| - 1] == TrimLeft(m);
  }

  /**
   * Trailing whitespace after the suffix is trimmed away first: a string ending in
   * a suffix character followed by trim characters splits as it would without them.
   */
  lemma SuffixSplitTrailing(m: string, c: char, w: string)
    requires SuffixChar(c)
    requires AllTrimChars(w)
    ensures SizeToBytes(m + [c] + w) == SuffixResult(TrimLeft(m), UnitSteps([c]))
  {
    var s := m + [c] + w;
    assert s[|m|] == c;
    forall i | |m| < i < |s| ensures !IsDigit(s[i]) && s[i] != '.' {
      assert s[i] == w[i - |m| - 1];
    }
    NotNumericAt(s, |m|);
    SuffixSplitGeneral(m, c, w);
  }

  /** Trailing trim characters never change the result: "64M\n" and "2G " read as "64M" and "2G". */
  lemma TrailingTrimIgnored(m: string, c: char, w: string)
    requires SuffixChar(c)
    requires AllTrimChars(w)
    ensures SizeToBytes(m + [c] + w) == SizeToBytes(m + [c])
  {
    SuffixSplitTrailing(m, c, w);
    SuffixSplit(m, c);
  }

  /**
   * In a non-numeric input, a last character that is no unit (a letter, a digit, a
   * point) is dropped and the rest returned unscaled, as text.
   */
  lemma UnknownSuffixDropped(m: string, c: char)
    requires !IsTrimChar(c)
    requires UnitSteps([c]) == 0
    requires !IsNumeric(m + [c])
    ensures SizeToBytes(m + [c]) == TextSize(TrimLeft(m))
  {
    assert m + [c] + [] == m + [c];
    SuffixSplitGeneral(m, c, []);
  }

  /**
   * A trailing NUL byte forces the suffix branch: `trim` removes it, but it is no
   * numeric whitespace, so even a number followed by it is not numeric.
   */
  lemma NulEndedSplit(m: string, c: char)
    requires !IsTrimChar(c)
    ensures SizeToBytes(m + [c] + "\0") == SuffixResult(TrimLeft(m), UnitSteps([c]))
  {
    var s := m + [c] + "\0";
    NotNumericAt(s, |s| - 1);
    assert AllTrimChars("\0");
    SuffixSplitGeneral(m, c, "\0");
  }

  /** So a digit string followed by NUL loses its last digit: "64\0" gives the text "6", not 64. */
  lemma NulEndedDigits(m: string, c: char)
    requires AllDigits(m) && IsDigit(c)
    ensures SizeToBytes(m + [c] + "\0") == TextSize(m)
  {
    assert UnitSteps([c]) == 0 && TrimLeft(m) == m by {
      assert ToUpper(c) == c;
      assert m == [] || !IsTrimChar(m[0]);
    }
    NulEndedSplit(m, c);
  }

  /** The decimal form of a natural number is numeric and comes back as that integer. */
  lemma DecimalSize(n: nat)
    ensures SizeToBytes(Decimal(n)) == IntSize(n)
  {
    DecimalIsNumeric(n);
  }

  /** A numeric input with a fraction is truncated toward zero: "2.9" gives 2. */
  lemma NumericFractionTruncated(a: string, b: string)
    requires |a| > 0 && AllDigits(a) && AllDigits(b)
    ensures SizeToBytes(a + "." + b) == IntSize(DigitsValue(a))
  {
    FractionCast(a, b);
  }

  /**
   * A byte label such as "KB" or "mb" is not understood: its last letter is no unit,
   * so it is dropped and the rest comes back as text ("10KB" gives "10K").
   */
  lemma ByteLabelIsText(m: string, k: nat)
    requires 1 <= k <= 5
    ensures SizeToBytes(m + [Units[k - 1], 'B']) == TextSize(TrimLeft(m) + [Units[k - 1]])
  {
    var u := Units[k - 1];
    UnitLetterSteps(k);
    assert UnitSteps(['B']) == 0;
    assert m + [u, 'B'] == (m + [u]) + ['B'];
    EndsInLetterNotNumeric(m + [u], 'B');
    TrimLeftAppend(m, u);
    UnknownSuffixDropped(m + [u], 'B');
  }

  /** "64M" and "64m" are 64 * 1024^2 bytes. */
  lemma SixtyFourMegabytes()
    ensures SizeToBytes("64M") == IntSize(67108864)
    ensures SizeToBytes("64m") == IntSize(67108864)
  {
    assert "64M" == "64" + [Units[1]];
    assert "64m" == "64" + ['m'];
    SixtyFourOperand();
    SuffixScales("64", 2);
    CaseInsensitive("64", 'm');
  }

  /** "64M\n", with the line break a form field or config file leaves behind, is still 64 MiB. */
  lemma SixtyFourMegabytesNewline()
    ensures SizeToBytes("64M\n") == IntSize(67108864)
  {
    assert "64M\n" == "64" + ['M'] + "\n";
    assert "64" + ['M'] == "64M";
    TrailingTrimIgnored("64", 'M', "\n");
    SixtyFourMegabytes();
  }

  /** A plain run of digits is its own left-trimmed form and multiplies as that integer. */
  lemma DigitsOperand(d: string)
    requires |d| > 0 && AllDigits(d)
    ensures TrimLeft(d) == d
    ensures ArithmeticOperand(d) == Some(IntNum(DigitsValue(d)))
  {
    assert !IsTrimChar(d[0]);
    DigitsThenText(d, []);
    assert d + [] == d;
  }

  lemma SixtyFourOperand()
    ensures TrimLeft("64") == "64"
    ensures ArithmeticOperand("64") == Some(IntNum(64))
    ensures Pow1024(2) == 1048576
  {
    assert "64"[..1] == "6" && "6"[..0] == [];
    assert DigitsValue("64") == 64;
    DigitsOperand("64");
  }

  /* ---------------------------------------------------------------------------
   * pathToId: removing the uploads base dir and base URL
   * ------------------------------------------------------------------------- */

  /** `needle` occurs in `s` starting at index `i`. */
  predicate OccursAt(s: string, needle: string, i: nat) {
    i <= |s| && needle <= s[i..]
  }

  predicate Occurs(s: string, needle: string) {
    exists i: nat | i <= |s| :: OccursAt(s, needle, i)
  }

  /**
   * `str_replace($needle, '', $s)`: scans left to right and deletes every
   * non-overlapping occurrence; an empty search string changes nothing.
   */
  function RemoveAll(s: string, needle: string): (r: string)
    ensures |r| <= |s|
    decreases |s|
  {
    if |needle| == 0 || |s| == 0 then s
    else if needle <= s then RemoveAll(s[|needle|..], needle)
    else [s[0]] + RemoveAll(s[1..], needle)
  }

  /** `preg_replace('/^\//', '', $s)`: at most one leading slash goes. */
  function StripLeadingSlash(s: string): (r: string)
    ensures r == s || s == "/" + r
    ensures |s| > 0 && s[0] == '/' ==> s == "/" + r
  {
    if |s| > 0 && s[0] == '/' then s[1..] else s
  }

  /** The string `pathToId` looks up: the path without the uploads base dir and base URL, relative. */
  function NormaliseUploadPath(filePath: string, baseDir: string, baseUrl: string): (r: string)
    ensures |r| <= |filePath|
  {
    StripLeadingSlash(RemoveAll(RemoveAll(filePath, baseDir), baseUrl))
  }

  /** A prefix in which no occurrence of the needle starts is kept as it is. */
  lemma {:induction false} RemoveAllKeepsClean(x: string, y: string, needle: string)
    requires forall i: nat :: i < |x| ==> !OccursAt(x + y, needle, i)
    ensures RemoveAll(x + y, needle) == x + RemoveAll(y, needle)
  {
    if |needle| > 0 && |x| > 0 {
      assert !OccursAt(x + y, needle, 0);
      assert (x + y)[0..] == x + y;
      assert (x + y)[1..] == x[1..] + y;
      forall i: nat | i < |x[1..]| ensures !OccursAt(x[1..] + y, needle, i) {
        assert !OccursAt(x + y, needle, i + 1);
        assert (x + y)[i + 1..] == (x[1..] + y)[i..];
      }
      RemoveAllKeepsClean(x[1..], y, needle);
      assert [x[0]] + (x[1..] + RemoveAll(y, needle)) == x + RemoveAll(y, needle);
    } else if |x| == 0 {
      assert x + y == y;
    }
  }

  /**
   * Every occurrence goes, not only a leading one: the first occurrence after a
   * clean prefix is cut out and the scan continues behind it.
   */
  lemma RemovesEveryOccurrence(x: string, needle: string, y: string)
    requires |needle| > 0
    requires forall i: nat :: i < |x| ==> !OccursAt(x + needle + y, needle, i)
    ensures RemoveAll(x + needle + y, needle) == x + RemoveAll(y, needle)
  {
    assert x + needle + y == x + (needle + y);
    RemoveAllKeepsClean(x, needle + y, needle);
    assert (needle + y)[|needle|..] == y;
  }

  /** `RemoveAll` changes a string exactly when the (non-empty) needle occurs in it. */
  lemma {:induction false} RemoveAllUnchangedIff(s: string, needle: string)
    requires |needle| > 0
    ensures RemoveAll(s, needle) == s <==> !Occurs(s, needle)
  {
    if Occurs(s, needle) {
      var i: nat :| OccursAt(s, needle, i);
      RemoveAllShrinks(s, needle, i);
    } else {
      RemoveAllAbsent(s, needle);
    }
  }

  lemma {:induction false} RemoveAllShrinks(s: string, needle: string, i: nat)
    requires |needle| > 0 && OccursAt(s, needle, i)
    ensures |RemoveAll(s, needle)| < |s|
    decreases |s|
  {
    if !(needle <= s) {
      assert i > 0;
      assert s[1..][i - 1..] == s[i..];
      RemoveAllShrinks(s[1..], needle, i - 1);
    }
  }

  lemma {:induction false} RemoveAllAbsent(s: string, needle: string)
    requires |needle| > 0 && !Occurs(s, needle)
    ensures RemoveAll(s, needle) == s
    decreases |s|
  {
    if |s| > 0 {
      assert s[0..] == s;
      assert !OccursAt(s, needle, 0);
      forall i: nat | i <= |s[1..]| ensures !OccursAt(s[1..], needle, i) {
        assert s[1..][i..] == s[i + 1..];
        assert !OccursAt(s, needle, i + 1);
      }
      RemoveAllAbsent(s[1..], needle);
    }
  }

  /**
   * An absolute path under the uploads base dir maps back to the path relative to
   * it, provided neither the base dir nor the base URL occurs again after the base dir.
   */
  lemma UploadPathRelative(baseDir: string, baseUrl: string, rel: string)
    requires |baseDir| > 0
    requires !Occurs("/" + rel, baseDir) && !Occurs("/" + rel, baseUrl)
    ensures NormaliseUploadPath(baseDir + "/" + rel, baseDir, baseUrl) == rel
  {
    var tail := "/" + rel;
    assert OccursAt(tail, [], 0);
    assert baseDir + "/" + rel == baseDir + tail;
    assert (baseDir + tail)[|baseDir|..] == tail;
    RemoveAllAbsent(tail, baseDir);
    RemoveAllAbsent(tail, baseUrl);
    assert tail[1..] == rel;
  }

  /**
   * A URL under the uploads base URL maps back to the path relative to it, provided
   * the base dir occurs nowhere in the URL and the base URL not again after itself.
   */
  lemma UploadUrlRelative(baseDir: string, baseUrl: string, rel: string)
    requires !Occurs(baseUrl + "/" + rel, baseDir) && !Occurs("/" + rel, baseUrl)
    ensures NormaliseUploadPath(baseUrl + "/" + rel, baseDir, baseUrl) == rel
  {
    var tail := "/" + rel;
    var url := baseUrl + "/" + rel;
    assert OccursAt(url, [], 0) && OccursAt(tail, [], 0);
    assert url == baseUrl + tail;
    RemoveAllAbsent(url, baseDir);
    assert url == [] + baseUrl + tail;
    RemovesEveryOccurrence([], baseUrl, tail);
    RemoveAllAbsent(tail, baseUrl);
    assert tail[1..] == rel;
  }

  /* ---------------------------------------------------------------------------
   * bytesToSize
   * ------------------------------------------------------------------------- */

  /**
   * What `bytesToSize` returns: `false` (NoSize), the text "<bytes> Bytes", or the
   * rounded rendering in kb/Mb/Gb/Tb, which this model represents only by its input.
   */
  datatype FormattedSize = NoSize | Label(text: string) | Rounded(bytes: int)

  /** `File::bytesToSize($bytes)` for an integer byte count. */
  function BytesToSize(bytes: int): (r: FormattedSize)
    ensures r == NoSize <==> bytes <= 0
    ensures 0 < bytes < 1024 <==> r.Label?
  {
    if bytes <= 0 then NoSize
    else if bytes < 1024 then Label(Decimal(bytes) + " Bytes")
    else Rounded(bytes)
  }

  /** The "Bytes" label starts with the count, which an `(int)` cast of the label gives back. */
  lemma BytesLabelCount(bytes: int)
    requires 0 < bytes < 1024
    ensures BytesToSize(bytes).Label?
    ensures IntCast(BytesToSize(bytes).text) == bytes
    ensures BytesToSize(bytes).text[..|Decimal(bytes)|] == Decimal(bytes)
    ensures BytesToSize(bytes).text[|Decimal(bytes)|..] == " Bytes"
  {
    DigitsThenText(Decimal(bytes), " Bytes");
  }
}
