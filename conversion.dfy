/**
 * The text conversions of src/at/home/bernd/DataConversionUtility.java: the
 * compass-point table of mapDirection and the string slicing that
 * parseTemperatureString does before handing the number text to
 * Double.parseDouble.
 */
module Conversion {
  import opened Wrappers

  /**
   * Java's Character.isWhitespace, which String.strip uses: the Unicode space,
   * line and paragraph separators except the three non-breaking spaces
   * (U+00A0, U+2007, U+202F), and the controls U+0009-U+000D and U+001C-U+001F.
   */
  predicate IsWhitespace(c: char)
  {
    var n := c as int;
    9 <= n <= 13 || 28 <= n <= 32 || n == 0x1680 || (0x2000 <= n <= 0x200A && n != 0x2007)
    || n == 0x2028 || n == 0x2029 || n == 0x205F || n == 0x3000
  }

  /** Text made of whitespace only (the empty text included). */
  predicate AllWhitespace(s: string)
  {
    forall i | 0 <= i < |s| :: IsWhitespace(s[i])
  }

  /** The text without its leading whitespace: a suffix that is empty or starts with a character that is not whitespace. */
  function StripLeading(s: string): (r: string)
    ensures |r| <= |s| && r == s[|s| - |r|..] && AllWhitespace(s[..|s| - |r|])
    ensures r == [] || !IsWhitespace(r[0])
  {
    if s != [] && IsWhitespace(s[0]) then
      var r := StripLeading(s[1..]);
      assert s[..|s| - |r|] == [s[0]] + s[1..][..|s| - 1 - |r|];
      r
    else s
  }

  /** The text without its trailing whitespace: a prefix that is empty or ends in a character that is not whitespace. */
  function StripTrailing(s: string): (r: string)
    ensures |r| <= |s| && r == s[..|r|] && AllWhitespace(s[|r|..])
    ensures r == [] || !IsWhitespace(r[|r| - 1])
  {
    if s != [] && IsWhitespace(s[|s| - 1]) then
      var init := s[..|s| - 1];
      var r := StripTrailing(init);
      assert forall i | |r| <= i < |s| - 1 :: s[i] == init[i];
      r
    else s
  }

  /** String.strip: the text without leading and trailing whitespace. */
  function Strip(s: string): (r: string)
    ensures r == [] || (!IsWhitespace(r[0]) && !IsWhitespace(r[|r| - 1]))
  {
    var l := StripLeading(s);
    var r := StripTrailing(l);
    assert r != [] ==> r[0] == l[0];
    r
  }

  /** Whitespace in front is skipped entirely. */
  lemma {:induction false} LeadingOfPadded(b: string, x: string)
    requires AllWhitespace(b)
    ensures StripLeading(b + x) == StripLeading(x)
    decreases |b|
  {
    if b != [] {
      assert (b + x)[1..] == b[1..] + x;
      LeadingOfPadded(b[1..], x);
    } else {
      assert b + x == x;
    }
  }

  /** Whitespace at the back is dropped entirely. */
  lemma {:induction false} TrailingOfPadded(y: string, a: string)
    requires AllWhitespace(a)
    ensures StripTrailing(y + a) == StripTrailing(y)
    decreases |a|
  {
    if a != [] {
      var a' := a[..|a| - 1];
      assert (y + a)[..|y + a| - 1] == y + a';
      TrailingOfPadded(y, a');
    } else {
      assert y + a == y;
    }
  }

  /**
   * Strip characterised: whitespace, then a core that is empty or has no
   * whitespace at either end, then whitespace, strips to exactly that core.
   */
  lemma StripOfPadded(b: string, r: string, a: string)
    requires AllWhitespace(b) && AllWhitespace(a)
    requires r == [] || (!IsWhitespace(r[0]) && !IsWhitespace(r[|r| - 1]))
    ensures Strip(b + r + a) == r
  {
    assert b + r + a == b + (r + a);
    LeadingOfPadded(b, r + a);
    if r == [] {
      assert r + a == a;
      assert StripLeading(a) == [];
    } else {
      assert (r + a)[0] == r[0];
      TrailingOfPadded(r, a);
    }
  }

  /** The text is its strip with whitespace around it. */
  lemma StripDecomposes(s: string) returns (b: string, a: string)
    ensures AllWhitespace(b) && AllWhitespace(a) && s == b + Strip(s) + a
  {
    var l := StripLeading(s);
    var r := StripTrailing(l);
    b, a := s[..|s| - |l|], l[|r|..];
    SplitAt(s, |s| - |l|);
    SplitAt(l, |r|);
    assert s == b + l;
    assert l == r + a;
    Associative(b, r, a);
  }

  lemma SplitAt(s: string, k: nat)
    requires k <= |s|
    ensures s == s[..k] + s[k..]
  {
  }

  lemma Associative(x: string, y: string, z: string)
    ensures x + (y + z) == x + y + z
  {
  }

  /** Whitespace before whitespace is whitespace. */
  lemma WhitespaceConcat(x: string, y: string)
    requires AllWhitespace(x) && AllWhitespace(y)
    ensures AllWhitespace(x + y)
  {
    forall i | 0 <= i < |x + y| ensures IsWhitespace((x + y)[i]) {
      if i >= |x| {
        assert (x + y)[i] == y[i - |x|];
      }
    }
  }

  /** Whitespace around the text does not change what strip leaves. */
  lemma StripIgnoresPadding(before: string, s: string, after: string)
    requires AllWhitespace(before) && AllWhitespace(after)
    ensures Strip(before + s + after) == Strip(s)
  {
    var b, a := StripDecomposes(s);
    var r := Strip(s);
    Regroup(before, b, r, a, after);
    WhitespaceConcat(before, b);
    WhitespaceConcat(a, after);
    StripOfPadded(before + b, r, a + after);
  }

  /** Moving the padding into the outer pieces. */
  lemma Regroup(p: string, b: string, r: string, a: string, q: string)
    ensures p + (b + r + a) + q == (p + b) + r + (a + q)
  {
  }

  /** A text that is empty or has no whitespace at either end is its own strip. */
  lemma StripOfCore(r: string)
    requires r == [] || (!IsWhitespace(r[0]) && !IsWhitespace(r[|r| - 1]))
    ensures Strip(r) == r
  {
    assert StripLeading(r) == r;
  }

  /** Stripping twice is stripping once. */
  lemma StripIdempotent(s: string)
    ensures Strip(Strip(s)) == Strip(s)
  {
    StripOfCore(Strip(s));
  }

  // ---------------------------------------------------------------------------
  // mapDirection
  // ---------------------------------------------------------------------------

  /** The k-th English compass point clockwise from north-north-east (k = 15 is north). */
  function EnglishPoint(k: nat): string
    requires k < 16
  {
    match k
    case 0 => "NNE" case 1 => "NE" case 2 => "ENE" case 3 => "E"
    case 4 => "ESE" case 5 => "SE" case 6 => "SSE" case 7 => "S"
    case 8 => "SSW" case 9 => "SW" case 10 => "WSW" case 11 => "W"
    case 12 => "WNW" case 13 => "NW" case 14 => "NNW" case _ => "N"
  }

  /** The same point in German, where east is O (Ost). */
  function GermanPoint(k: nat): string
    requires k < 16
  {
    match k
    case 0 => "NNO" case 1 => "NO" case 2 => "ONO" case 3 => "O"
    case 4 => "OSO" case 5 => "SO" case 6 => "SSO" case 7 => "S"
    case 8 => "SSW" case 9 => "SW" case 10 => "WSW" case 11 => "W"
    case 12 => "WNW" case 13 => "NW" case 14 => "NNW" case _ => "N"
  }

  /** The text names the k-th compass point, in English or German. */
  predicate NamesPoint(d: string, k: nat)
    requires k < 16
  {
    d == EnglishPoint(k) || d == GermanPoint(k)
  }

  /** The compass point a number of degrees 22.5 * (k + 1) stands for: k. */
  function PointIndex(degrees: real): int
  {
    (degrees / 22.5).Floor - 1
  }

  /**
   * The comparison chain of mapDirection on the stripped text: any value other
   * than -1 lies in (0, 360] and is 22.5 * (k + 1) for a k whose compass point
   * the text names exactly (the comparison is case-sensitive).
   */
  function Degrees(d: string): (degrees: real)
    ensures degrees == -1.0 || 0.0 < degrees <= 360.0
    ensures degrees != -1.0 ==> 0 <= PointIndex(degrees) < 16 && NamesPoint(d, PointIndex(degrees))
    ensures degrees != -1.0 ==> degrees == 22.5 * (PointIndex(degrees) + 1) as real
  {
    if d == "NNE" || d == "NNO" then 22.5
    else if d == "NE" || d == "NO" then 45.0
    else if d == "ENE" || d == "ONO" then 67.5
    else if d == "E" || d == "O" then 90.0
    else if d == "ESE" || d == "OSO" then 112.5
    else if d == "SE" || d == "SO" then 135.0
    else if d == "SSE" || d == "SSO" then 157.5
    else if d == "S" then 180.0
    else if d == "SSW" then 202.5
    else if d == "SW" then 225.0
    else if d == "WSW" then 247.5
    else if d == "W" then 270.0
    else if d == "WNW" then 292.5
    else if d == "NW" then 315.0
    else if d == "NNW" then 337.5
    else if d == "N" then 360.0
    else -1.0
  }

  /**
   * mapDirection: the direction in degrees of a compass point given in English
   * or German, after stripping; -1 for any other text. A recognised direction
   * lies in (0, 360] and is the 22.5 * (k + 1) of the point k that the text names.
   */
  function MapDirection(direction: string): (degrees: real)
    ensures degrees == -1.0 || 0.0 < degrees <= 360.0
    ensures degrees != -1.0 ==> 0 <= PointIndex(degrees) < 16 && NamesPoint(Strip(direction), PointIndex(degrees))
    ensures degrees != -1.0 ==> degrees == 22.5 * (PointIndex(degrees) + 1) as real
  {
    Degrees(Strip(direction))
  }

  /** Each English point k, unpadded, maps to 22.5 * (k + 1). */
  lemma DegreesEnglish(k: nat)
    requires k < 16
    ensures Degrees(EnglishPoint(k)) == 22.5 * (k + 1) as real
  {
  }

  /** Each German point k, unpadded, maps to 22.5 * (k + 1). */
  lemma DegreesGerman(k: nat)
    requires k < 16
    ensures Degrees(GermanPoint(k)) == 22.5 * (k + 1) as real
  {
  }

  /** Around a text with no whitespace at its ends, whitespace does not change the direction. */
  lemma MapDirectionOfPadded(before: string, d: string, after: string)
    requires AllWhitespace(before) && AllWhitespace(after)
    requires d == [] || (!IsWhitespace(d[0]) && !IsWhitespace(d[|d| - 1]))
    ensures MapDirection(before + d + after) == Degrees(d)
  {
    StripOfPadded(before, d, after);
  }

  /**
   * The table: the k-th point clockwise from north-north-east, in English and
   * with any whitespace around it, maps to 22.5 * (k + 1); so north is 360, not 0.
   */
  lemma MapDirectionEnglish(before: string, k: nat, after: string)
    requires AllWhitespace(before) && AllWhitespace(after) && k < 16
    ensures MapDirection(before + EnglishPoint(k) + after) == 22.5 * (k + 1) as real
  {
    EnglishEnds(k);
    MapDirectionOfPadded(before, EnglishPoint(k), after);
    DegreesEnglish(k);
  }

  /** The same for the German names of the points. */
  lemma MapDirectionGerman(before: string, k: nat, after: string)
    requires AllWhitespace(before) && AllWhitespace(after) && k < 16
    ensures MapDirection(before + GermanPoint(k) + after) == 22.5 * (k + 1) as real
  {
    GermanEnds(k);
    MapDirectionOfPadded(before, GermanPoint(k), after);
    DegreesGerman(k);
  }

  /** No English compass point starts or ends with whitespace. */
  lemma EnglishEnds(k: nat)
    requires k < 16
    ensures var e := EnglishPoint(k); e != [] && !IsWhitespace(e[0]) && !IsWhitespace(e[|e| - 1])
  {
  }

  /** No German compass point starts or ends with whitespace. */
  lemma GermanEnds(k: nat)
    requires k < 16
    ensures var g := GermanPoint(k); g != [] && !IsWhitespace(g[0]) && !IsWhitespace(g[|g| - 1])
  {
  }

  /** The result is -1 exactly when the stripped text names no compass point. */
  lemma MapDirectionUnknown(direction: string)
    ensures MapDirection(direction) == -1.0 <==> forall k | 0 <= k < 16 :: !NamesPoint(Strip(direction), k)
  {
    var d := Strip(direction);
    if k :| 0 <= k < 16 && NamesPoint(d, k) {
      if d == EnglishPoint(k) { DegreesEnglish(k); } else { DegreesGerman(k); }
    }
  }

  /** Whitespace around the text gives the same direction. */
  lemma MapDirectionIgnoresPadding(before: string, direction: string, after: string)
    requires AllWhitespace(before) && AllWhitespace(after)
    ensures MapDirection(before + direction + after) == MapDirection(direction)
  {
    StripIgnoresPadding(before, direction, after);
  }

  /** North padded with blanks is recognised, as 360 rather than 0. */
  lemma MapDirectionNorth()
    ensures MapDirection(" N ") == 360.0
  {
    assert Degrees("N") == 360.0;
    assert " " + "N" + " " == " N ";
    assert AllWhitespace(" ");
    StripOfPadded(" ", "N", " ");
  }

  /** The German east, O, is 90. */
  lemma MapDirectionGermanEast()
    ensures MapDirection("O") == 90.0
  {
    assert Degrees("O") == 90.0;
    StripOfCore("O");
  }

  /** Matching is case-sensitive: text that starts with a lower-case letter is never recognised. */
  lemma DegreesLowerCase(d: string)
    requires |d| > 0 && 'a' <= d[0] <= 'z'
    ensures Degrees(d) == -1.0
  {
  }

  /** So the lower-case "n" is unknown. */
  lemma MapDirectionCaseSensitive()
    ensures MapDirection("n") == -1.0
  {
    DegreesLowerCase("n");
    StripOfCore("n");
  }

  // ---------------------------------------------------------------------------
  // parseTemperatureString
  // ---------------------------------------------------------------------------

  /** String.indexOf(char): the first position of c, or -1 when c does not occur. */
  function IndexOf(s: string, c: char): (i: int)
    ensures -1 <= i < |s|
    ensures i == -1 <==> c !in s
    ensures i >= 0 ==> i < |s| && s[i] == c && c !in s[..i]
  {
    if s == [] then -1
    else if s[0] == c then 0
    else
      var j := IndexOf(s[1..], c);
      assert s == [s[0]] + s[1..];
      if j == -1 then -1
      else
        assert s[j + 1] == s[1..][j];
        assert s[..j + 1] == [s[0]] + s[1..][..j];
        j + 1
  }

  /**
   * The number text parseTemperatureString hands to Double.parseDouble: the
   * stripped input, cut just before its first 'C' when that 'C' is not the
   * first character. A leading 'C' and text without 'C' pass through whole.
   */
  function TemperatureText(temperature: string): (text: string)
    ensures var t := Strip(temperature);
      text <= t
      && ('C' !in t || t[0] == 'C' ==> text == t)
      && ('C' in t && t[0] != 'C' ==> 0 < |text| < |t| && t[|text|] == 'C' && 'C' !in text)
  {
    var t := Strip(temperature);
    var indexOfC := IndexOf(t, 'C');
    if indexOfC > 0 then t[..indexOfC] else t
  }

  /** The first position of c is the one before which c does not occur. */
  lemma IndexOfAt(s: string, c: char, k: nat)
    requires k < |s| && s[k] == c && c !in s[..k]
    ensures IndexOf(s, c) == k
  {
    assert s[k] in s;
  }

  /** Text that strips to a number text without 'C', then a 'C', has that number text. */
  lemma TemperatureTextOfNumber(temperature: string, number: string, rest: string)
    requires number != [] && 'C' !in number && Strip(temperature) == number + ['C'] + rest
    ensures TemperatureText(temperature) == number
  {
    var t := Strip(temperature);
    assert t[..|number|] == number;
    IndexOfAt(t, 'C', |number|);
  }

  /** The unit test's input with blanks and the unit: the unit is cut off, the blank before it stays. */
  lemma TemperatureTextPadded()
    ensures TemperatureText(" 28.3 C") == "28.3 "
  {
    var t := "28.3 C";
    IndexOfAt(t, 'C', 5);
    assert t[..5] == "28.3 ";
    assert " " + t + [] == " 28.3 C";
    assert AllWhitespace(" ") && AllWhitespace([]);
    StripOfPadded(" ", t, []);
  }

  /** The unit test's input with the unit and no padding. */
  lemma TemperatureTextWithUnit()
    ensures TemperatureText("28.4 C") == "28.4 "
  {
    var t := "28.4 C";
    IndexOfAt(t, 'C', 5);
    assert t[..5] == "28.4 ";
    StripOfCore(t);
  }

  /** The unit test's input without a unit passes through whole. */
  lemma TemperatureTextWithoutUnit()
    ensures TemperatureText("28.5") == "28.5"
  {
    assert 'C' !in "28.5";
    StripOfCore("28.5");
  }

  /**
   * The older parseTemperatureString of src/at/home/bernd/WindViewer.java
   * cuts at the first 'C' unconditionally: without a 'C' substring throws
   * (None), and a leading 'C' leaves the empty text.
   */
  function LegacyTemperatureText(temperature: string): (text: Option<string>)
    ensures var t := Strip(temperature);
      (text.None? <==> 'C' !in t)
      && (text.Some? ==> text.value <= t && |text.value| < |t| && t[|text.value|] == 'C' && 'C' !in text.value)
  {
    var t := Strip(temperature);
    var indexOfC := IndexOf(t, 'C');
    if indexOfC < 0 then None else Some(t[..indexOfC])
  }

  /** Where the stripped text has a 'C' after its first character, both versions cut at the same place. */
  lemma TemperatureVersionsAgree(temperature: string)
    requires var t := Strip(temperature); 'C' in t && t[0] != 'C'
    ensures LegacyTemperatureText(temperature) == Some(TemperatureText(temperature))
  {
  }
}
