/**
 * Shared vocabulary: an optional value, the whitespace classes of Python and
 * JavaScript, stripping, ASCII lower-casing, splitting on one character,
 * decimal rendering and Python's int() on text.
 */
module Common {

  datatype Option<T> = None | Some(value: T)

  /** Python's str.isspace() for one character. */
  predicate IsPySpace(c: char) {
    ('\t' <= c <= '\r') || ('\U{1c}' <= c <= ' ') || c == '\U{85}' || c == '\U{a0}'
    || c == '\U{1680}' || ('\U{2000}' <= c <= '\U{200a}') || c == '\U{2028}' || c == '\U{2029}'
    || c == '\U{202f}' || c == '\U{205f}' || c == '\U{3000}'
  }

  /** JavaScript's WhiteSpace and LineTerminator (the set of `\s` and of String.prototype.trim). */
  predicate IsJsSpace(c: char) {
    ('\t' <= c <= '\r') || c == ' ' || c == '\U{a0}' || c == '\U{1680}'
    || ('\U{2000}' <= c <= '\U{200a}') || c == '\U{2028}' || c == '\U{2029}'
    || c == '\U{202f}' || c == '\U{205f}' || c == '\U{3000}' || c == '\U{feff}'
  }

  predicate AllSpace(s: string, ws: char -> bool) {
    forall i :: 0 <= i < |s| ==> ws(s[i])
  }

  /** Drops the leading characters that satisfy `ws`. */
  function StripLeft(s: string, ws: char -> bool): (r: string)
    ensures |r| <= |s| && r == s[|s| - |r|..]
    ensures r != [] ==> !ws(r[0])
    ensures AllSpace(s[..|s| - |r|], ws)
    decreases |s|
  {
    if s != [] && ws(s[0]) then StripLeft(s[1..], ws) else s
  }

  /** Drops the trailing characters that satisfy `ws`. */
  function StripRight(s: string, ws: char -> bool): (r: string)
    ensures |r| <= |s| && r == s[..|r|]
    ensures r != [] ==> !ws(r[|r| - 1])
    ensures AllSpace(s[|r|..], ws)
    decreases |s|
  {
    if s != [] && ws(s[|s| - 1]) then StripRight(s[..|s| - 1], ws) else s
  }

  /** Strips both ends (StripBothEnds states what the result is). */
  function Strip(s: string, ws: char -> bool): string {
    StripRight(StripLeft(s, ws), ws)
  }

  /** The stripped text is empty exactly when `s` is all whitespace, and otherwise has no whitespace at either end. */
  lemma StripBothEnds(s: string, ws: char -> bool)
    ensures var r := Strip(s, ws);
      && (r == [] <==> AllSpace(s, ws))
      && (r != [] ==> !ws(r[0]) && !ws(r[|r| - 1]))
  {
    var l := StripLeft(s, ws);
    var r := StripRight(l, ws);
    var k := |s| - |l|;
    if r == [] {
      assert s[..k] == s;
    } else {
      assert r[0] == l[0] == s[k];
      assert !ws(s[k]);
    }
  }

  /** Python's str.strip() with no argument. */
  function PyStrip(s: string): string { Strip(s, IsPySpace) }

  /** JavaScript's String.prototype.trim(). */
  function JsTrim(s: string): string { Strip(s, IsJsSpace) }

  /** Python's "not s.strip()": the text is empty or all whitespace. */
  predicate PyBlank(s: string) { PyStrip(s) == [] }

  function LowerChar(c: char): char {
    if 'A' <= c <= 'Z' then (c as int + 32) as char else c
  }

  /** Lower-casing of the ASCII letters; every other character is kept. */
  function Lower(s: string): (r: string)
    ensures |r| == |s| && forall i :: 0 <= i < |s| ==> r[i] == LowerChar(s[i])
  {
    seq(|s|, i requires 0 <= i < |s| => LowerChar(s[i]))
  }

  predicate StartsWith(s: string, p: string) {
    |p| <= |s| && s[..|p|] == p
  }

  predicate EndsWith(s: string, p: string) {
    |p| <= |s| && s[|s| - |p|..] == p
  }

  /** Substring test (Python `p in s`, JavaScript `s.includes(p)`). */
  predicate Contains(s: string, p: string)
    decreases |s|
  {
    StartsWith(s, p) || (s != [] && Contains(s[1..], p))
  }

  /** First index of `c` in `s`. */
  function IndexOf(s: string, c: char): (r: Option<nat>)
    ensures r.None? <==> c !in s
    ensures r.Some? ==> r.value < |s| && s[r.value] == c && c !in s[..r.value]
    decreases |s|
  {
    if s == [] then None
    else if s[0] == c then Some(0)
    else match IndexOf(s[1..], c)
      case None => None
      case Some(k) =>
        assert s[..k + 1] == [s[0]] + s[1..][..k];
        Some(k + 1)
  }

  /** Last index of `c` in `s`. */
  function LastIndexOf(s: string, c: char): (r: Option<nat>)
    ensures r.None? <==> c !in s
    ensures r.Some? ==> r.value < |s| && s[r.value] == c && c !in s[r.value + 1..]
    decreases |s|
  {
    if s == [] then None
    else if s[|s| - 1] == c then Some(|s| - 1)
    else match LastIndexOf(s[..|s| - 1], c)
      case None => None
      case Some(k) =>
        assert s[k + 1..] == s[..|s| - 1][k + 1..] + [s[|s| - 1]];
        Some(k)
  }

  /** Python's s.split(sep) for a one-character separator. */
  function Split(s: string, sep: char): (parts: seq<string>)
    ensures |parts| >= 1
    decreases |s|
  {
    if s == [] then [""]
    else if s[0] == sep then [""] + Split(s[1..], sep)
    else
      var rest := Split(s[1..], sep);
      [[s[0]] + rest[0]] + rest[1..]
  }

  /** The inverse of Split: the parts glued with the separator. */
  function Join(parts: seq<string>, sep: char): string
    decreases |parts|
  {
    if parts == [] then ""
    else if |parts| == 1 then parts[0]
    else parts[0] + [sep] + Join(parts[1..], sep)
  }

  /** Splitting and joining again gives back the text. */
  lemma {:induction false} JoinSplit(s: string, sep: char)
    ensures Join(Split(s, sep), sep) == s
    decreases |s|
  {
    if s == [] {
    } else if s[0] == sep {
      JoinSplit(s[1..], sep);
      var rest := Split(s[1..], sep);
      assert Split(s, sep) == [""] + rest;
    } else {
      JoinSplit(s[1..], sep);
      var rest := Split(s[1..], sep);
      var parts := Split(s, sep);
      assert parts[1..] == rest[1..];
      if |rest| == 1 {
        assert Join(parts, sep) == [s[0]] + rest[0];
      } else {
        assert Join(rest, sep) == rest[0] + [sep] + Join(rest[1..], sep);
      }
    }
  }

  /** No part of a split holds the separator. */
  lemma {:induction false} SplitPartsFree(s: string, sep: char)
    ensures forall p :: p in Split(s, sep) ==> sep !in p
    decreases |s|
  {
    if s != [] {
      SplitPartsFree(s[1..], sep);
    }
  }

  /** A text without the separator splits into itself alone. */
  lemma {:induction false} SplitWithoutSep(s: string, sep: char)
    requires sep !in s
    ensures Split(s, sep) == [s]
    decreases |s|
  {
    if s != [] {
      SplitWithoutSep(s[1..], sep);
      assert s == [s[0]] + s[1..];
    }
  }

  predicate IsDigit(c: char) { '0' <= c <= '9' }

  function DigitChar(d: nat): char
    requires d < 10
  {
    ('0' as int + d) as char
  }

  function DigitValue(c: char): nat
    requires IsDigit(c)
  {
    c as int - '0' as int
  }

  /**
   * Digits as Python's int() reads them, scanned from the right: at least
   * one digit, single underscores allowed only between two digits; None
   * for anything else.
   */
  function PyDecimal(t: string): Option<nat>
    decreases |t|
  {
    if t == [] || !IsDigit(t[|t| - 1]) then None
    else if |t| == 1 then Some(DigitValue(t[0]))
    else
      var front := if t[|t| - 2] == '_' then t[..|t| - 2] else t[..|t| - 1];
      match PyDecimal(front)
      case None => None
      case Some(v) => Some(v * 10 + DigitValue(t[|t| - 1]))
  }

  /** Decimal rendering of a natural number (no leading zeros). */
  function NatToString(n: nat): (s: string)
    ensures |s| >= 1 && forall i :: 0 <= i < |s| ==> IsDigit(s[i])
    ensures n > 0 ==> s[0] != '0'
    decreases n
  {
    if n < 10 then [DigitChar(n)] else NatToString(n / 10) + [DigitChar(n % 10)]
  }

  /** Decimal rendering of an integer, with '-' for negatives (JavaScript's String(n) for safe integers). */
  function IntToString(n: int): string {
    if n < 0 then "-" + NatToString(-n) else NatToString(n)
  }

  /** Reading back a rendered natural number gives the number. */
  lemma {:induction false} PyDecimalOfNatToString(n: nat)
    ensures PyDecimal(NatToString(n)) == Some(n)
    decreases n
  {
    if n >= 10 {
      PyDecimalOfNatToString(n / 10);
      var s := NatToString(n);
      assert s[..|s| - 1] == NatToString(n / 10);
      assert IsDigit(s[|s| - 2]);
    }
  }

  /**
   * Python's int(text) in base 10: surrounding whitespace, an optional sign
   * and PyDecimal digits; anything else raises ValueError, modelled as None.
   */
  function ParsePyInt(text: string): Option<int> {
    var t := PyStrip(text);
    if t != [] && (t[0] == '+' || t[0] == '-') then
      match PyDecimal(t[1..])
      case None => None
      case Some(v) => Some(if t[0] == '-' then -(v as int) else v as int)
    else match PyDecimal(t)
      case None => None
      case Some(v) => Some(v as int)
  }

  /** A text that neither starts nor ends with whitespace strips to itself. */
  lemma PyStripUnpadded(s: string)
    requires s != [] ==> !IsPySpace(s[0]) && !IsPySpace(s[|s| - 1])
    ensures PyStrip(s) == s
  {
    if s != [] {
      assert StripLeft(s, IsPySpace) == s;
    }
  }

  /** Leading whitespace is dropped whatever follows it. */
  lemma {:induction false} StripLeftPadded(pad: string, s: string, ws: char -> bool)
    requires AllSpace(pad, ws)
    ensures StripLeft(pad + s, ws) == StripLeft(s, ws)
    decreases |pad|
  {
    if pad == [] {
      assert pad + s == s;
    } else {
      assert (pad + s)[0] == pad[0] && ws(pad[0]);
      assert (pad + s)[1..] == pad[1..] + s;
      StripLeftPadded(pad[1..], s, ws);
    }
  }

  /** Trailing whitespace is dropped whatever precedes it. */
  lemma {:induction false} StripRightPadded(s: string, pad: string, ws: char -> bool)
    requires AllSpace(pad, ws)
    ensures StripRight(s + pad, ws) == StripRight(s, ws)
    decreases |pad|
  {
    if pad == [] {
      assert s + pad == s;
    } else {
      var front := pad[..|pad| - 1];
      assert (s + pad)[|s + pad| - 1] == pad[|pad| - 1] && ws(pad[|pad| - 1]);
      assert (s + pad)[..|s + pad| - 1] == s + front;
      StripRightPadded(s, front, ws);
    }
  }

  /** Whitespace put around a stripped text is stripped off again. */
  lemma StripPadded(before: string, s: string, after: string, ws: char -> bool)
    requires AllSpace(before, ws) && AllSpace(after, ws)
    requires Strip(s, ws) == s
    ensures Strip(before + (s + after), ws) == s
  {
    StripLeftPadded(before, s + after, ws);
    StripPaddedAfter(s, after, ws);
  }

  /** The trailing half of StripPadded. */
  lemma StripPaddedAfter(s: string, after: string, ws: char -> bool)
    requires AllSpace(after, ws)
    requires Strip(s, ws) == s
    ensures Strip(s + after, ws) == s
  {
    if s == [] {
      assert s + after == after + [];
      StripLeftPadded(after, [], ws);
    } else {
      StripBothEnds(s, ws);
      StripLeftKeeps(s + after, ws);
      StripRightPadded(s, after, ws);
      StripRightKeeps(s, ws);
    }
  }

  /** Python's strip() takes off exactly the whitespace put around a stripped text. */
  lemma PyStripPadded(before: string, s: string, after: string)
    requires AllSpace(before, IsPySpace) && AllSpace(after, IsPySpace)
    requires PyStrip(s) == s
    ensures PyStrip(before + (s + after)) == s
  {
    StripPadded(before, s, after, IsPySpace);
  }

  lemma StripLeftKeeps(s: string, ws: char -> bool)
    requires s != [] && !ws(s[0])
    ensures StripLeft(s, ws) == s
  {
  }

  lemma StripRightKeeps(s: string, ws: char -> bool)
    requires s != [] && !ws(s[|s| - 1])
    ensures StripRight(s, ws) == s
  {
  }

  /** Python's int() reads back every decimal rendering. */
  lemma ParsePyIntOfNatToString(n: nat)
    ensures ParsePyInt(NatToString(n)) == Some(n)
  {
    var s := NatToString(n);
    PyStripUnpadded(s);
    PyDecimalOfNatToString(n);
    ParsePyIntUnsigned(s);
  }

  /** Unpadded text without a sign is read by PyDecimal alone. */
  lemma ParsePyIntUnsigned(s: string)
    requires PyStrip(s) == s && s != [] && s[0] != '+' && s[0] != '-'
    ensures ParsePyInt(s) == match PyDecimal(s) case None => None case Some(v) => Some(v as int)
  {
  }
}
