/**
 * String operations used by both halves of the system: the JavaScript client
 * (`trim`, `replace`, `padStart`, `toLowerCase`, `endsWith`) and the Python
 * server (`strip`, `" ".join`, `str.lower`, `endswith`, `f"{n:02d}"`).
 * Strings are sequences of Unicode scalar values.
 */
module Text {
  import opened Common

  // ---------------------------------------------------------------------------
  // Substrings

  /** `p` occurs in `s` starting at index `i`. */
  predicate OccursAt(s: string, p: string, i: int) {
    0 <= i && i + |p| <= |s| && s[i..i + |p|] == p
  }

  /** `p` is a substring of `s` (Python `p in s`, JavaScript `s.includes(p)`). */
  predicate Contains(s: string, p: string) {
    exists i | 0 <= i <= |s| - |p| :: OccursAt(s, p, i)
  }

  predicate StartsWith(s: string, p: string) {
    |p| <= |s| && s[..|p|] == p
  }

  /** JavaScript `s.endsWith(p)`, Python `s.endswith(p)`. */
  predicate EndsWith(s: string, p: string) {
    |p| <= |s| && s[|s| - |p|..] == p
  }

  /** `s` ends with one of `suffixes` (JavaScript `suffixes.some(e => s.endsWith(e))`). */
  predicate EndsWithAny(s: string, suffixes: seq<string>) {
    exists k | 0 <= k < |suffixes| :: EndsWith(s, suffixes[k])
  }

  /** Leftmost occurrence of `p` in `s` at or after index `k`. */
  function IndexOfFrom(s: string, p: string, k: nat): (r: Option<nat>)
    requires k <= |s|
    ensures r.Some? ==> k <= r.value && OccursAt(s, p, r.value)
    ensures r.Some? ==> forall j :: k <= j < r.value ==> !OccursAt(s, p, j)
    ensures r.None? ==> forall j :: k <= j ==> !OccursAt(s, p, j)
    decreases |s| - k
  {
    if k + |p| > |s| then None
    else if s[k..k + |p|] == p then Some(k)
    else IndexOfFrom(s, p, k + 1)
  }

  /**
   * JavaScript `s.replace(p, rep)` with a string pattern (and a replacement
   * without `$` patterns): only the first occurrence is replaced.
   */
  function ReplaceFirst(s: string, p: string, rep: string): string {
    match IndexOfFrom(s, p, 0)
    case None => s
    case Some(i) => s[..i] + rep + s[i + |p|..]
  }

  /**
   * JavaScript `s.replace(/p/g, rep)` for a literal pattern: occurrences are
   * found left to right and do not overlap.
   */
  function ReplaceAll(s: string, p: string, rep: string): string
    requires p != []
    decreases |s|
  {
    if |s| < |p| then s
    else if s[..|p|] == p then rep + ReplaceAll(s[|p|..], p, rep)
    else [s[0]] + ReplaceAll(s[1..], p, rep)
  }

  /** The first occurrence of a suffix that starts with the first `c` of `s` is that suffix itself. */
  lemma {:induction false} ReplaceFirstCutsAtFirst(s: string, i: nat, c: char)
    requires i < |s| && s[i] == c
    requires forall j :: 0 <= j < i ==> s[j] != c
    ensures ReplaceFirst(s, s[i..], "") == s[..i]
  {
    var p := s[i..];
    assert OccursAt(s, p, i);
    forall j | 0 <= j < i
      ensures !OccursAt(s, p, j)
    {
      assert s[j] != c;
    }
    var r := IndexOfFrom(s, p, 0);
    assert r == Some(i);
  }

  // ---------------------------------------------------------------------------
  // Fenced-code markers

  const Fence := "```"

  ghost predicate FenceFree(s: string) {
    forall i :: !OccursAt(s, Fence, i)
  }

  /** A string starting with a character other than a backtick keeps it first after removing fences. */
  lemma RemoveFencesKeepsFirst(t: string)
    requires |t| > 0 && t[0] != '`'
    ensures var r := ReplaceAll(t, Fence, ""); |r| > 0 && r[0] == t[0]
  {
  }

  /** Removing fences cannot create a leading pair of backticks. */
  lemma RemoveFencesNoLeadingPair(t: string)
    requires !(|t| >= 2 && t[0] == '`' && t[1] == '`')
    ensures var r := ReplaceAll(t, Fence, ""); !(|r| >= 2 && r[0] == '`' && r[1] == '`')
  {
    if |t| >= 3 {
      assert t[..3] != Fence;
      if t[0] == '`' {
        RemoveFencesKeepsFirst(t[1..]);
      }
    }
  }

  /**
   * Removing every "```" left to right leaves no "```": the pieces that
   * survive cannot join up into a new fence.
   */
  lemma {:induction false} RemoveFencesIsFenceFree(s: string)
    ensures FenceFree(ReplaceAll(s, Fence, ""))
  {
    var r := ReplaceAll(s, Fence, "");
    if |s| < 3 {
      assert r == s;
    } else if s[..3] == Fence {
      RemoveFencesIsFenceFree(s[3..]);
      assert r == ReplaceAll(s[3..], Fence, "");
    } else {
      var t := ReplaceAll(s[1..], Fence, "");
      RemoveFencesIsFenceFree(s[1..]);
      assert r == [s[0]] + t;
      if s[0] == '`' {
        assert !(s[1] == '`' && s[2] == '`');
        RemoveFencesNoLeadingPair(s[1..]);
      }
      forall i
        ensures !OccursAt(r, Fence, i)
      {
        if i == 0 && |r| >= 3 {
          assert r[0] == s[0] && r[1] == t[0] && r[2] == t[1];
        } else if i > 0 && i + 3 <= |r| {
          assert r[i..i + 3] == t[i - 1..i + 2];
          assert !OccursAt(t, Fence, i - 1);
        }
      }
    }
  }

  /** A slice of a slice is a slice of the whole. */
  lemma SliceOfSlice(s: string, lo: nat, hi: nat, i: nat, j: nat)
    requires lo <= hi <= |s| && i <= j <= hi - lo
    ensures s[lo..hi][i..j] == s[lo + i..lo + j]
  {
    var a, b := s[lo..hi][i..j], s[lo + i..lo + j];
    assert |a| == |b|;
    forall k | 0 <= k < |a|
      ensures a[k] == b[k]
    {
      assert a[k] == s[lo..hi][i + k] == s[lo + i + k];
    }
  }

  /** A substring of a fence-free string is fence-free. */
  lemma InfixFenceFree(s: string, lo: nat, r: string)
    requires OccursAt(s, r, lo) && FenceFree(s)
    ensures FenceFree(r)
  {
    forall i
      ensures !OccursAt(r, Fence, i)
    {
      if 0 <= i && i + 3 <= |r| {
        assert r == s[lo..lo + |r|];
        SliceOfSlice(s, lo, lo + |r|, i, i + 3);
        assert !OccursAt(s, Fence, lo + i);
      }
    }
  }

  // ---------------------------------------------------------------------------
  // Newlines shown as HTML line breaks

  const Break := "<br>"

  /** JavaScript `s.replace(/\n/g, "<br>")`. */
  function NewlinesToBreaks(s: string): string {
    ReplaceAll(s, "\n", Break)
  }

  /** The inverse reading: every "<br>" back to a newline. */
  function BreaksToNewlines(s: string): string
    decreases |s|
  {
    if |s| >= 4 && s[..4] == Break then "\n" + BreaksToNewlines(s[4..])
    else if s == [] then []
    else [s[0]] + BreaksToNewlines(s[1..])
  }

  /** After the replacement no newline is left. */
  lemma {:induction false} NewlinesToBreaksHasNoNewline(s: string)
    ensures '\n' !in NewlinesToBreaks(s)
    decreases |s|
  {
    if s != [] {
      NewlinesToBreaksHasNoNewline(s[1..]);
      if s[..1] == "\n" {
        assert NewlinesToBreaks(s) == Break + NewlinesToBreaks(s[1..]);
      } else {
        assert NewlinesToBreaks(s) == [s[0]] + NewlinesToBreaks(s[1..]);
      }
    }
  }

  /** Text without '<' is recovered exactly from its HTML form. */
  lemma {:induction false} BreaksRoundTrip(s: string)
    requires '<' !in s
    ensures BreaksToNewlines(NewlinesToBreaks(s)) == s
    decreases |s|
  {
    if s != [] {
      assert '<' !in s[1..];
      BreaksRoundTrip(s[1..]);
      var rest := NewlinesToBreaks(s[1..]);
      if s[0] == '\n' {
        assert s[..1] == "\n";
        assert NewlinesToBreaks(s) == Break + rest;
        assert (Break + rest)[..4] == Break && (Break + rest)[4..] == rest;
      } else {
        assert s[..1] != "\n";
        assert NewlinesToBreaks(s) == [s[0]] + rest;
        assert ([s[0]] + rest)[1..] == rest;
      }
    }
  }

  // ---------------------------------------------------------------------------
  // Whitespace trimming

  /** Characters JavaScript's `String.prototype.trim` removes (WhiteSpace and LineTerminator). */
  predicate IsJsSpace(c: char) {
    c == ' ' || c == '\t' || c == '\n' || c == '\r' || c == '\U{0B}' || c == '\U{0C}'
    || c == '\U{A0}' || c == '\U{1680}' || ('\U{2000}' <= c <= '\U{200A}')
    || c == '\U{2028}' || c == '\U{2029}' || c == '\U{202F}' || c == '\U{205F}'
    || c == '\U{3000}' || c == '\U{FEFF}'
  }

  /** Characters Python's `str.strip()` removes (those for which `str.isspace` holds). */
  predicate IsPySpace(c: char) {
    c == ' ' || c == '\t' || c == '\n' || c == '\r' || c == '\U{0B}' || c == '\U{0C}'
    || ('\U{1C}' <= c <= '\U{1F}') || c == '\U{85}'
    || c == '\U{A0}' || c == '\U{1680}' || ('\U{2000}' <= c <= '\U{200A}')
    || c == '\U{2028}' || c == '\U{2029}' || c == '\U{202F}' || c == '\U{205F}'
    || c == '\U{3000}'
  }

  /** Number of leading characters of `s` satisfying `sp`. */
  function LeadingCount(s: string, sp: char -> bool): (n: nat)
    ensures n <= |s|
  {
    if s != [] && sp(s[0]) then 1 + LeadingCount(s[1..], sp) else 0
  }

  /** The counted characters satisfy `sp` and the next one does not. */
  lemma {:induction false} LeadingCountSpec(s: string, sp: char -> bool)
    ensures var n := LeadingCount(s, sp);
      (forall k | 0 <= k < n :: sp(s[k])) && (n < |s| ==> !sp(s[n]))
  {
    if s != [] && sp(s[0]) {
      LeadingCountSpec(s[1..], sp);
    }
  }

  /** Number of trailing characters of `s` satisfying `sp`. */
  function TrailingCount(s: string, sp: char -> bool): (n: nat)
    ensures n <= |s|
  {
    if s != [] && sp(s[|s| - 1]) then 1 + TrailingCount(s[..|s| - 1], sp) else 0
  }

  /** The counted characters satisfy `sp` and the one before them does not. */
  lemma {:induction false} TrailingCountSpec(s: string, sp: char -> bool)
    ensures var n := TrailingCount(s, sp);
      (forall k | |s| - n <= k < |s| :: sp(s[k])) && (n < |s| ==> !sp(s[|s| - n - 1]))
  {
    if s != [] && sp(s[|s| - 1]) {
      TrailingCountSpec(s[..|s| - 1], sp);
    }
  }

  /** `s` without its leading and trailing characters satisfying `sp`. */
  function TrimWith(s: string, sp: char -> bool): string {
    var lo := LeadingCount(s, sp);
    var rest := s[lo..];
    rest[..|rest| - TrailingCount(rest, sp)]
  }

  /**
   * Trimming removes only a white-space prefix and a white-space suffix: the
   * result is the input from position `LeadingCount` on, everything before
   * and after it is white space, it is empty exactly when the input is all
   * white space, and otherwise neither starts nor ends with white space.
   */
  lemma TrimWithSpec(s: string, sp: char -> bool)
    ensures var r := TrimWith(s, sp); var lo := LeadingCount(s, sp);
      lo + |r| <= |s| && r == s[lo..lo + |r|] && Contains(s, r)
      && (forall k | 0 <= k < lo :: sp(s[k]))
      && (forall k | lo + |r| <= k < |s| :: sp(s[k]))
      && (r == [] <==> forall k | 0 <= k < |s| :: sp(s[k]))
      && (r != [] ==> !sp(r[0]) && !sp(r[|r| - 1]))
  {
    var lo := LeadingCount(s, sp);
    var rest := s[lo..];
    LeadingCountSpec(s, sp);
    TrailingCountSpec(rest, sp);
    var r := rest[..|rest| - TrailingCount(rest, sp)];
    assert OccursAt(s, r, lo);
  }

  /** A string that neither starts nor ends with a trimmed character is left as it is. */
  lemma TrimWithKeepsTrimmed(s: string, sp: char -> bool)
    requires s != [] ==> !sp(s[0]) && !sp(s[|s| - 1])
    ensures TrimWith(s, sp) == s
  {
    if s != [] {
      assert LeadingCount(s, sp) == 0;
      assert TrailingCount(s, sp) == 0;
    }
  }

  /** JavaScript `s.trim()`. */
  function Trim(s: string): string {
    TrimWith(s, IsJsSpace)
  }

  /** Python `s.strip()`. */
  function Strip(s: string): string {
    TrimWith(s, IsPySpace)
  }

  /** Trimming a fence-free string leaves it fence-free. */
  lemma TrimFenceFree(s: string)
    requires FenceFree(s)
    ensures FenceFree(Trim(s))
  {
    var r := Trim(s);
    TrimWithSpec(s, IsJsSpace);
    var lo :| 0 <= lo <= |s| - |r| && OccursAt(s, r, lo);
    InfixFenceFree(s, lo, r);
  }

  // ---------------------------------------------------------------------------
  // Case

  /**
   * Lower-casing as far as it matters here: the extensions and keywords the
   * system compares against are ASCII, and apart from A-Z no character
   * lower-cases to a single ASCII letter they contain.
   */
  function ToLowerAscii(s: string): (r: string)
    ensures |r| == |s|
    ensures forall i | 0 <= i < |s| :: r[i] == (if 'A' <= s[i] <= 'Z' then s[i] - 'A' + 'a' else s[i])
  {
    if s == [] then [] else
    var c := s[0];
    [if 'A' <= c <= 'Z' then c - 'A' + 'a' else c] + ToLowerAscii(s[1..])
  }

  /** Lower-casing twice is lower-casing once. */
  lemma ToLowerIdempotent(s: string)
    ensures ToLowerAscii(ToLowerAscii(s)) == ToLowerAscii(s)
  {
    var once := ToLowerAscii(s);
    assert forall i | 0 <= i < |s| :: ToLowerAscii(once)[i] == once[i];
  }

  // ---------------------------------------------------------------------------
  // Decimal numerals

  predicate IsDigit(c: char) {
    '0' <= c <= '9'
  }

  /** Whether every character of `s` is a decimal digit. */
  predicate AllDigits(s: string) {
    forall i | 0 <= i < |s| :: IsDigit(s[i])
  }

  function DigitChar(d: nat): (c: char)
    requires d < 10
  {
    '0' + (d as char)
  }

  /** Python `str(n)` / JavaScript `String(n)` for a non-negative integer. */
  function NatToDecimal(n: nat): (r: string)
    ensures |r| >= 1 && AllDigits(r)
    ensures r[0] == '0' ==> n == 0
    ensures n < 10 <==> |r| == 1
    ensures n < 100 ==> |r| <= 2
  {
    if n < 10 then [DigitChar(n)] else NatToDecimal(n / 10) + [DigitChar(n % 10)]
  }

  /** Python `str(i)` / JavaScript `String(i)` for an integer. */
  function IntToDecimal(i: int): string {
    if i < 0 then "-" + NatToDecimal(-i) else NatToDecimal(i)
  }

  /** The value of a string of decimal digits (leading zeros allowed). */
  function DecimalValue(s: string): nat
    requires AllDigits(s)
  {
    if s == [] then 0 else
    var last := s[|s| - 1];
    assert IsDigit(last);
    DecimalValue(s[..|s| - 1]) * 10 + (last as int - '0' as int)
  }

  /** Reading a numeral back gives the number that was written. */
  lemma {:induction false} DecimalRoundTrip(n: nat)
    ensures DecimalValue(NatToDecimal(n)) == n
  {
    if n >= 10 {
      DecimalRoundTrip(n / 10);
      var s := NatToDecimal(n);
      assert s[..|s| - 1] == NatToDecimal(n / 10);
    }
  }

  /** A leading zero does not change the value of a numeral. */
  lemma {:induction false} LeadingZeroValue(s: string)
    requires AllDigits(s)
    ensures DecimalValue("0" + s) == DecimalValue(s)
  {
    if s != [] {
      LeadingZeroValue(s[..|s| - 1]);
      assert ("0" + s)[..|s|] == "0" + s[..|s| - 1];
    }
  }

  /** JavaScript `s.padStart(width, fill)` with a one-character fill. */
  function PadStart(s: string, width: nat, fill: char): (r: string)
    ensures |r| == if |s| >= width then |s| else width
    ensures r[|r| - |s|..] == s
    ensures forall i | 0 <= i < |r| - |s| :: r[i] == fill
    decreases width - |s|
  {
    if |s| >= width then s else PadStart([fill] + s, width, fill)
  }

  /** Zero-padding a numeral keeps its value. */
  lemma {:induction false} ZeroPadValue(s: string, width: nat)
    requires AllDigits(s)
    ensures var r := PadStart(s, width, '0');
      AllDigits(r) && DecimalValue(r) == DecimalValue(s)
    decreases width - |s|
  {
    if |s| < width {
      LeadingZeroValue(s);
      ZeroPadValue("0" + s, width);
    }
  }

  /** One two-character field of a time label: JavaScript `String(n).padStart(2, "0")`, Python `f"{n:02d}"`. */
  function TwoDigits(n: int): string {
    PadStart(IntToDecimal(n), 2, '0')
  }

  /**
   * A non-negative field is all digits, at least two of them, with no leading
   * zero beyond those two, and reads back as its number.
   */
  lemma TwoDigitsReadsBack(n: nat)
    ensures var f := TwoDigits(n);
      |f| >= 2 && (n < 100 ==> |f| == 2) && (|f| > 2 ==> f[0] != '0')
      && AllDigits(f) && DecimalValue(f) == n
  {
    ZeroPadValue(NatToDecimal(n), 2);
    DecimalRoundTrip(n);
  }

  /** A minutes/seconds label: both fields zero-padded to two characters, joined by ':'. */
  function Clock(minutes: int, seconds: int): string {
    TwoDigits(minutes) + ":" + TwoDigits(seconds)
  }

  /**
   * `t` reads back as `minutes` and `seconds`: it is "MM:SS" with digits on
   * both sides of the ':' before its last two characters, the minutes field
   * has no leading zero beyond two digits, and the two fields are those
   * numbers.
   */
  predicate ReadsBackAs(t: string, minutes: nat, seconds: nat) {
    |t| >= 5 && t[|t| - 3] == ':' && (|t| > 5 ==> t[0] != '0')
    && AllDigits(t[..|t| - 3]) && AllDigits(t[|t| - 2..])
    && DecimalValue(t[..|t| - 3]) == minutes && DecimalValue(t[|t| - 2..]) == seconds
  }

  /** Two numerals joined by ':', the second of two characters, read back as their values. */
  lemma SplitAtColon(a: string, b: string)
    requires AllDigits(a) && AllDigits(b) && |a| >= 2 && |b| == 2 && (|a| > 2 ==> a[0] != '0')
    ensures ReadsBackAs(a + ":" + b, DecimalValue(a), DecimalValue(b))
  {
    var t := a + ":" + b;
    assert |t| == |a| + 3 && t[|t| - 3] == ':';
    assert t[..|t| - 3] == a;
    assert t[|t| - 2..] == b;
  }

  /**
   * Reading a label back: with whole minutes and 0-59 seconds the label is
   * "MM:SS" with two-digit seconds, and its fields give back both numbers.
   */
  lemma ClockReadsBack(minutes: nat, seconds: nat)
    requires seconds < 60
    ensures ReadsBackAs(Clock(minutes, seconds), minutes, seconds)
  {
    TwoDigitsReadsBack(minutes);
    TwoDigitsReadsBack(seconds);
    SplitAtColon(TwoDigits(minutes), TwoDigits(seconds));
  }

  // ---------------------------------------------------------------------------
  // Numbers

  /** Truncation toward zero: Python `int(x)` and JavaScript's `Math.trunc`. */
  function Trunc(x: real): int {
    if x >= 0.0 then x.Floor else -((-x).Floor)
  }

  // ---------------------------------------------------------------------------
  // Joining

  /** Python `sep.join(parts)`. */
  function JoinWith(parts: seq<string>, sep: string): string {
    if parts == [] then ""
    else if |parts| == 1 then parts[0]
    else JoinWith(parts[..|parts| - 1], sep) + sep + parts[|parts| - 1]
  }
}
