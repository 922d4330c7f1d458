/** The pieces of JavaScript string handling the validators rely on:
    `String.prototype.trim`, the regular-expression classes `\d` and
    `[a-zA-Z0-9]`, and whole-string patterns of the form `^[class]+$`. */
module JsText {

  /** The characters `trim` removes: ECMAScript's WhiteSpace (tab, vertical
      tab, form feed, the byte order mark and every space separator) and
      LineTerminator (line feed, carriage return, line and paragraph
      separators). */
  predicate IsJsWhitespace(c: char) {
    || c == '\U{0009}' || c == '\U{000B}' || c == '\U{000C}' || c == '\U{FEFF}'
    || c == '\U{0020}' || c == '\U{00A0}' || c == '\U{1680}'
    || ('\U{2000}' <= c <= '\U{200A}')
    || c == '\U{202F}' || c == '\U{205F}' || c == '\U{3000}'
    || c == '\U{000A}' || c == '\U{000D}' || c == '\U{2028}' || c == '\U{2029}'
  }

  /** The class `\d` of a regular expression without the `u` flag. */
  predicate IsAsciiDigit(c: char) {
    '0' <= c <= '9'
  }

  /** The class `[a-zA-Z0-9]`. */
  predicate IsAsciiAlphanumeric(c: char) {
    ('a' <= c <= 'z') || ('A' <= c <= 'Z') || ('0' <= c <= '9')
  }

  /** Every character of `s` is whitespace. */
  predicate AllWhitespace(s: string) {
    forall i :: 0 <= i < |s| ==> IsJsWhitespace(s[i])
  }

  /** Whether `/^[class]+$/.test(s)` holds: `s` is one or more characters,
      each in the class. */
  function FullMatchPlus(s: string, inClass: char -> bool): (b: bool)
    ensures b <==> |s| > 0 && forall i :: 0 <= i < |s| ==> inClass(s[i])
  {
    if |s| == 0 then false
    else if !inClass(s[0]) then false
    else if |s| == 1 then true
    else
      assert forall i :: 1 <= i < |s| ==> s[i] == s[1..][i - 1];
      FullMatchPlus(s[1..], inClass)
  }

  /** The number of leading whitespace characters of `s`. */
  function LeadingWhitespace(s: string): (k: nat)
    ensures k <= |s|
    ensures AllWhitespace(s[..k])
    ensures k < |s| ==> !IsJsWhitespace(s[k])
  {
    if |s| == 0 || !IsJsWhitespace(s[0]) then 0
    else
      var k := LeadingWhitespace(s[1..]);
      assert s[1..][..k] == s[1..k + 1];
      k + 1
  }

  /** The position after the last non-whitespace character of `s` (zero
      when there is none). */
  function TrailingStart(s: string): (k: nat)
    ensures k <= |s|
    ensures AllWhitespace(s[k..])
    ensures k > 0 ==> !IsJsWhitespace(s[k - 1])
  {
    if |s| == 0 || !IsJsWhitespace(s[|s| - 1]) then |s|
    else
      var k := TrailingStart(s[..|s| - 1]);
      assert s[k..] == s[..|s| - 1][k..] + [s[|s| - 1]];
      k
  }

  /** `String.prototype.trim`: the text is empty exactly when `s` is all
      whitespace, and otherwise starts and ends with a non-whitespace
      character and is a slice of `s` with only whitespace cut away on
      either side. */
  function Trim(s: string): (t: string)
    ensures t == [] <==> AllWhitespace(s)
    ensures t != [] ==> !IsJsWhitespace(t[0]) && !IsJsWhitespace(t[|t| - 1])
    ensures t != [] ==> t == s[LeadingWhitespace(s)..TrailingStart(s)]
  {
    var lo := LeadingWhitespace(s);
    var hi := TrailingStart(s);
    if lo < hi then
      s[lo..hi]
    else
      []
  }

  /** The characterisation of `trim` from the outside: whitespace around a
      core that neither starts nor ends with whitespace is cut away, and
      the core is left exactly as it was. */
  lemma TrimOfPadded(before: string, core: string, after: string)
    requires AllWhitespace(before) && AllWhitespace(after)
    requires core != [] ==> !IsJsWhitespace(core[0]) && !IsJsWhitespace(core[|core| - 1])
    ensures Trim(before + core + after) == core
  {
    var s := before + core + after;
    if core == [] {
      assert s == before + after;
      assert AllWhitespace(s) by {
        forall i | 0 <= i < |s| ensures IsJsWhitespace(s[i]) {
          if i < |before| { assert s[i] == before[i]; } else { assert s[i] == after[i - |before|]; }
        }
      }
    } else {
      var lo := LeadingWhitespace(s);
      var hi := TrailingStart(s);
      assert s[|before|] == core[0];
      assert s[|before| + |core| - 1] == core[|core| - 1];
      assert lo == |before|;
      assert hi == |before| + |core|;
      assert s[lo..hi] == core;
    }
  }

  /** Whitespace followed by whitespace is whitespace. */
  lemma AllWhitespaceConcat(a: string, b: string)
    requires AllWhitespace(a) && AllWhitespace(b)
    ensures AllWhitespace(a + b)
  {
  }

  /** A string is its leading whitespace, its trimmed text and its trailing
      whitespace, in that order. */
  lemma TrimSplits(s: string)
    ensures Trim(s) != [] ==>
              s == s[..LeadingWhitespace(s)] + Trim(s) + s[TrailingStart(s)..]
  {
    var lo, hi := LeadingWhitespace(s), TrailingStart(s);
    if Trim(s) != [] {
      assert s[lo..hi] == Trim(s);
      assert s == s[..lo] + s[lo..hi] + s[hi..];
    }
  }

  /** Moving the padding into the outer parts of a five-part concatenation.
      Stated on its own because, next to the definition of `Trim`, the
      solver does not find this regrouping unaided. */
  lemma RegroupPadding(before: string, lead: string, core: string, trail: string, after: string)
    ensures before + (lead + core + trail) + after == (before + lead) + core + (trail + after)
  {
  }

  /** Adding whitespace on either side does not change what `trim` gives. */
  lemma TrimIgnoresSurroundingWhitespace(before: string, s: string, after: string)
    requires AllWhitespace(before) && AllWhitespace(after)
    ensures Trim(before + s + after) == Trim(s)
  {
    var t := Trim(s);
    if t == [] {
      AllWhitespaceConcat(before, s);
      AllWhitespaceConcat(before + s, after);
    } else {
      var lead := s[..LeadingWhitespace(s)];
      var trail := s[TrailingStart(s)..];
      TrimSplits(s);
      var left, right := before + lead, trail + after;
      RegroupPadding(before, lead, t, trail, after);
      assert before + s + after == left + t + right;
      AllWhitespaceConcat(before, lead);
      AllWhitespaceConcat(trail, after);
      TrimOfPadded(left, t, right);
    }
  }

  /** Trimming twice is trimming once. */
  lemma TrimIdempotent(s: string)
    ensures Trim(Trim(s)) == Trim(s)
  {
  }
}
