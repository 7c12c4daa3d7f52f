/** The string predicates the note screen uses: Kotlin's `isBlank()`,
    `contains(other, ignoreCase = true)`, and the plain-text payload that
    both the share action and the copy-to-clipboard action hand on. */
module Text {

  /** Kotlin's `Char.isWhitespace()` on the JVM: `Character.isWhitespace`
      (tab, line feed, vertical tab, form feed, carriage return, the four
      information separators U+001C..U+001F, and the Unicode space, line and
      paragraph separators other than the no-break ones) or
      `Character.isSpaceChar` (which adds the no-break spaces U+00A0, U+2007
      and U+202F). */
  predicate IsWhitespace(c: char) {
    var n := c as int;
    || 9 <= n <= 13
    || 0x1C <= n <= 0x20
    || n == 0xA0
    || n == 0x1680
    || 0x2000 <= n <= 0x200A
    || n == 0x2028 || n == 0x2029
    || n == 0x202F || n == 0x205F
    || n == 0x3000
  }

  /** `s.isBlank()`: empty, or whitespace only. */
  predicate IsBlank(s: string) {
    forall i :: 0 <= i < |s| ==> IsWhitespace(s[i])
  }

  /** A string is blank exactly when both of its parts are. */
  lemma BlankConcat(a: string, b: string)
    ensures IsBlank(a + b) <==> IsBlank(a) && IsBlank(b)
  {
    if IsBlank(a + b) {
      forall i | 0 <= i < |a| ensures IsWhitespace(a[i]) {
        assert (a + b)[i] == a[i];
      }
      forall i | 0 <= i < |b| ensures IsWhitespace(b[i]) {
        assert (a + b)[|a| + i] == b[i];
      }
    }
    if IsBlank(a) && IsBlank(b) {
      forall i | 0 <= i < |a + b| ensures IsWhitespace((a + b)[i]) {
        if i < |a| { assert (a + b)[i] == a[i]; } else { assert (a + b)[i] == b[i - |a|]; }
      }
    }
  }

  function UpperAscii(c: char): char {
    if 'a' <= c <= 'z' then (c as int - 32) as char else c
  }

  function LowerAscii(c: char): char {
    if 'A' <= c <= 'Z' then (c as int + 32) as char else c
  }

  /** The character test of `String.regionMatches(ignoreCase = true)`, which
      `contains(other, ignoreCase = true)` uses on strings: equal, or equal
      upper cases, or equal lower cases of the upper cases. */
  predicate CharsEqualIgnoreCase(c: char, d: char) {
    c == d || UpperAscii(c) == UpperAscii(d) || LowerAscii(UpperAscii(c)) == LowerAscii(UpperAscii(d))
  }

  /** `q` matches `s` at offset `i`, character by character, ignoring case. */
  predicate RegionMatches(s: string, i: nat, q: string)
    requires i + |q| <= |s|
  {
    forall k :: 0 <= k < |q| ==> CharsEqualIgnoreCase(s[i + k], q[k])
  }

  /** `s.indexOf(q, from, ignoreCase = true)`: the first offset at or after
      `from` where `q` matches, or -1 when there is none. */
  function IndexOfIgnoreCase(s: string, q: string, from: nat): (r: int)
    ensures r == -1 || (from <= r && r + |q| <= |s| && RegionMatches(s, r, q))
    ensures r >= 0 ==> forall i :: from <= i < r ==> !RegionMatches(s, i, q)
    ensures r == -1 <==> forall i :: from <= i && i + |q| <= |s| ==> !RegionMatches(s, i, q)
    decreases |s| - from
  {
    if from + |q| > |s| then -1
    else if RegionMatches(s, from, q) then from
    else IndexOfIgnoreCase(s, q, from + 1)
  }

  /** `s.contains(q, ignoreCase = true)`. */
  predicate ContainsIgnoreCase(s: string, q: string) {
    IndexOfIgnoreCase(s, q, 0) >= 0
  }

  /** The reference meaning of `contains`: some offset at which `q` matches. */
  lemma ContainsIgnoreCaseIff(s: string, q: string)
    ensures ContainsIgnoreCase(s, q) <==> exists i :: 0 <= i && i + |q| <= |s| && RegionMatches(s, i, q)
  {
  }

  /** The empty query is contained in every string, the empty one included. */
  lemma ContainsEmpty(s: string)
    ensures ContainsIgnoreCase(s, "")
  {
    assert RegionMatches(s, 0, "");
  }

  /** Every string occurring inside `s` is found. */
  lemma ContainsInfix(a: string, q: string, b: string)
    ensures ContainsIgnoreCase(a + q + b, q)
  {
    var s := a + q + b;
    forall k | 0 <= k < |q| ensures CharsEqualIgnoreCase(s[|a| + k], q[k]) {
      assert s[|a| + k] == q[k];
    }
    assert RegionMatches(s, |a|, q);
  }

  function UpperAsciiString(q: string): (r: string)
    ensures |r| == |q|
    ensures forall k :: 0 <= k < |q| ==> r[k] == UpperAscii(q[k])
  {
    seq(|q|, k requires 0 <= k < |q| => UpperAscii(q[k]))
  }

  /** Searching is case-insensitive: upper-casing the query changes nothing. */
  lemma ContainsIgnoresQueryCase(s: string, q: string)
    ensures ContainsIgnoreCase(s, UpperAsciiString(q)) <==> ContainsIgnoreCase(s, q)
  {
    var u := UpperAsciiString(q);
    forall i | 0 <= i && i + |q| <= |s| ensures RegionMatches(s, i, u) <==> RegionMatches(s, i, q) {
      forall k | 0 <= k < |q| ensures CharsEqualIgnoreCase(s[i + k], u[k]) <==> CharsEqualIgnoreCase(s[i + k], q[k]) {
      }
    }
    ContainsIgnoreCaseIff(s, q);
    ContainsIgnoreCaseIff(s, u);
  }

  /** The text shared or copied for a note: the content alone when the title
      is blank, otherwise the title, a blank line, and the content. */
  function SharePayload(title: string, text: string): (r: string)
    ensures |text| <= |r| && r[|r| - |text|..] == text
  {
    if IsBlank(title) then text else title + "\n\n" + text
  }

  /** The content can always be read back from the end of the payload, and a
      non-blank title from its start, followed by a blank line. */
  lemma PayloadParts(title: string, text: string)
    ensures |text| <= |SharePayload(title, text)|
    ensures SharePayload(title, text)[|SharePayload(title, text)| - |text|..] == text
    ensures IsBlank(title) ==> SharePayload(title, text) == text
    ensures !IsBlank(title) ==> SharePayload(title, text)[..|title| + 2] == title + "\n\n"
  {
  }

  /** A payload is blank exactly when a save of the same title and content
      would be skipped. */
  lemma {:induction false} PayloadBlankIff(title: string, text: string)
    ensures IsBlank(SharePayload(title, text)) <==> IsBlank(title) && IsBlank(text)
  {
    if !IsBlank(title) {
      BlankConcat(title, "\n\n" + text);
      assert SharePayload(title, text) == title + ("\n\n" + text);
    }
  }
}
