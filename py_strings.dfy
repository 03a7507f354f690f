/**
 * The Python 2 string operations the commands rely on: `sep.join`,
 * `strip()`, the `string.printable` set and the ordering of `str` keys.
 * `string.printable` is taken with its ASCII (C locale) contents.
 */
module PyStrings {

  /** `string.whitespace`: tab, newline, vertical tab, form feed, carriage return, space. */
  const WHITESPACE: string := "\t\n\U{000B}\U{000C}\r "

  /**
   * `c in string.printable`. In the C locale that string holds the digits,
   * the ASCII letters, the punctuation and the whitespace: every character
   * from ' ' to '~' and the other five whitespace characters.
   */
  predicate IsPrintable(c: char)
  {
    (' ' <= c <= '~') || c in WHITESPACE
  }

  /** `sep.join(parts)`. */
  function Join(sep: string, parts: seq<string>): (r: string)
    ensures parts == [] ==> r == []
    ensures |parts| == 1 ==> r == parts[0]
  {
    if parts == [] then []
    else if |parts| == 1 then parts[0]
    else parts[0] + sep + Join(sep, parts[1..])
  }

  predicate IsSpace(c: char) { c in WHITESPACE }

  /** Where `s.lstrip()` starts: the first index at or after `i` whose character is not whitespace, or `|s|`. */
  function LeadEnd(s: string, i: nat): (a: nat)
    requires i <= |s|
    ensures i <= a <= |s|
    ensures a < |s| ==> !IsSpace(s[a])
    ensures forall k :: i <= k < a ==> IsSpace(s[k])
    decreases |s| - i
  {
    if i < |s| && IsSpace(s[i]) then LeadEnd(s, i + 1) else i
  }

  /** Where `s.rstrip()` ends: the index just past the last character before `j` that is not whitespace, or 0. */
  function TrailStart(s: string, j: nat): (b: nat)
    requires j <= |s|
    ensures b <= j
    ensures b > 0 ==> !IsSpace(s[b - 1])
    ensures forall k :: b <= k < j ==> IsSpace(s[k])
  {
    if j > 0 && IsSpace(s[j - 1]) then TrailStart(s, j - 1) else j
  }

  /**
   * `s.strip()`: the middle of `s` from its first character that is not
   * whitespace on, with only whitespace before and after it; it neither
   * starts nor ends with whitespace.
   */
  function Strip(s: string): (r: string)
    ensures r == [] || (!IsSpace(r[0]) && !IsSpace(r[|r| - 1]))
    ensures var a := LeadEnd(s, 0);
      && a + |r| <= |s|
      && r == s[a..a + |r|]
      && (forall k :: 0 <= k < a ==> IsSpace(s[k]))
      && (forall k :: a + |r| <= k < |s| ==> IsSpace(s[k]))
  {
    var a, b := LeadEnd(s, 0), TrailStart(s, |s|);
    if b <= a then [] else s[a..b]
  }

  /** Strip leaves a string unchanged when it neither starts nor ends with whitespace. */
  lemma StripUnchanged(s: string)
    requires s == [] || (!IsSpace(s[0]) && !IsSpace(s[|s| - 1]))
    ensures Strip(s) == s
  {
  }

  /** Strip removes exactly one trailing newline from a string without other edge whitespace. */
  lemma StripTrailingNewline(s: string)
    requires s == [] || (!IsSpace(s[0]) && !IsSpace(s[|s| - 1]))
    ensures Strip(s + "\n") == s
  {
    var t := s + "\n";
    assert IsSpace(t[|t| - 1]);
    if s != [] {
      assert t[0] == s[0] && t[|s| - 1] == s[|s| - 1];
      assert LeadEnd(t, 0) == 0;
      assert TrailStart(t, |t|) == TrailStart(t, |s|) == |s|;
      assert t[0..|s|] == s;
    } else {
      assert LeadEnd(t, 0) == LeadEnd(t, 1) == 1;
    }
  }

  /**
   * `a < b` on Python strings: lexicographic by character code, and a proper
   * prefix sorts first.
   */
  predicate LexLess(a: string, b: string)
  {
    if a == [] then b != []
    else b != [] && (a[0] < b[0] || (a[0] == b[0] && LexLess(a[1..], b[1..])))
  }

  lemma {:induction false} LexLessIrreflexive(a: string)
    ensures !LexLess(a, a)
  {
    if a != [] {
      LexLessIrreflexive(a[1..]);
    }
  }

  lemma {:induction false} LexLessTransitive(a: string, b: string, c: string)
    requires LexLess(a, b) && LexLess(b, c)
    ensures LexLess(a, c)
  {
    if a != [] && a[0] == b[0] && b[0] == c[0] {
      LexLessTransitive(a[1..], b[1..], c[1..]);
    }
  }

  lemma {:induction false} LexLessConnected(a: string, b: string)
    requires a != b
    ensures LexLess(a, b) || LexLess(b, a)
  {
    if a != [] && b != [] && a[0] == b[0] {
      assert a == [a[0]] + a[1..] && b == [b[0]] + b[1..];
      LexLessConnected(a[1..], b[1..]);
    }
  }
}
