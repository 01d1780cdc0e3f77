/**
 Python's notion of whitespace and `str.strip()` with no argument, as used by
 the header detector to decide whether a cell is empty.
 */
module Text {

  /** The characters for which Python's `str.isspace()` holds: the ASCII
      tab, line feed, vertical tab, form feed, carriage return and space, the
      four ASCII separators, and the Unicode line, paragraph and space
      separators. `str.strip()` removes exactly these from both ends. */
  const Whitespace: set<char> := {
    ' ', '\t', '\n', '\U{b}', '\U{c}', '\r',
    '\U{1c}', '\U{1d}', '\U{1e}', '\U{1f}',
    '\U{85}', '\U{a0}', '\U{1680}',
    '\U{2000}', '\U{2001}', '\U{2002}', '\U{2003}', '\U{2004}', '\U{2005}',
    '\U{2006}', '\U{2007}', '\U{2008}', '\U{2009}', '\U{200a}',
    '\U{2028}', '\U{2029}', '\U{202f}', '\U{205f}', '\U{3000}'
  }

  predicate IsSpace(c: char) {
    c in Whitespace
  }

  /** A string made only of whitespace (the empty string included). */
  predicate IsBlank(s: string) {
    forall i | 0 <= i < |s| :: IsSpace(s[i])
  }

  /** `s.lstrip()`. */
  function StripLeft(s: string): string {
    if |s| > 0 && IsSpace(s[0]) then StripLeft(s[1..]) else s
  }

  /** `s.rstrip()`. */
  function StripRight(s: string): string {
    if |s| > 0 && IsSpace(s[|s| - 1]) then StripRight(s[..|s| - 1]) else s
  }

  /** `s.strip()`. */
  function Strip(s: string): string {
    StripRight(StripLeft(s))
  }

  /** `lstrip` drops exactly the leading run of whitespace: what is left is a
      suffix that does not start with whitespace, and everything dropped was
      whitespace. */
  lemma {:induction false} StripLeftDropsLeadingSpace(s: string)
    ensures |StripLeft(s)| <= |s| && StripLeft(s) == s[|s| - |StripLeft(s)|..]
    ensures forall i | 0 <= i < |s| - |StripLeft(s)| :: IsSpace(s[i])
    ensures |StripLeft(s)| > 0 ==> !IsSpace(StripLeft(s)[0])
  {
    if |s| > 0 && IsSpace(s[0]) {
      var t := s[1..];
      StripLeftDropsLeadingSpace(t);
      assert StripLeft(s) == StripLeft(t);
      assert t[|t| - |StripLeft(t)|..] == s[|s| - |StripLeft(s)|..];
      forall i | 1 <= i < |s| - |StripLeft(s)| ensures IsSpace(s[i]) {
        assert s[i] == t[i - 1];
      }
    }
  }

  /** `rstrip` drops exactly the trailing run of whitespace. */
  lemma {:induction false} StripRightDropsTrailingSpace(s: string)
    ensures |StripRight(s)| <= |s| && StripRight(s) == s[..|StripRight(s)|]
    ensures forall i | |StripRight(s)| <= i < |s| :: IsSpace(s[i])
    ensures |StripRight(s)| > 0 ==> !IsSpace(StripRight(s)[|StripRight(s)| - 1])
  {
    if |s| > 0 && IsSpace(s[|s| - 1]) {
      var t := s[..|s| - 1];
      StripRightDropsTrailingSpace(t);
      assert StripRight(s) == StripRight(t);
      assert t[..|StripRight(t)|] == s[..|StripRight(s)|];
      forall i | |StripRight(s)| <= i < |s| - 1 ensures IsSpace(s[i]) {
        assert s[i] == t[i];
      }
    }
  }

  /** Stripping leaves nothing exactly when the string is all whitespace. */
  lemma StripEmptyIffBlank(s: string)
    ensures Strip(s) == "" <==> IsBlank(s)
  {
    var l := StripLeft(s);
    StripLeftDropsLeadingSpace(s);
    StripRightDropsTrailingSpace(l);
  }

  /** The stripped text is no longer than the original and, when not empty,
      starts and ends with a non-whitespace character. */
  lemma StripKeepsContent(s: string)
    ensures |Strip(s)| <= |s|
    ensures Strip(s) != "" ==> !IsSpace(Strip(s)[0]) && !IsSpace(Strip(s)[|Strip(s)| - 1])
  {
    var l := StripLeft(s);
    StripLeftDropsLeadingSpace(s);
    StripRightDropsTrailingSpace(l);
    var r := Strip(s);
    if r != "" {
      assert r[0] == l[0];
    }
  }
}
