/**
 * The part of Python's `str` that the validator uses: `str.isspace()` on one
 * character and `str.strip()` called without arguments.
 */
module PyStr {

  /**
   * The characters for which Python's `str.isspace()` holds: the ASCII
   * controls TAB, LF, VT, FF, CR, the separators U+001C..U+001F, SPACE, and
   * the Unicode white space NEL, NO-BREAK SPACE, OGHAM SPACE MARK,
   * U+2000..U+200A, LINE and PARAGRAPH SEPARATOR, NARROW NO-BREAK SPACE,
   * MEDIUM MATHEMATICAL SPACE and IDEOGRAPHIC SPACE.
   */
  const SpaceChars: set<char> := {
    '\t', '\n', '\U{000B}', '\U{000C}', '\r',
    '\U{001C}', '\U{001D}', '\U{001E}', '\U{001F}', ' ',
    '\U{0085}', '\U{00A0}', '\U{1680}',
    '\U{2000}', '\U{2001}', '\U{2002}', '\U{2003}', '\U{2004}', '\U{2005}',
    '\U{2006}', '\U{2007}', '\U{2008}', '\U{2009}', '\U{200A}',
    '\U{2028}', '\U{2029}', '\U{202F}', '\U{205F}', '\U{3000}'
  }

  /** Python's `c.isspace()` for a one-character string. */
  predicate IsSpace(c: char)
  {
    c in SpaceChars
  }

  /** Every character of `s` outside `s[i..j]` is white space. */
  predicate SpaceOutside(s: string, i: int, j: int)
  {
    forall k :: 0 <= k < |s| && !(i <= k < j) ==> IsSpace(s[k])
  }

  /** `s` neither starts nor ends with white space. */
  predicate NoEdgeSpace(s: string)
  {
    s == [] || (!IsSpace(s[0]) && !IsSpace(s[|s| - 1]))
  }

  /** The index of the first non-white-space character of `s` at or after `i` (`|s|` if none). */
  function SkipSpace(s: string, i: nat): (r: nat)
    requires i <= |s|
    ensures i <= r <= |s|
    ensures forall k :: i <= k < r ==> IsSpace(s[k])
    ensures r < |s| ==> !IsSpace(s[r])
    decreases |s| - i
  {
    if i < |s| && IsSpace(s[i]) then SkipSpace(s, i + 1) else i
  }

  /** The end of `s[lo..j]` once its trailing white space is dropped. */
  function SkipSpaceBack(s: string, lo: nat, j: nat): (r: nat)
    requires lo <= j <= |s|
    ensures lo <= r <= j
    ensures forall k :: r <= k < j ==> IsSpace(s[k])
    ensures r > lo ==> !IsSpace(s[r - 1])
  {
    if j > lo && IsSpace(s[j - 1]) then SkipSpaceBack(s, lo, j - 1) else j
  }

  /**
   * Python's `s.strip()`: the slice of `s` left once the longest white-space
   * prefix and the longest white-space suffix are cut off.
   */
  function Strip(s: string): (r: string)
    ensures NoEdgeSpace(r)
  {
    var i := SkipSpace(s, 0);
    var j := SkipSpaceBack(s, i, |s|);
    assert i < j ==> s[i..j][0] == s[i] && s[i..j][j - i - 1] == s[j - 1];
    s[i..j]
  }

  /** What Strip cuts off on either side is white space only. */
  lemma StripIsCut(s: string)
    ensures exists i, j :: 0 <= i <= j <= |s| && Strip(s) == s[i..j] && SpaceOutside(s, i, j)
  {
    var i := SkipSpace(s, 0);
    var j := SkipSpaceBack(s, i, |s|);
    assert SpaceOutside(s, i, j);
  }

  /**
   * Strip is the only cut with the properties above: whenever `s[i..j]` has
   * white space only around it and none at its edges, it is `Strip(s)`.
   */
  lemma StripUnique(s: string, i: int, j: int)
    requires 0 <= i <= j <= |s|
    requires SpaceOutside(s, i, j)
    requires NoEdgeSpace(s[i..j])
    ensures Strip(s) == s[i..j]
  {
    var i' := SkipSpace(s, 0);
    var j' := SkipSpaceBack(s, i', |s|);
    CutUnique(s, i, j, i', j');
  }

  /** Two cuts of `s` with white space around them and none at their edges are the same cut. */
  lemma CutUnique(s: string, i: int, j: int, i': int, j': int)
    requires 0 <= i <= j <= |s| && 0 <= i' <= j' <= |s|
    requires SpaceOutside(s, i, j) && SpaceOutside(s, i', j')
    requires NoEdgeSpace(s[i..j]) && NoEdgeSpace(s[i'..j'])
    ensures s[i..j] == s[i'..j']
  {
    if i < j {
      assert s[i..j][0] == s[i] && s[i..j][j - i - 1] == s[j - 1];
    }
    if i' < j' {
      assert s[i'..j'][0] == s[i'] && s[i'..j'][j' - i' - 1] == s[j' - 1];
    }
    if i < j || i' < j' {
      assert i == i' && j == j';
    }
  }

  /** A string is left unchanged by Strip exactly when it has no white space at its edges. */
  lemma StripFixedIff(s: string)
    ensures Strip(s) == s <==> NoEdgeSpace(s)
  {
    if NoEdgeSpace(s) {
      assert s[0..|s|] == s;
      StripUnique(s, 0, |s|);
    }
  }

  /** Stripping twice is stripping once. */
  lemma StripIdempotent(s: string)
    ensures Strip(Strip(s)) == Strip(s)
  {
    StripFixedIff(Strip(s));
  }
}
