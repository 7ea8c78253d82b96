/** The few Python `str` operations the program relies on, with Python's semantics
    restricted to ASCII: `lower()`, `endswith()`, `strip()` with no argument and
    `replace()`. `Contains`, substring occurrence, is not used by the program; it is
    the vocabulary in which the contracts about `replace()` are stated. */
module PyStr {

  // ---------------------------------------------------------------------------
  // lower()
  // ---------------------------------------------------------------------------

  predicate IsUpper(c: char) {
    'A' <= c <= 'Z'
  }

  /** `c.lower()` for an ASCII letter; every other character is left alone. */
  function LowerChar(c: char): (r: char)
    ensures !IsUpper(r)
    ensures !IsUpper(c) ==> r == c
    ensures IsUpper(c) ==> r as int == c as int + 32
  {
    if IsUpper(c) then (c as int + 32) as char else c
  }

  /** `s.lower()`: same length, each character lowered in place. */
  function Lower(s: string): (r: string)
    ensures |r| == |s|
    ensures forall i :: 0 <= i < |s| ==> r[i] == LowerChar(s[i])
  {
    if s == [] then [] else [LowerChar(s[0])] + Lower(s[1..])
  }

  /** Lowering twice is lowering once. */
  lemma LowerIdempotent(s: string)
    ensures Lower(Lower(s)) == Lower(s)
  {
  }

  // ---------------------------------------------------------------------------
  // endswith() and substring occurrence
  // ---------------------------------------------------------------------------

  /** `s.endswith(suffix)`. */
  predicate EndsWith(s: string, suffix: string) {
    |suffix| <= |s| && s[|s| - |suffix|..] == suffix
  }

  /** `p` occurs in `s` starting at index `i`. */
  predicate OccursAt(s: string, p: string, i: int) {
    0 <= i && i + |p| <= |s| && s[i..i + |p|] == p
  }

  /** `p` occurs somewhere in `s`. */
  predicate Contains(s: string, p: string) {
    exists i | 0 <= i <= |s| - |p| :: OccursAt(s, p, i)
  }

  /** An occurrence in `s` after its first character is an occurrence in `s[1..]`, and
      one at index 0 is the only other kind. */
  lemma ContainsTail(s: string, p: string)
    requires s != []
    ensures Contains(s, p) <==> OccursAt(s, p, 0) || Contains(s[1..], p)
  {
    if Contains(s, p) && !OccursAt(s, p, 0) {
      var i :| 0 <= i <= |s| - |p| && OccursAt(s, p, i);
      assert s[1..][i - 1..i - 1 + |p|] == s[i..i + |p|];
      assert OccursAt(s[1..], p, i - 1);
    }
    if Contains(s[1..], p) {
      var i :| 0 <= i <= |s[1..]| - |p| && OccursAt(s[1..], p, i);
      assert s[i + 1..i + 1 + |p|] == s[1..][i..i + |p|];
      assert OccursAt(s, p, i + 1);
    }
  }

  /** A non-empty `p` whose first character never appears in `s` does not occur in `s`. */
  lemma AbsentFirstChar(s: string, p: string)
    requires p != [] && p[0] !in s
    ensures !Contains(s, p)
  {
    forall i | 0 <= i <= |s| - |p|
      ensures !OccursAt(s, p, i)
    {
      assert s[i] != p[0];
      assert s[i..i + |p|][0] == s[i];
    }
  }

  // ---------------------------------------------------------------------------
  // strip()
  // ---------------------------------------------------------------------------

  /** The ASCII characters for which Python's `str.isspace()` holds: space, the
      controls `\t \n \v \f \r` (9 to 13) and the separators 28 to 31. */
  predicate IsSpace(c: char) {
    c == ' ' || 9 <= c as int <= 13 || 28 <= c as int <= 31
  }

  /** Every character of `s` from index `lo` up to `hi` is a space. */
  predicate SpaceBetween(s: string, lo: int, hi: int)
    requires 0 <= lo <= hi <= |s|
  {
    forall k :: lo <= k < hi ==> IsSpace(s[k])
  }

  /** `s.lstrip()`: the suffix of `s` left after every leading space is dropped. */
  function TrimLeft(s: string): (r: string)
    ensures |r| <= |s| && r == s[|s| - |r|..]
    ensures SpaceBetween(s, 0, |s| - |r|)
    ensures r == [] || !IsSpace(r[0])
  {
    if s != [] && IsSpace(s[0]) then TrimLeft(s[1..]) else s
  }

  /** `s.rstrip()`: the prefix of `s` left after every trailing space is dropped. */
  function TrimRight(s: string): (r: string)
    ensures |r| <= |s| && r == s[..|r|]
    ensures SpaceBetween(s, |r|, |s|)
    ensures r == [] || !IsSpace(r[|r| - 1])
  {
    if s != [] && IsSpace(s[|s| - 1]) then TrimRight(s[..|s| - 1]) else s
  }

  /** `s.strip()`: `s` is leading spaces, then the result, then trailing spaces, and the
      result neither starts nor ends with a space. The leading spaces are the ones
      `lstrip()` drops. */
  function Strip(s: string): (r: string)
    ensures |r| <= |s|
    ensures r == [] || (!IsSpace(r[0]) && !IsSpace(r[|r| - 1]))
    ensures var i := |s| - |TrimLeft(s)|;
            && i + |r| <= |s| && s[i..i + |r|] == r
            && SpaceBetween(s, 0, i) && SpaceBetween(s, i + |r|, |s|)
  {
    var l := TrimLeft(s);
    var r := TrimRight(l);
    SuffixPrefix(s, |s| - |l|, |r|);
    r
  }

  /** A prefix of length `n` of the suffix of `s` from `i` is the slice from `i` of
      length `n`, and a space range of that suffix is one of `s`. */
  lemma SuffixPrefix(s: string, i: nat, n: nat)
    requires i + n <= |s|
    ensures s[i..][..n] == s[i..i + n]
    ensures SpaceBetween(s[i..], n, |s| - i) ==> SpaceBetween(s, i + n, |s|)
  {
    if SpaceBetween(s[i..], n, |s| - i) {
      forall k | i + n <= k < |s|
        ensures IsSpace(s[k])
      {
        assert s[k] == s[i..][k - i];
      }
    }
  }

  /** A string that neither starts nor ends with a space is left alone by `strip()`. */
  lemma StripUnpadded(s: string)
    requires s != [] && !IsSpace(s[0]) && !IsSpace(s[|s| - 1])
    ensures Strip(s) == s
  {
    assert TrimLeft(s) == s;
    assert TrimRight(s) == s;
  }

  /** Every character of `strip(s)` is a character of `s`. */
  lemma StripChars(s: string, c: char)
    requires c in Strip(s)
    ensures c in s
  {
    var r := Strip(s);
    var i := |s| - |TrimLeft(s)|;
    var k :| 0 <= k < |r| && r[k] == c;
    assert s[i..i + |r|][k] == s[i + k];
  }

  // ---------------------------------------------------------------------------
  // replace()
  // ---------------------------------------------------------------------------

  /** `s.replace(pat, rep)`: scanning left to right, each occurrence of `pat` that does
      not overlap an earlier replaced one is replaced by `rep`. A replacement no longer
      than the pattern never lengthens the text; one no shorter never shortens it. */
  function Replace(s: string, pat: string, rep: string): (r: string)
    requires pat != []
    ensures |rep| <= |pat| ==> |r| <= |s|
    ensures |pat| <= |rep| ==> |s| <= |r|
    decreases |s|
  {
    if |s| < |pat| then s
    else if s[..|pat|] == pat then rep + Replace(s[|pat|..], pat, rep)
    else [s[0]] + Replace(s[1..], pat, rep)
  }

  /** Replacing a pattern that does not occur changes nothing. */
  lemma {:induction false} ReplaceAbsent(s: string, pat: string, rep: string)
    requires pat != [] && !Contains(s, pat)
    ensures Replace(s, pat, rep) == s
  {
    if |s| >= |pat| {
      assert !OccursAt(s, pat, 0);
      ContainsTail(s, pat);
      ReplaceAbsent(s[1..], pat, rep);
    }
  }

  /** Deleting a pattern only removes characters: every character left was in `s`. */
  lemma {:induction false} DeleteKeepsChars(s: string, pat: string, c: char)
    requires pat != [] && c in Replace(s, pat, "")
    ensures c in s
  {
    if |s| >= |pat| {
      if s[..|pat|] == pat {
        DeleteKeepsChars(s[|pat|..], pat, c);
        assert s[|pat|..][0] == s[|pat|];
        var k :| 0 <= k < |s[|pat|..]| && s[|pat|..][k] == c;
        assert s[|pat| + k] == c;
      } else if c != s[0] {
        DeleteKeepsChars(s[1..], pat, c);
        var k :| 0 <= k < |s[1..]| && s[1..][k] == c;
        assert s[1 + k] == c;
      }
    }
  }
}
