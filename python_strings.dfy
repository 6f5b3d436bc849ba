/**
 The two Python string methods the fix post-processing relies on,
 `str.replace(old, new)` and `str.strip()`, defined over `seq<char>`, with
 the facts about them that the cleanup needs.
 */
module PythonStrings {

  /** `pat` occurs in `s` starting at offset `i`. */
  predicate OccursAt(s: string, pat: string, i: int) {
    0 <= i && i + |pat| <= |s| && s[i..i + |pat|] == pat
  }

  /** Python's `pat in s`. */
  predicate Contains(s: string, pat: string) {
    exists i | 0 <= i <= |s| - |pat| :: OccursAt(s, pat, i)
  }

  /**
   Python's `s.replace(pat, rep)`: scan from the left, replace each
   occurrence of `pat` and resume the scan after it, so that occurrences
   never overlap. An empty `pat` matches before every character and at the
   end, as in Python.
   */
  function ReplaceAll(s: string, pat: string, rep: string): (r: string)
    ensures pat != [] && |rep| <= |pat| ==> |r| <= |s|
    decreases |s|
  {
    if pat == [] then
      if s == [] then rep else rep + [s[0]] + ReplaceAll(s[1..], pat, rep)
    else if |s| < |pat| then s
    else if s[..|pat|] == pat then rep + ReplaceAll(s[|pat|..], pat, rep)
    else [s[0]] + ReplaceAll(s[1..], pat, rep)
  }

  /** A string that does not start with `pat` keeps its first character. */
  lemma ReplaceKeepsUnmatchedHead(s: string, pat: string, rep: string)
    requires pat != [] && s != [] && !OccursAt(s, pat, 0)
    ensures ReplaceAll(s, pat, rep) == [s[0]] + ReplaceAll(s[1..], pat, rep)
  {
    if |s| < |pat| {
      assert ReplaceAll(s[1..], pat, rep) == s[1..];
      assert [s[0]] + s[1..] == s;
    }
  }

  /** A prefix in which no occurrence of `pat` starts is copied unchanged. */
  lemma {:induction false} ReplaceSkipsUnmatchedPrefix(s: string, pat: string, rep: string, k: nat)
    requires pat != [] && k <= |s|
    requires forall i :: 0 <= i < k ==> !OccursAt(s, pat, i)
    ensures ReplaceAll(s, pat, rep) == s[..k] + ReplaceAll(s[k..], pat, rep)
    decreases k
  {
    if k == 0 {
      assert s[..k] == [] && s[k..] == s;
    } else {
      OccurrenceInTail(s, pat, k);
      ReplaceSkipsUnmatchedPrefix(s[1..], pat, rep, k - 1);
      ReplaceSkipStep(s, pat, rep, k);
    }
  }

  /** One step of that induction: the unmatched first character is copied. */
  lemma ReplaceSkipStep(s: string, pat: string, rep: string, k: nat)
    requires pat != [] && 0 < k <= |s| && !OccursAt(s, pat, 0)
    requires ReplaceAll(s[1..], pat, rep) == s[1..][..k - 1] + ReplaceAll(s[1..][k - 1..], pat, rep)
    ensures ReplaceAll(s, pat, rep) == s[..k] + ReplaceAll(s[k..], pat, rep)
  {
    ReplaceKeepsUnmatchedHead(s, pat, rep);
    var t, x := s[1..], ReplaceAll(s[k..], pat, rep);
    assert t[k - 1..] == s[k..];
    assert ReplaceAll(t, pat, rep) == t[..k - 1] + x;
    assert [s[0]] + t[..k - 1] == s[..k];
    ConsAssociates(s[0], t[..k - 1], x);
  }

  lemma ConsAssociates(c: char, a: string, b: string)
    ensures [c] + (a + b) == ([c] + a) + b
  {
  }

  /** An occurrence in the tail of a string is an occurrence one place later in it. */
  lemma OccurrenceInTail(s: string, pat: string, k: nat)
    requires 0 < k <= |s|
    requires forall i :: 0 <= i < k ==> !OccursAt(s, pat, i)
    ensures forall i :: 0 <= i < k - 1 ==> !OccursAt(s[1..], pat, i)
  {
    forall i | 0 <= i < k - 1
      ensures !OccursAt(s[1..], pat, i)
    {
      assert !OccursAt(s, pat, i + 1);
      if i + |pat| <= |s| - 1 {
        assert s[1..][i..i + |pat|] == s[i + 1..i + 1 + |pat|];
      }
    }
  }

  /** Without an occurrence of a (non-empty) `pat`, `replace` returns its input. */
  lemma NoOccurrenceUnchanged(s: string, pat: string, rep: string)
    requires pat != [] && !Contains(s, pat)
    ensures ReplaceAll(s, pat, rep) == s
  {
    ReplaceSkipsUnmatchedPrefix(s, pat, rep, |s|);
    assert s[..|s|] == s;
    assert s[|s|..] == [];
  }

  /**
   The leftmost occurrence is the one replaced, and the scan resumes right
   after it.
   */
  lemma FirstOccurrenceReplaced(a: string, pat: string, rep: string, b: string)
    requires pat != []
    requires forall i :: 0 <= i < |a| ==> !OccursAt(a + pat + b, pat, i)
    ensures ReplaceAll(a + pat + b, pat, rep) == a + rep + ReplaceAll(b, pat, rep)
  {
    var s := a + pat + b;
    var u := pat + b;
    ReplaceSkipsUnmatchedPrefix(s, pat, rep, |a|);
    assert s[..|a|] == a;
    assert s[|a|..] == u;
    assert u[..|pat|] == pat;
    assert u[|pat|..] == b;
    assert ReplaceAll(u, pat, rep) == rep + ReplaceAll(b, pat, rep);
  }

  /** Removing a pattern that occurs exactly once deletes just that occurrence. */
  lemma OnlyOccurrenceRemoved(a: string, pat: string, b: string)
    requires pat != []
    requires forall i :: 0 <= i < |a| ==> !OccursAt(a + pat + b, pat, i)
    requires !Contains(b, pat)
    ensures ReplaceAll(a + pat + b, pat, "") == a + b
  {
    FirstOccurrenceReplaced(a, pat, "", b);
    NoOccurrenceUnchanged(b, pat, "");
    EmptyBetween(ReplaceAll(a + pat + b, pat, ""), a, ReplaceAll(b, pat, ""), b);
  }

  /**
   Kept apart so that the sequence equality is proved without any
   `ReplaceAll` term in sight.
   */
  lemma EmptyBetween(r: string, a: string, t: string, b: string)
    requires r == a + "" + t && t == b
    ensures r == a + b
  {
  }

  /** An occurrence inside a slice is an occurrence in the whole string. */
  lemma SliceKeepsAbsence(s: string, pat: string, i: int, j: int)
    requires 0 <= i <= j <= |s| && !Contains(s, pat)
    ensures !Contains(s[i..j], pat)
  {
    forall k | OccursAt(s[i..j], pat, k)
      ensures false
    {
      var x, y := s[i..j][k..k + |pat|], s[i + k..i + k + |pat|];
      assert forall n :: 0 <= n < |x| ==> x[n] == y[n];
      assert x == y;
      assert OccursAt(s, pat, i + k);
    }
  }

  /**
   Putting one character in front of a string creates no occurrence other
   than possibly one at the very start.
   */
  lemma ConsKeepsAbsence(c: char, t: string, pat: string)
    requires !Contains(t, pat) && !OccursAt([c] + t, pat, 0)
    ensures !Contains([c] + t, pat)
  {
    forall k | OccursAt([c] + t, pat, k)
      ensures false
    {
      assert k > 0;
      assert ([c] + t)[k..k + |pat|] == t[k - 1..k - 1 + |pat|];
      assert OccursAt(t, pat, k - 1);
    }
  }

  // ---------------------------------------------------------------------
  // Deleting characters

  /**
   `r` is `s` with some characters deleted: the characters of `r` appear in
   `s` in the same order.
   */
  predicate IsSubsequence(r: string, s: string)
    decreases |s|
  {
    r == [] || (s != [] && ((r[0] == s[0] && IsSubsequence(r[1..], s[1..])) || IsSubsequence(r, s[1..])))
  }

  /** Every slice of a string is a subsequence of it. */
  lemma {:induction false} SliceIsSubsequence(s: string, i: int, j: int)
    requires 0 <= i <= j <= |s|
    ensures IsSubsequence(s[i..j], s)
    decreases |s|
  {
    if i < j {
      if i > 0 {
        SliceIsSubsequence(s[1..], i - 1, j - 1);
        assert s[1..][i - 1..j - 1] == s[i..j];
      } else {
        SliceIsSubsequence(s[1..], 0, j - 1);
        assert s[1..][..j - 1] == s[i..j][1..];
      }
    }
  }

  /** Deleting characters twice is deleting characters. */
  lemma {:induction false} SubsequenceTransitive(a: string, b: string, c: string)
    requires IsSubsequence(a, b) && IsSubsequence(b, c)
    ensures IsSubsequence(a, c)
    decreases |c|
  {
    if a != [] {
      if IsSubsequence(b, c[1..]) {
        SubsequenceTransitive(a, b, c[1..]);
      } else if a[0] == b[0] && IsSubsequence(a[1..], b[1..]) {
        SubsequenceTransitive(a[1..], b[1..], c[1..]);
      } else {
        SubsequenceTransitive(a, b[1..], c[1..]);
      }
    }
  }

  /** Replacing by the empty string only deletes characters. */
  lemma {:induction false} RemovalIsSubsequence(s: string, pat: string)
    ensures IsSubsequence(ReplaceAll(s, pat, []), s)
    decreases |s|
  {
    if pat != [] && |s| < |pat| {
      SliceIsSubsequence(s, 0, |s|);
      assert s[0..|s|] == s;
    } else if pat != [] && s[..|pat|] == pat {
      RemovalIsSubsequence(s[|pat|..], pat);
      SliceIsSubsequence(s, |pat|, |s|);
      assert s[|pat|..|s|] == s[|pat|..];
      assert ReplaceAll(s, pat, []) == ReplaceAll(s[|pat|..], pat, []);
      SubsequenceTransitive(ReplaceAll(s[|pat|..], pat, []), s[|pat|..], s);
    } else if s != [] {
      RemovalIsSubsequence(s[1..], pat);
      var r := ReplaceAll(s, pat, []);
      assert r == [s[0]] + ReplaceAll(s[1..], pat, []);
      assert r[0] == s[0] && r[1..] == ReplaceAll(s[1..], pat, []);
    }
  }

  // ---------------------------------------------------------------------
  // Whitespace and strip()

  /**
   The characters Python's `str.isspace()` accepts, by code point: the ASCII
   controls TAB to CR and FS to US, SPACE, NEL, NO-BREAK SPACE, OGHAM SPACE
   MARK, EN QUAD to HAIR SPACE, LINE and PARAGRAPH SEPARATOR, NARROW
   NO-BREAK SPACE, MEDIUM MATHEMATICAL SPACE and IDEOGRAPHIC SPACE.
   */
  predicate IsWhitespace(c: char) {
    var n := c as int;
    (0x09 <= n <= 0x0D) || (0x1C <= n <= 0x20) || n == 0x85 || n == 0xA0
    || n == 0x1680 || (0x2000 <= n <= 0x200A) || n == 0x2028 || n == 0x2029
    || n == 0x202F || n == 0x205F || n == 0x3000
  }

  predicate AllWhitespace(s: string) {
    forall k :: 0 <= k < |s| ==> IsWhitespace(s[k])
  }

  /** Neither the first nor the last character is whitespace. */
  predicate IsTrimmed(s: string) {
    s == [] || (!IsWhitespace(s[0]) && !IsWhitespace(s[|s| - 1]))
  }

  /** `s` is `core` at offset `i`, with only whitespace before and after it. */
  predicate PaddedAt(s: string, core: string, i: int) {
    0 <= i && i + |core| <= |s| && s[i..i + |core|] == core
    && AllWhitespace(s[..i]) && AllWhitespace(s[i + |core|..])
  }

  /** Python's `s.lstrip()`: the longest suffix that does not start with whitespace. */
  function StripLeading(s: string): (r: string)
    ensures |r| <= |s| && r == s[|s| - |r|..]
    ensures AllWhitespace(s[..|s| - |r|])
    ensures r == [] || !IsWhitespace(r[0])
    decreases |s|
  {
    if s != [] && IsWhitespace(s[0]) then
      var r := StripLeading(s[1..]);
      DropFirst(s, |s| - |r|);
      WhitespaceConcat([s[0]], s[1..][..|s| - 1 - |r|]);
      r
    else
      s
  }

  /** Python's `s.rstrip()`: the longest prefix that does not end with whitespace. */
  function StripTrailing(s: string): (r: string)
    ensures |r| <= |s| && r == s[..|r|]
    ensures AllWhitespace(s[|r|..])
    ensures r == [] || !IsWhitespace(r[|r| - 1])
    decreases |s|
  {
    if s != [] && IsWhitespace(s[|s| - 1]) then
      var r := StripTrailing(s[..|s| - 1]);
      DropLast(s, |r|);
      WhitespaceConcat(s[..|s| - 1][|r|..], [s[|s| - 1]]);
      r
    else
      s
  }

  /** How the slices of `s` relate to those of `s` without its first character. */
  lemma DropFirst(s: string, n: int)
    requires 1 <= n <= |s|
    ensures s[1..][n - 1..] == s[n..] && s[..n] == [s[0]] + s[1..][..n - 1]
  {
  }

  /** How the slices of `s` relate to those of `s` without its last character. */
  lemma DropLast(s: string, n: int)
    requires 0 <= n < |s|
    ensures s[..|s| - 1][..n] == s[..n] && s[n..] == s[..|s| - 1][n..] + [s[|s| - 1]]
  {
  }

  /**
   Python's `s.strip()`: the input with its leading and its trailing
   whitespace removed. What remains is trimmed and sits in the input, right
   after the leading whitespace, with only whitespace around it.
   */
  function Strip(s: string): (r: string)
    ensures IsTrimmed(r)
    ensures PaddedAt(s, r, |s| - |StripLeading(s)|)
  {
    var t := StripLeading(s);
    var r := StripTrailing(t);
    StripsCombine(s, t, r);
    r
  }

  /**
   Whitespace removed from the front, leaving `t`, and then from the back of
   `t`, leaving `r`, pads a trimmed `r`.
   */
  lemma StripsCombine(s: string, t: string, r: string)
    requires |t| <= |s| && t == s[|s| - |t|..] && AllWhitespace(s[..|s| - |t|])
    requires t == [] || !IsWhitespace(t[0])
    requires |r| <= |t| && r == t[..|r|] && AllWhitespace(t[|r|..])
    requires r == [] || !IsWhitespace(r[|r| - 1])
    ensures IsTrimmed(r) && PaddedAt(s, r, |s| - |t|)
  {
    var i := |s| - |t|;
    assert t[..|r|] == s[i..i + |r|];
    assert t[|r|..] == s[i + |r|..];
    if r != [] {
      assert r[0] == t[0];
    }
  }

  /** `lstrip()` stops at the first character that is not whitespace. */
  lemma {:induction false} StripLeadingStopsAt(s: string, i: int)
    requires 0 <= i < |s| && AllWhitespace(s[..i]) && !IsWhitespace(s[i])
    ensures StripLeading(s) == s[i..]
    decreases i
  {
    if i > 0 {
      assert s[..i][0] == s[0];
      assert s[1..][..i - 1] == s[1..i];
      StripLeadingStopsAt(s[1..], i - 1);
    }
  }

  /** `rstrip()` stops at the last character that is not whitespace. */
  lemma {:induction false} StripTrailingStopsAt(s: string, n: int)
    requires 0 < n <= |s| && AllWhitespace(s[n..]) && !IsWhitespace(s[n - 1])
    ensures StripTrailing(s) == s[..n]
    decreases |s|
  {
    if n < |s| {
      var s' := s[..|s| - 1];
      assert s[n..][|s| - 1 - n] == s[|s| - 1];
      assert s'[n..] == s[n..|s| - 1];
      StripTrailingStopsAt(s', n);
    }
  }

  /**
   `strip()` is determined by what it promises: whenever `s` is a trimmed
   `core` padded with whitespace, `s.strip()` is that core.
   */
  lemma StripFindsCore(s: string, core: string, i: int)
    requires IsTrimmed(core) && PaddedAt(s, core, i)
    ensures Strip(s) == core
  {
    if core == [] {
      assert AllWhitespace(s) by {
        forall k | 0 <= k < |s| ensures IsWhitespace(s[k]) {
          if k < i { assert s[..i][k] == s[k]; } else { assert s[i..][k - i] == s[k]; }
        }
      }
      StripLeadingAllWhitespace(s);
    } else {
      StripFindsNonEmptyCore(s, core, i);
    }
  }

  /** `lstrip()` of nothing but whitespace is empty. */
  lemma {:induction false} StripLeadingAllWhitespace(s: string)
    requires AllWhitespace(s)
    ensures StripLeading(s) == []
    decreases |s|
  {
    if s != [] {
      assert IsWhitespace(s[0]);
      assert AllWhitespace(s[1..]) by {
        forall k | 0 <= k < |s| - 1 ensures IsWhitespace(s[1..][k]) {
          assert s[1..][k] == s[k + 1];
        }
      }
      StripLeadingAllWhitespace(s[1..]);
    }
  }

  /** The case of `StripFindsCore` where the core has a first and a last character. */
  lemma StripFindsNonEmptyCore(s: string, core: string, i: int)
    requires core != [] && IsTrimmed(core) && PaddedAt(s, core, i)
    ensures Strip(s) == core
  {
    var n := |core|;
    PaddedSlices(s, core, i);
    StripLeadingStopsAt(s, i);
    StripTrailingStopsAt(s[i..], n);
  }

  /** The slices of a padded, non-empty core that the stripping steps look at. */
  lemma PaddedSlices(s: string, core: string, i: int)
    requires core != [] && PaddedAt(s, core, i)
    ensures s[i] == core[0]
    ensures s[i..][|core|..] == s[i + |core|..]
    ensures s[i..][|core| - 1] == core[|core| - 1]
    ensures s[i..][..|core|] == core
  {
  }

  lemma ConcatAssociates(x: string, y: string, z: string)
    ensures x + y + z == x + (y + z)
  {
  }

  /** A trimmed string strips to itself. */
  lemma StripKeepsTrimmed(s: string)
    requires IsTrimmed(s)
    ensures Strip(s) == s
  {
    assert s[0..|s|] == s && s[..0] == [] && s[|s|..] == [];
    StripFindsCore(s, s, 0);
  }

  /** Whitespace added on either side makes no difference to `strip()`. */
  lemma StripIgnoresPadding(a: string, s: string, b: string)
    requires AllWhitespace(a) && AllWhitespace(b)
    ensures Strip(a + s + b) == Strip(s)
  {
    StripOfPadded(a, s, b, Strip(s), |s| - |StripLeading(s)|);
  }

  lemma StripOfPadded(a: string, s: string, b: string, core: string, j: int)
    requires AllWhitespace(a) && AllWhitespace(b) && IsTrimmed(core) && PaddedAt(s, core, j)
    ensures Strip(a + s + b) == core
  {
    PaddingExtends(a, s, b, core, j);
    StripFindsCore(a + s + b, core, |a| + j);
  }

  /** A padded core stays padded when more whitespace goes around the whole. */
  lemma PaddingExtends(a: string, s: string, b: string, core: string, j: int)
    requires AllWhitespace(a) && AllWhitespace(b) && PaddedAt(s, core, j)
    ensures PaddedAt(a + s + b, core, |a| + j)
  {
    var t := a + s + b;
    var i := |a| + j;
    assert t[i..i + |core|] == s[j..j + |core|];
    assert t[..i] == a + s[..j];
    assert t[i + |core|..] == s[j + |core|..] + b;
    WhitespaceConcat(a, s[..j]);
    WhitespaceConcat(s[j + |core|..], b);
  }

  lemma WhitespaceConcat(x: string, y: string)
    requires AllWhitespace(x) && AllWhitespace(y)
    ensures AllWhitespace(x + y)
  {
    forall k | 0 <= k < |x + y| ensures IsWhitespace((x + y)[k]) {
      if k < |x| { assert (x + y)[k] == x[k]; } else { assert (x + y)[k] == y[k - |x|]; }
    }
  }

  /** Stripping creates no occurrence of anything. */
  lemma StripKeepsAbsence(s: string, pat: string)
    requires !Contains(s, pat)
    ensures !Contains(Strip(s), pat)
  {
    var r := Strip(s);
    var i := |s| - |StripLeading(s)|;
    SliceKeepsAbsence(s, pat, i, i + |r|);
  }

  /** Stripping only deletes characters. */
  lemma StripIsSubsequence(s: string)
    ensures IsSubsequence(Strip(s), s)
  {
    var r := Strip(s);
    var i := |s| - |StripLeading(s)|;
    SliceIsSubsequence(s, i, i + |r|);
  }
}
