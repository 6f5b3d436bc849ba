/**
 The post-processing the remediation agent applies to the language model's
 reply before showing it as a fix: every "```python" is removed, then every
 remaining "```", then the surrounding whitespace is stripped.

 The reply text is an input here; the call to the model that produces it is
 not part of this model.
 */
module PrGenerator {
  import opened PythonStrings

  /** A bare Markdown code fence. */
  const Fence: string := "```"

  /** The opening fence of a Python code block. */
  const PythonTag: string := "```python"

  /** The cleanup, in the order the source applies it. */
  function CleanFix(text: string): (code: string)
    ensures IsTrimmed(code)
  {
    Strip(ReplaceAll(ReplaceAll(text, PythonTag, ""), Fence, ""))
  }

  // ---------------------------------------------------------------------
  // Removing fences leaves no fence

  /**
   Removing every "```" never creates a new one: each run of backticks
   shrinks to its length modulo 3, and the characters between runs are kept,
   so two leftover runs never join.
   */
  lemma {:induction false} FenceRemovalLeavesNoFence(s: string)
    ensures !Contains(ReplaceAll(s, Fence, ""), Fence)
    decreases |s|
  {
    if |s| >= 3 {
      if s[..3] == Fence {
        FenceRemovalLeavesNoFence(s[3..]);
        assert ReplaceAll(s, Fence, "") == ReplaceAll(s[3..], Fence, "");
      } else {
        var t := ReplaceAll(s[1..], Fence, "");
        FenceRemovalLeavesNoFence(s[1..]);
        assert ReplaceAll(s, Fence, "") == [s[0]] + t;
        KeptHeadStartsNoFence(s);
        ConsKeepsAbsence(s[0], t, Fence);
      }
    }
  }

  /**
   The only fence that could be new starts at a kept first character: after
   a backtick that does not open a fence, removal keeps the next character
   or the one after it, and one of them is not a backtick.
   */
  lemma KeptHeadStartsNoFence(s: string)
    requires |s| >= 3 && s[..3] != Fence
    ensures !OccursAt([s[0]] + ReplaceAll(s[1..], Fence, ""), Fence, 0)
  {
    var t := ReplaceAll(s[1..], Fence, "");
    if s[0] == '`' {
      assert !OccursAt(s[1..], Fence, 0);
      ReplaceKeepsUnmatchedHead(s[1..], Fence, "");
      if s[1] != '`' {
        assert t[0] == s[1];
      } else {
        assert s[2] != '`';
        assert s[1..][1..] == s[2..];
        assert !OccursAt(s[2..], Fence, 0);
        ReplaceKeepsUnmatchedHead(s[2..], Fence, "");
        assert t[1] == s[2];
      }
    }
  }

  /** The cleaned fix contains no code fence at all. */
  lemma CleanFixHasNoFence(text: string)
    ensures !Contains(CleanFix(text), Fence)
  {
    var w := ReplaceAll(text, PythonTag, "");
    FenceRemovalLeavesNoFence(w);
    StripKeepsAbsence(ReplaceAll(w, Fence, ""), Fence);
  }

  /** A "```python" tag always contains a bare fence. */
  lemma TagContainsFence(s: string)
    requires Contains(s, PythonTag)
    ensures Contains(s, Fence)
  {
    var i :| 0 <= i <= |s| - |PythonTag| && OccursAt(s, PythonTag, i);
    assert s[i..i + 3] == s[i..i + 9][..3];
    assert OccursAt(s, Fence, i);
  }

  // ---------------------------------------------------------------------
  // What the cleanup leaves alone

  /** Text with no fence and no surrounding whitespace passes through unchanged. */
  lemma CleanFixKeepsCleanText(text: string)
    requires !Contains(text, Fence) && IsTrimmed(text)
    ensures CleanFix(text) == text
  {
    if Contains(text, PythonTag) {
      TagContainsFence(text);
    }
    NoOccurrenceUnchanged(text, PythonTag, "");
    NoOccurrenceUnchanged(text, Fence, "");
    StripKeepsTrimmed(text);
  }

  /** Cleaning a cleaned fix changes nothing. */
  lemma CleanFixIdempotent(text: string)
    ensures CleanFix(CleanFix(text)) == CleanFix(text)
  {
    CleanFixHasNoFence(text);
    CleanFixKeepsCleanText(CleanFix(text));
  }

  // ---------------------------------------------------------------------
  // The shape a reply is expected to have

  /** No character of `s` is a backtick. */
  predicate NoBacktick(s: string) {
    forall k :: 0 <= k < |s| ==> s[k] != '`'
  }

  /** Whitespace holds no backtick. */
  lemma WhitespaceHasNoBacktick(s: string)
    requires AllWhitespace(s)
    ensures NoBacktick(s)
  {
    forall k | 0 <= k < |s| ensures s[k] != '`' {
      assert IsWhitespace(s[k]);
    }
  }

  /** Text without a backtick holds neither a fence nor a tag. */
  lemma BacktickFreeHasNoFence(s: string)
    requires NoBacktick(s)
    ensures !Contains(s, Fence) && !Contains(s, PythonTag)
  {
    forall i | 0 <= i && i + 3 <= |s| ensures !OccursAt(s, Fence, i) {
      assert s[i..i + 3][0] == s[i];
    }
    if Contains(s, PythonTag) {
      TagContainsFence(s);
    }
  }

  /** Nothing that starts with a backtick starts inside a backtick-free lead-in. */
  lemma NothingStartsInLead(lead: string, rest: string, pat: string)
    requires NoBacktick(lead) && pat != [] && pat[0] == '`'
    ensures forall i :: 0 <= i < |lead| ==> !OccursAt(lead + rest, pat, i)
  {
    forall i | 0 <= i < |lead| ensures !OccursAt(lead + rest, pat, i) {
      assert (lead + rest)[i] == lead[i];
      if i + |pat| <= |lead + rest| {
        assert (lead + rest)[i..i + |pat|][0] == lead[i];
      }
    }
  }

  /** A window of three that holds a character other than a backtick is no fence. */
  lemma BreakInWindow(y: string, i: int, j: int)
    requires 0 <= i <= j < i + 3 && j < |y| && y[j] != '`'
    ensures !OccursAt(y, Fence, i)
  {
    if i + 3 <= |y| {
      assert y[i..i + 3][j - i] == y[j];
    }
  }

  /**
   In a block whose code holds no fence, between a backtick-free lead-in and
   a backtick-free trail, the closing fence on its own line is the only fence.
   */
  lemma OnlyClosingFence(lead: string, code: string, trail: string)
    requires NoBacktick(lead) && NoBacktick(trail) && !Contains(code, Fence)
    ensures forall i :: 0 <= i && i != |lead| + |code| + 1 ==>
      !OccursAt(lead + code + "\n" + Fence + trail, Fence, i)
  {
    var m, n := |lead|, |code|;
    var y := lead + code + "\n" + Fence + trail;
    assert |y| == m + n + 4 + |trail|;
    forall i | 0 <= i && i != m + n + 1
      ensures !OccursAt(y, Fence, i)
    {
      if i + 3 > |y| {
      } else if i < m {
        assert y[i] == lead[i];
        BreakInWindow(y, i, i);
      } else if i + 3 <= m + n {
        var w, z := y[i..i + 3], code[i - m..i - m + 3];
        assert forall k :: 0 <= k < 3 ==> w[k] == z[k];
        assert !OccursAt(code, Fence, i - m);
      } else if i <= m + n {
        // The window covers the newline before the closing fence.
        assert y[m + n] == '\n';
        BreakInWindow(y, i, m + n);
      } else {
        // The window reaches into the trail.
        var j := if i < m + n + 4 then m + n + 4 else i;
        assert y[j] == trail[j - m - n - 4];
        BreakInWindow(y, i, j);
      }
    }
  }

  /** Removing "```" from such a block deletes the closing fence and nothing else. */
  lemma ClosingFenceIsTheOnlyFence(lead: string, code: string, trail: string)
    requires NoBacktick(lead) && NoBacktick(trail) && !Contains(code, Fence)
    ensures ReplaceAll(lead + code + "\n```" + trail, Fence, "") == lead + code + "\n" + trail
  {
    var a := lead + code + "\n";
    OnlyClosingFence(lead, code, trail);
    BacktickFreeHasNoFence(trail);
    OnlyOccurrenceRemoved(a, Fence, trail);
    assert a + Fence + trail == lead + code + "\n```" + trail;
  }

  /** After the opening tag, a wrapped block followed by whitespace holds no further tag. */
  lemma WrappedBodyHasNoTag(code: string, trail: string)
    requires !Contains(code, Fence) && AllWhitespace(trail)
    ensures !Contains("\n" + code + "\n```" + trail, PythonTag)
  {
    var x := "\n" + code + "\n```" + trail;
    WhitespaceHasNoBacktick(trail);
    OnlyClosingFence("\n", code, trail);
    assert x == "\n" + code + "\n" + Fence + trail;
    forall i | 0 <= i && i + 9 <= |x|
      ensures !OccursAt(x, PythonTag, i)
    {
      if i == |code| + 2 {
        // Only the closing fence could begin a tag, and the word would
        // then have to start the trail.
        assert x[i + 3] == trail[0];
        assert x[i..i + 9][3] == x[i + 3];
      } else {
        assert !OccursAt(x, Fence, i);
        assert x[i..i + 3] == x[i..i + 9][..3];
      }
    }
  }

  /** The opening tag of a block after a whitespace lead-in is the only tag. */
  lemma OpeningTagIsTheOnlyTag(lead: string, code: string, trail: string)
    requires AllWhitespace(lead) && AllWhitespace(trail) && !Contains(code, Fence)
    ensures ReplaceAll(lead + "```python\n" + code + "\n```" + trail, PythonTag, "")
      == lead + "\n" + code + "\n```" + trail
  {
    var x := "\n" + code + "\n```" + trail;
    TagBlockShape(lead, code, trail);
    WhitespaceHasNoBacktick(lead);
    NothingStartsInLead(lead, PythonTag + x, PythonTag);
    WrappedBodyHasNoTag(code, trail);
    OnlyOccurrenceRemoved(lead, PythonTag, x);
  }

  /** How a block after a lead-in splits around its opening tag. */
  lemma TagBlockShape(lead: string, code: string, trail: string)
    ensures var x := "\n" + code + "\n```" + trail;
      && lead + "```python\n" + code + "\n```" + trail == lead + PythonTag + x
      && lead + (PythonTag + x) == lead + PythonTag + x
      && lead + x == lead + "\n" + code + "\n```" + trail
  {
  }

  /**
   A reply that is a Python code block, with any whitespace around it, yields
   the block's code with its own surrounding whitespace stripped, as long as
   the code holds no fence.
   */
  lemma CleanFixUnwrapsCodeBlock(lead: string, code: string, trail: string)
    requires AllWhitespace(lead) && AllWhitespace(trail) && !Contains(code, Fence)
    ensures CleanFix(lead + "```python\n" + code + "\n```" + trail) == Strip(code)
  {
    var text := lead + "```python\n" + code + "\n```" + trail;
    var lead' := lead + "\n";
    OpeningTagIsTheOnlyTag(lead, code, trail);
    WhitespaceConcat(lead, "\n");
    WhitespaceHasNoBacktick(lead');
    WhitespaceHasNoBacktick(trail);
    ClosingFenceIsTheOnlyFence(lead', code, trail);
    WhitespaceConcat("\n", trail);
    StripIgnoresPadding(lead', code, "\n" + trail);
    ConcatAssociates(lead' + code, "\n", trail);
  }

  /** A reply that is exactly a block around trimmed, fence-free code yields that code. */
  lemma CleanFixUnwrapsTrimmedCode(code: string)
    requires !Contains(code, Fence) && IsTrimmed(code)
    ensures CleanFix("```python\n" + code + "\n```") == code
  {
    var text := "```python\n" + code + "\n```";
    assert [] + "```python\n" + code + "\n```" + [] == text;
    CleanFixUnwrapsCodeBlock([], code, []);
    StripKeepsTrimmed(code);
  }

  /** The first step of the cleanup drops a leading "```python" tag whole. */
  lemma CleanFixStepDropsLeadingTag(rest: string)
    ensures ReplaceAll(PythonTag + rest, PythonTag, "") == ReplaceAll(rest, PythonTag, "")
  {
    var s := PythonTag + rest;
    assert s[..|PythonTag|] == PythonTag;
    assert s[|PythonTag|..] == rest;
  }

  /**
   Because the tag is removed before the bare fence, a leading "```python"
   vanishes with its word: cleaning the reply gives what cleaning the text
   after the tag gives.
   */
  lemma CleanFixDropsLeadingTag(rest: string)
    ensures CleanFix(PythonTag + rest) == CleanFix(rest)
  {
    CleanFixStepDropsLeadingTag(rest);
  }

  /** Removing the bare fence from a wrapped block keeps the tag's word. */
  lemma FenceFirstKeepsWord(code: string)
    requires !Contains(code, Fence)
    ensures ReplaceAll("```python\n" + code + "\n```", Fence, "") == "python\n" + code + "\n"
  {
    var rest := "python\n" + code + "\n```";
    assert "```python\n" + code + "\n```" == [] + Fence + rest;
    FirstOccurrenceReplaced([], Fence, "", rest);
    assert NoBacktick("python\n");
    ClosingFenceIsTheOnlyFence("python\n", code, []);
    assert rest + [] == rest;
    assert "python\n" + code + "\n" + [] == "python\n" + code + "\n";
  }

  /**
   The order of the two replacements matters: had the bare fence been
   removed first, the opening tag of a wrapped block would leave the word
   "python" in front of the code, where the source's order yields the code
   alone (`CleanFixUnwrapsCodeBlock`).
   */
  lemma FenceFirstWouldKeepTheWord(code: string)
    requires !Contains(code, Fence) && IsTrimmed(code) && code != []
    ensures Strip(ReplaceAll(ReplaceAll("```python\n" + code + "\n```", Fence, ""), PythonTag, ""))
      == "python\n" + code
  {
    var text := "```python\n" + code + "\n```";
    FenceFirstKeepsWord(code);
    FenceRemovalLeavesNoFence(text);
    var core := "python\n" + code;
    assert core[|core| - 1] == code[|code| - 1];
    StripWordLine(ReplaceAll(text, Fence, ""), core);
  }

  /** A fence-free line, once its newline is stripped, is returned as it is. */
  lemma StripWordLine(y: string, core: string)
    requires y == core + "\n" && !Contains(y, Fence) && IsTrimmed(core)
    ensures Strip(ReplaceAll(y, PythonTag, "")) == core
  {
    if Contains(y, PythonTag) {
      TagContainsFence(y);
    }
    NoOccurrenceUnchanged(y, PythonTag, "");
    assert y[0..|core|] == core && y[..0] == [] && y[|core|..] == "\n";
    StripFindsCore(y, core, 0);
  }

  // ---------------------------------------------------------------------
  // The cleanup only deletes

  /** The cleaned fix is the reply with some characters deleted, in order. */
  lemma CleanFixOnlyDeletes(text: string)
    ensures IsSubsequence(CleanFix(text), text)
  {
    var u := ReplaceAll(text, PythonTag, "");
    var v := ReplaceAll(u, Fence, "");
    RemovalIsSubsequence(text, PythonTag);
    RemovalIsSubsequence(u, Fence);
    StripIsSubsequence(v);
    SubsequenceTransitive(v, u, text);
    SubsequenceTransitive(Strip(v), v, text);
  }
}
