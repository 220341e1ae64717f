/** The formatting tail of `fixGrammarAndTypos` (app/page.tsx:38-51): four
    global replace calls and a trim. Each replace is a scan over `s[i..]` that
    reads the original string `s` (for context such as the start of the string)
    and resumes after the end of every match. */
module Spacing {
  import opened Text
  import opened Shape

  // ---------------------------------------------------------------------------
  // Line 39: every whitespace run becomes a single space.

  function CollapseFrom(s: string, i: nat): (r: string)
    requires i <= |s|
    ensures i < |s| ==> |r| > 0 && (IsSpace(r[0]) <==> IsSpace(s[i]))
    ensures OnlyPlainSpaces(r)
    ensures Avoids(DoubleSpace, r)
    decreases |s| - i
  {
    if i == |s| then []
    else if IsSpace(s[i]) then
      var rest := CollapseFrom(s, SpaceRunEnd(s, i));
      AvoidsJoin(DoubleSpace, [' '], rest);
      PlainSpacesJoin([' '], rest);
      [' '] + rest
    else
      var rest := CollapseFrom(s, i + 1);
      AvoidsJoin(DoubleSpace, [s[i]], rest);
      PlainSpacesJoin([s[i]], rest);
      [s[i]] + rest
  }

  /** Every whitespace run becomes one U+0020. */
  function CollapseSpaces(s: string): (r: string)
    ensures OnlyPlainSpaces(r) && Avoids(DoubleSpace, r)
    ensures |r| == 0 <==> |s| == 0
  {
    CollapseFrom(s, 0)
  }

  /** Collapsing never adds, drops or reorders a visible character. */
  lemma {:induction false} CollapseKeepsVisible(s: string, i: nat)
    requires i <= |s|
    ensures Visible(CollapseFrom(s, i)) == Visible(s[i..])
    decreases |s| - i
  {
    if i < |s| {
      if IsSpace(s[i]) {
        var j := SpaceRunEnd(s, i);
        CollapseKeepsVisible(s, j);
        assert s[i..] == s[i..j] + s[j..];
        VisibleAppend(s[i..j], s[j..]);
        VisibleOfBlank(s[i..j]);
        VisibleAppend([' '], CollapseFrom(s, j));
      } else {
        CollapseKeepsVisible(s, i + 1);
        assert s[i..] == [s[i]] + s[i + 1..];
        VisibleAppend([s[i]], s[i + 1..]);
        VisibleAppend([s[i]], CollapseFrom(s, i + 1));
      }
    }
  }

  /** Text already made of single U+0020 separators is left alone. */
  lemma {:induction false} CollapseFixesNormalText(s: string, i: nat)
    requires OnlyPlainSpaces(s) && Avoids(DoubleSpace, s) && i <= |s|
    ensures CollapseFrom(s, i) == s[i..]
    decreases |s| - i
  {
    if i < |s| {
      if IsSpace(s[i]) {
        if i + 1 < |s| {
          assert !Clash(DoubleSpace, s[i], s[i + 1]);
        }
        assert SpaceRunEnd(s, i) == i + 1;
      }
      CollapseFixesNormalText(s, i + 1);
      assert s[i..] == [s[i]] + s[i + 1..];
    }
  }

  /** Collapsing whitespace cannot create a lone i. */
  lemma {:induction false} CollapseKeepsNoLoneI(s: string, i: nat)
    requires NoLoneI(s) && i <= |s|
    ensures NoLoneIAfter(0 < i && IsWordChar(s[i - 1]), CollapseFrom(s, i))
    decreases |s| - i
  {
    var prev := 0 < i && IsWordChar(s[i - 1]);
    if i < |s| {
      if IsSpace(s[i]) {
        var j := SpaceRunEnd(s, i);
        CollapseKeepsNoLoneI(s, j);
        NoLoneIJoinChar(prev, ' ', CollapseFrom(s, j));
      } else {
        CollapseKeepsNoLoneI(s, i + 1);
        assert !IsLoneIAt(s, i);
        NoLoneIJoinChar(prev, s[i], CollapseFrom(s, i + 1));
      }
    }
  }

  /** Where the scan of line 39 resumes after position `i`: past the
      whitespace run, or at the next character. */
  function CollapseNext(s: string, i: nat): (k: nat)
    requires i < |s|
    ensures i < k <= |s|
  {
    if IsSpace(s[i]) then SpaceRunEnd(s, i) else i + 1
  }

  /** What the scan of line 39 emits at position `i`. */
  function CollapseHead(s: string, i: nat): string
    requires i < |s|
  {
    if IsSpace(s[i]) then " " else [s[i]]
  }

  lemma CollapseSplit(s: string, i: nat)
    requires i < |s|
    ensures CollapseFrom(s, i) == CollapseHead(s, i) + CollapseFrom(s, CollapseNext(s, i))
  {
  }

  /** The scan of `x + y` from inside `y` is the scan of `y`. */
  lemma {:induction false} CollapseShift(x: string, y: string, j: nat)
    requires j <= |y|
    ensures CollapseFrom(x + y, |x| + j) == CollapseFrom(y, j)
    decreases |y| - j
  {
    if j < |y| {
      CollapseShift(x, y, CollapseNext(y, j));
      CollapseShiftStep(x, y, j);
    }
  }

  lemma CollapseShiftStep(x: string, y: string, j: nat)
    requires j < |y|
    requires CollapseFrom(x + y, |x| + CollapseNext(y, j)) == CollapseFrom(y, CollapseNext(y, j))
    ensures CollapseFrom(x + y, |x| + j) == CollapseFrom(y, j)
  {
    CollapseSplit(x + y, |x| + j);
    CollapseSplit(y, j);
    assert (x + y)[|x| + j] == y[j];
    if IsSpace(y[j]) {
      SpaceRunEndShift(x, y, j);
    }
  }

  /** `x` and `y` do not meet inside a whitespace run. */
  predicate SplitsOutsideRun(x: string, y: string) {
    |x| == 0 || |y| == 0 || !IsSpace(x[|x| - 1]) || !IsSpace(y[0])
  }

  /** The scan of `x + y` from inside `x` is the scan of `x` followed by the
      scan of `y`. */
  lemma {:induction false} CollapsePrefix(x: string, y: string, i: nat)
    requires SplitsOutsideRun(x, y) && i <= |x|
    ensures CollapseFrom(x + y, i) == CollapseFrom(x, i) + CollapseFrom(y, 0)
    decreases |x| - i
  {
    if i == |x| {
      CollapseShift(x, y, 0);
    } else {
      CollapsePrefix(x, y, CollapseNext(x, i));
      CollapsePrefixStep(x, y, i);
    }
  }

  lemma CollapsePrefixStep(x: string, y: string, i: nat)
    requires SplitsOutsideRun(x, y) && i < |x|
    requires CollapseFrom(x + y, CollapseNext(x, i)) == CollapseFrom(x, CollapseNext(x, i)) + CollapseFrom(y, 0)
    ensures CollapseFrom(x + y, i) == CollapseFrom(x, i) + CollapseFrom(y, 0)
  {
    CollapseSplit(x + y, i);
    CollapseSplit(x, i);
    CollapseNextPrefix(x, y, i);
    Regroup(CollapseHead(x, i), CollapseFrom(x, CollapseNext(x, i)), CollapseFrom(y, 0));
  }

  /** Inside `x`, the scan of `x + y` emits what the scan of `x` emits and
      resumes where it resumes. */
  lemma CollapseNextPrefix(x: string, y: string, i: nat)
    requires SplitsOutsideRun(x, y) && i < |x|
    ensures CollapseHead(x + y, i) == CollapseHead(x, i)
    ensures CollapseNext(x + y, i) == CollapseNext(x, i)
  {
    assert (x + y)[i] == x[i];
    if IsSpace(x[i]) {
      var j := SpaceRunEnd(x, i);
      if j < |x| {
        SpaceRunEndPrefix(x, y, i);
      } else {
        assert IsSpace(x[|x| - 1]);
        SpaceRunEndThrough(x, y, i);
        if 0 < |y| {
          assert !IsSpace(y[0]);
        }
      }
    }
  }

  /** Text split outside a whitespace run is collapsed piece by piece. */
  lemma CollapseAppend(x: string, y: string)
    requires SplitsOutsideRun(x, y)
    ensures CollapseSpaces(x + y) == CollapseSpaces(x) + CollapseSpaces(y)
  {
    CollapsePrefix(x, y, 0);
  }

  /** A non-empty whitespace run on its own becomes one U+0020. */
  lemma CollapseBlank(w: string)
    requires |w| > 0 && IsBlank(w)
    ensures CollapseSpaces(w) == " "
  {
    CollapseSplit(w, 0);
    assert SpaceRunEnd(w, 0) == |w|;
  }

  /** Line 39 replaces each whitespace run, wherever it stands, by exactly
      one U+0020, and collapses the text on either side independently. */
  lemma CollapseJoinsRun(x: string, w: string, y: string)
    requires |w| > 0 && IsBlank(w)
    requires |x| == 0 || !IsSpace(x[|x| - 1])
    requires |y| == 0 || !IsSpace(y[0])
    ensures CollapseSpaces(x + w + y) == CollapseSpaces(x) + " " + CollapseSpaces(y)
  {
    CollapseAppend(w, y);
    CollapseAppend(x, w + y);
    CollapseBlank(w);
    assert x + w + y == x + (w + y);
    Regroup(CollapseSpaces(x), " ", CollapseSpaces(y));
  }

  // ---------------------------------------------------------------------------
  // Line 42: a lower-case letter at the start of the text or after a full
  // stop and a space is upper-cased.

  /** The `\. ([a-z])` alternative matches at position `q`. */
  predicate PeriodSpaceLowerAt(s: string, q: nat) {
    q + 2 < |s| && s[q] == '.' && s[q + 1] == ' ' && IsLower(s[q + 2])
  }

  /** Position `p` holds a lower-case letter at the start of the string or
      right after ". ": exactly the letters line 42 capitalises. */
  predicate SentenceStartAt(s: string, p: nat)
    requires p < |s|
  {
    IsLower(s[p]) && (p == 0 || (p >= 2 && s[p - 2] == '.' && s[p - 1] == ' '))
  }

  /** What line 42 leaves at position `p`. */
  function CapitalisedAt(s: string, p: nat): char
    requires p < |s|
  {
    if SentenceStartAt(s, p) then ToUpper(s[p]) else s[p]
  }

  /** A scan position the scan can reach: no match begins one or two
      characters before it. */
  predicate ScanAligned(s: string, i: nat) {
    i == 0 || (!(i >= 2 && PeriodSpaceLowerAt(s, i - 2)) && !PeriodSpaceLowerAt(s, i - 1))
  }

  function CapitaliseFrom(s: string, i: nat): (r: string)
    requires i <= |s|
    ensures |r| == |s| - i
    ensures ScanAligned(s, i) ==> forall k :: 0 <= k < |r| ==> r[k] == CapitalisedAt(s, i + k)
    decreases |s| - i
  {
    if i == |s| then []
    else if i == 0 && IsLower(s[0]) then
      [ToUpper(s[0])] + CapitaliseFrom(s, 1)
    else if PeriodSpaceLowerAt(s, i) then
      ['.', ' ', ToUpper(s[i + 2])] + CapitaliseFrom(s, i + 3)
    else
      [s[i]] + CapitaliseFrom(s, i + 1)
  }

  /** Line 42, by position: the letter at the start of the string and every
      lower-case letter after ". " become upper case; nothing else changes. */
  function CapitaliseSentences(s: string): (r: string)
    ensures |r| == |s|
    ensures forall k :: 0 <= k < |s| ==> r[k] == CapitalisedAt(s, k)
  {
    CapitaliseFrom(s, 0)
  }

  lemma CapitalisedAtKeepsClasses(s: string, p: nat)
    requires p < |s|
    ensures IsSpace(CapitalisedAt(s, p)) <==> IsSpace(s[p])
    ensures IsSpace(s[p]) ==> CapitalisedAt(s, p) == s[p]
    ensures IsPunct(CapitalisedAt(s, p)) <==> IsPunct(s[p])
    ensures IsLetter(CapitalisedAt(s, p)) <==> IsLetter(s[p])
    ensures IsWordChar(CapitalisedAt(s, p)) <==> IsWordChar(s[p])
    ensures ToLower(CapitalisedAt(s, p)) == ToLower(s[p])
    ensures CapitalisedAt(s, p) == 'i' ==> s[p] == 'i'
  {
    FoldUndoesUpper(s[p]);
  }

  /** Capitalisation keeps every spacing property and every lone-i-free text. */
  lemma CapitaliseKeepsShape(s: string)
    ensures forall kind :: Avoids(kind, s) ==> Avoids(kind, CapitaliseSentences(s))
    ensures OnlyPlainSpaces(s) ==> OnlyPlainSpaces(CapitaliseSentences(s))
    ensures NoLoneI(s) ==> NoLoneI(CapitaliseSentences(s))
  {
    var r := CapitaliseSentences(s);
    forall p | 0 <= p < |s|
      ensures IsSpace(r[p]) <==> IsSpace(s[p])
      ensures IsSpace(s[p]) ==> r[p] == s[p]
      ensures IsPunct(r[p]) <==> IsPunct(s[p])
      ensures IsLetter(r[p]) <==> IsLetter(s[p])
      ensures IsWordChar(r[p]) <==> IsWordChar(s[p])
      ensures r[p] == 'i' ==> s[p] == 'i'
    {
      CapitalisedAtKeepsClasses(s, p);
    }
    forall kind | Avoids(kind, s)
      ensures Avoids(kind, r)
    {
      forall k | 0 < k < |r|
        ensures !Clash(kind, r[k - 1], r[k])
      {
        assert !Clash(kind, s[k - 1], s[k]);
      }
    }
    if NoLoneI(s) {
      forall k | 0 <= k < |r|
        ensures !IsLoneIAt(r, k)
      {
        assert !IsLoneIAt(s, k);
        if k + 1 < |r| {
          assert IsWordChar(r[k + 1]) == IsWordChar(s[k + 1]);
        }
      }
    }
  }

  /** Visible characters agree position by position up to case. */
  lemma {:induction false} SameClassesSameVisible(a: string, b: string)
    requires |a| == |b|
    requires forall k :: 0 <= k < |a| ==> (IsSpace(a[k]) <==> IsSpace(b[k])) && ToLower(a[k]) == ToLower(b[k])
    ensures LowerAll(Visible(a)) == LowerAll(Visible(b))
    decreases |a|
  {
    if |a| > 0 {
      SameClassesSameVisible(a[1..], b[1..]);
      if !IsSpace(a[0]) {
        assert LowerAll([a[0]] + Visible(a[1..])) == [ToLower(a[0])] + LowerAll(Visible(a[1..]));
        assert LowerAll([b[0]] + Visible(b[1..])) == [ToLower(b[0])] + LowerAll(Visible(b[1..]));
      }
    }
  }

  /** Capitalisation only changes the case of visible characters. */
  lemma CapitaliseKeepsVisibleUpToCase(s: string)
    ensures LowerAll(Visible(CapitaliseSentences(s))) == LowerAll(Visible(s))
  {
    var r := CapitaliseSentences(s);
    forall k | 0 <= k < |r|
      ensures (IsSpace(r[k]) <==> IsSpace(s[k])) && ToLower(r[k]) == ToLower(s[k])
    {
      CapitalisedAtKeepsClasses(s, k);
    }
    SameClassesSameVisible(r, s);
  }

  // ---------------------------------------------------------------------------
  // Line 45: a whitespace run directly before punctuation is removed.

  /** The pattern of line 45 matches at `i`: a whitespace run starting at `i`
      ends right before a punctuation mark. */
  predicate PunctAfterSpaces(s: string, i: nat)
    requires i <= |s|
  {
    var j := SpaceRunEnd(s, i);
    j > i && j < |s| && IsPunct(s[j])
  }

  function DropSpaceFrom(s: string, i: nat): (r: string)
    requires i <= |s|
    ensures i < |s| ==> |r| > 0
    ensures i < |s| && !IsSpace(s[i]) ==> r[0] == s[i]
    ensures i < |s| && IsSpace(r[0]) ==> IsSpace(s[i])
    ensures i < |s| && IsSpace(s[i]) ==> IsSpace(r[0]) || IsPunct(r[0])
    ensures i < |s| && IsPunct(r[0]) ==> IsPunct(s[i]) || PunctAfterSpaces(s, i)
    decreases |s| - i
  {
    if i == |s| then []
    else if PunctAfterSpaces(s, i) then [s[SpaceRunEnd(s, i)]] + DropSpaceFrom(s, SpaceRunEnd(s, i) + 1)
    else [s[i]] + DropSpaceFrom(s, i + 1)
  }

  /** Whitespace directly before punctuation is deleted. */
  function DropSpaceBeforePunct(s: string): (r: string)
    ensures Avoids(SpaceBeforePunct, r)
  {
    DropSpaceSeparates(s, 0);
    DropSpaceFrom(s, 0)
  }

  /** The scan leaves no whitespace directly before punctuation. */
  lemma {:induction false} DropSpaceSeparates(s: string, i: nat)
    requires i <= |s|
    ensures Avoids(SpaceBeforePunct, DropSpaceFrom(s, i))
    decreases |s| - i
  {
    if i < |s| {
      var rest := DropSpaceFrom(s, DropNext(s, i));
      DropSpaceSeparates(s, DropNext(s, i));
      DropSplit(s, i);
      if DropNext(s, i) < |s| {
        DropSeparatesStep(s, i);
      }
      AvoidsJoin(SpaceBeforePunct, [DropHead(s, i)], rest);
    }
  }

  /** The character emitted at `i` never makes whitespace before the
      punctuation that the scan emits next. */
  lemma DropSeparatesStep(s: string, i: nat)
    requires i < |s| && DropNext(s, i) < |s|
    ensures !Clash(SpaceBeforePunct, DropHead(s, i), DropSpaceFrom(s, DropNext(s, i))[0])
  {
    // Whitespace is copied only when its run does not end at punctuation,
    // and the run from the next character is the rest of the same run.
    if IsSpace(s[i]) {
      assert SpaceRunEnd(s, i) == SpaceRunEnd(s, i + 1);
    }
  }

  lemma {:induction false} DropKeepsDoubleSpaceFree(s: string, i: nat)
    requires Avoids(DoubleSpace, s) && i <= |s|
    ensures Avoids(DoubleSpace, DropSpaceFrom(s, i))
    decreases |s| - i
  {
    if i < |s| {
      if PunctAfterSpaces(s, i) {
        var j := SpaceRunEnd(s, i);
        DropKeepsDoubleSpaceFree(s, j + 1);
        AvoidsJoin(DoubleSpace, [s[j]], DropSpaceFrom(s, j + 1));
      } else {
        DropKeepsDoubleSpaceFree(s, i + 1);
        if i + 1 < |s| {
          assert !Clash(DoubleSpace, s[i], s[i + 1]);
        }
        AvoidsJoin(DoubleSpace, [s[i]], DropSpaceFrom(s, i + 1));
      }
    }
  }

  lemma {:induction false} DropKeepsPlainSpaces(s: string, i: nat)
    requires OnlyPlainSpaces(s) && i <= |s|
    ensures OnlyPlainSpaces(DropSpaceFrom(s, i))
    decreases |s| - i
  {
    if i < |s| {
      DropKeepsPlainSpaces(s, DropNext(s, i));
      DropSplit(s, i);
      PlainSpacesJoin([DropHead(s, i)], DropSpaceFrom(s, DropNext(s, i)));
    }
  }

  lemma {:induction false} DropKeepsNoLoneI(s: string, i: nat)
    requires NoLoneI(s) && i <= |s|
    ensures NoLoneIAfter(0 < i && IsWordChar(s[i - 1]), DropSpaceFrom(s, i))
    decreases |s| - i
  {
    if i < |s| {
      DropKeepsNoLoneI(s, DropNext(s, i));
      DropNoLoneIStep(s, i);
    }
  }

  /** One step of `DropKeepsNoLoneI`, given the claim for the next scan
      position. */
  lemma DropNoLoneIStep(s: string, i: nat)
    requires NoLoneI(s) && i < |s|
    requires NoLoneIAfter(0 < DropNext(s, i) && IsWordChar(s[DropNext(s, i) - 1]), DropSpaceFrom(s, DropNext(s, i)))
    ensures NoLoneIAfter(0 < i && IsWordChar(s[i - 1]), DropSpaceFrom(s, i))
  {
    if PunctAfterSpaces(s, i) {
      DropNoLoneIAtMatch(s, i);
    } else {
      DropNoLoneIAtCopy(s, i);
    }
  }

  lemma DropNoLoneIAtMatch(s: string, i: nat)
    requires i < |s| && PunctAfterSpaces(s, i)
    requires NoLoneIAfter(IsWordChar(s[SpaceRunEnd(s, i)]), DropSpaceFrom(s, SpaceRunEnd(s, i) + 1))
    ensures NoLoneIAfter(0 < i && IsWordChar(s[i - 1]), DropSpaceFrom(s, i))
  {
    var j := SpaceRunEnd(s, i);
    assert DropSpaceFrom(s, i) == [s[j]] + DropSpaceFrom(s, j + 1);
    NoLoneIJoinChar(0 < i && IsWordChar(s[i - 1]), s[j], DropSpaceFrom(s, j + 1));
  }

  lemma DropNoLoneIAtCopy(s: string, i: nat)
    requires NoLoneI(s) && i < |s| && !PunctAfterSpaces(s, i)
    requires NoLoneIAfter(IsWordChar(s[i]), DropSpaceFrom(s, i + 1))
    ensures NoLoneIAfter(0 < i && IsWordChar(s[i - 1]), DropSpaceFrom(s, i))
  {
    var prev := 0 < i && IsWordChar(s[i - 1]);
    var rest := DropSpaceFrom(s, i + 1);
    assert DropSpaceFrom(s, i) == [s[i]] + rest;
    if s[i] == 'i' && !prev {
      assert !IsLoneIAt(s, i);
      assert i + 1 < |s| && IsWordChar(s[i + 1]);
      assert rest[0] == s[i + 1];
    }
    NoLoneIJoinChar(prev, s[i], rest);
  }

  lemma VisibleSliceSplit(s: string, i: nat, k: nat)
    requires i <= k <= |s|
    ensures Visible(s[i..]) == Visible(s[i..k]) + Visible(s[k..])
  {
    assert s[i..] == s[i..k] + s[k..];
    VisibleAppend(s[i..k], s[k..]);
  }

  /** A whitespace run `s[i..j]` contributes nothing visible. */
  lemma VisibleSkipsRun(s: string, i: nat, j: nat)
    requires i <= j < |s| && IsBlank(s[i..j])
    ensures Visible(s[i..]) == Visible([s[j]]) + Visible(s[j + 1..])
  {
    assert s[i..] == s[i..j] + ([s[j]] + s[j + 1..]);
    VisibleAppend(s[i..j], [s[j]] + s[j + 1..]);
    VisibleOfBlank(s[i..j]);
    VisibleAppend([s[j]], s[j + 1..]);
  }

  /** Only whitespace is deleted. */
  lemma {:induction false} DropKeepsVisible(s: string, i: nat)
    requires i <= |s|
    ensures Visible(DropSpaceFrom(s, i)) == Visible(s[i..])
    decreases |s| - i
  {
    if i < |s| {
      DropKeepsVisible(s, DropNext(s, i));
      DropVisibleStep(s, i);
    }
  }

  /** Where the scan of line 45 resumes after position `i`: past the
      punctuation mark of a match, or at the next character. */
  function DropNext(s: string, i: nat): (k: nat)
    requires i < |s|
    ensures i < k <= |s|
  {
    if PunctAfterSpaces(s, i) then SpaceRunEnd(s, i) + 1 else i + 1
  }

  /** The character the scan of line 45 emits at position `i`: the
      punctuation mark of a match, or the current character. */
  function DropHead(s: string, i: nat): (c: char)
    requires i < |s|
    ensures c in s
  {
    if PunctAfterSpaces(s, i) then s[SpaceRunEnd(s, i)] else s[i]
  }

  lemma DropSplit(s: string, i: nat)
    requires i < |s|
    ensures DropSpaceFrom(s, i) == [DropHead(s, i)] + DropSpaceFrom(s, DropNext(s, i))
  {
  }

  /** One step of `DropKeepsVisible`, given the claim for the next scan
      position. */
  lemma DropVisibleStep(s: string, i: nat)
    requires i < |s|
    requires Visible(DropSpaceFrom(s, DropNext(s, i))) == Visible(s[DropNext(s, i)..])
    ensures Visible(DropSpaceFrom(s, i)) == Visible(s[i..])
  {
    if PunctAfterSpaces(s, i) {
      DropVisibleAtMatch(s, i);
    } else {
      DropVisibleAtCopy(s, i);
    }
  }

  lemma DropVisibleAtMatch(s: string, i: nat)
    requires i < |s| && PunctAfterSpaces(s, i)
    requires Visible(DropSpaceFrom(s, SpaceRunEnd(s, i) + 1)) == Visible(s[SpaceRunEnd(s, i) + 1..])
    ensures Visible(DropSpaceFrom(s, i)) == Visible(s[i..])
  {
    var j := SpaceRunEnd(s, i);
    var rest := DropSpaceFrom(s, j + 1);
    DropStep(s, i);
    SpaceRunIsBlank(s, i);
    VisibleSkipsRun(s, i, j);
    VisibleAppend([s[j]], rest);
  }

  /** The run `SpaceRunEnd` skips is whitespace. */
  lemma SpaceRunIsBlank(s: string, i: nat)
    requires i <= |s|
    ensures IsBlank(s[i..SpaceRunEnd(s, i)])
  {
    var j := SpaceRunEnd(s, i);
    forall k | 0 <= k < j - i
      ensures IsSpace(s[i..j][k])
    {
      assert s[i..j][k] == s[i + k];
    }
  }

  /** One step of the scan of line 45: a match keeps only its punctuation
      mark, anything else keeps the current character. */
  lemma DropStep(s: string, i: nat)
    requires i < |s|
    ensures PunctAfterSpaces(s, i) ==>
      DropSpaceFrom(s, i) == [s[SpaceRunEnd(s, i)]] + DropSpaceFrom(s, SpaceRunEnd(s, i) + 1)
    ensures !PunctAfterSpaces(s, i) ==> DropSpaceFrom(s, i) == [s[i]] + DropSpaceFrom(s, i + 1)
  {
  }

  lemma DropVisibleAtCopy(s: string, i: nat)
    requires i < |s| && !PunctAfterSpaces(s, i)
    requires Visible(DropSpaceFrom(s, i + 1)) == Visible(s[i + 1..])
    ensures Visible(DropSpaceFrom(s, i)) == Visible(s[i..])
  {
    DropStep(s, i);
    assert s[i..] == [s[i]] + s[i + 1..];
    VisibleAppend([s[i]], s[i + 1..]);
    VisibleAppend([s[i]], DropSpaceFrom(s, i + 1));
  }

  /** Where line 45 finds no match the scan copies its input, whitespace
      included: only a run that ends at punctuation is deleted. */
  lemma {:induction false} DropCopies(s: string, i: nat, j: nat)
    requires i <= j <= |s|
    requires forall k :: i <= k < j ==> !PunctAfterSpaces(s, k)
    ensures DropSpaceFrom(s, i) == s[i..j] + DropSpaceFrom(s, j)
    decreases j - i
  {
    if i < j {
      DropCopies(s, i + 1, j);
      DropCopyStep(s, i, j);
    }
  }

  lemma DropCopyStep(s: string, i: nat, j: nat)
    requires i < j <= |s| && !PunctAfterSpaces(s, i)
    requires DropSpaceFrom(s, i + 1) == s[i + 1..j] + DropSpaceFrom(s, j)
    ensures DropSpaceFrom(s, i) == s[i..j] + DropSpaceFrom(s, j)
  {
    DropSplit(s, i);
    SliceCons(s, i, j);
    Regroup([s[i]], s[i + 1..j], DropSpaceFrom(s, j));
  }

  /** The scan of `x + y` from inside `y` is the scan of `y`. */
  lemma {:induction false} DropShift(x: string, y: string, j: nat)
    requires j <= |y|
    ensures DropSpaceFrom(x + y, |x| + j) == DropSpaceFrom(y, j)
    decreases |y| - j
  {
    if j < |y| {
      DropShift(x, y, DropNext(y, j));
      DropShiftStep(x, y, j);
    }
  }

  lemma DropShiftStep(x: string, y: string, j: nat)
    requires j < |y|
    requires DropSpaceFrom(x + y, |x| + DropNext(y, j)) == DropSpaceFrom(y, DropNext(y, j))
    ensures DropSpaceFrom(x + y, |x| + j) == DropSpaceFrom(y, j)
  {
    DropSplit(x + y, |x| + j);
    DropSplit(y, j);
    DropNextShift(x, y, j);
  }

  /** Inside `y`, the scan of `x + y` takes the step the scan of `y` takes. */
  lemma DropNextShift(x: string, y: string, j: nat)
    requires j < |y|
    ensures DropHead(x + y, |x| + j) == DropHead(y, j)
    ensures DropNext(x + y, |x| + j) == |x| + DropNext(y, j)
  {
    SpaceRunEndShift(x, y, j);
    var k := SpaceRunEnd(y, j);
    assert (x + y)[|x| + j] == y[j];
    if k < |y| {
      assert (x + y)[|x| + k] == y[k];
    }
  }

  /** The scan of `x + y` from inside `x`, where `x` does not end with
      whitespace, is the scan of `x` followed by the scan of `y`. */
  lemma {:induction false} DropPrefix(x: string, y: string, i: nat)
    requires i <= |x| && (|x| == 0 || !IsSpace(x[|x| - 1]))
    ensures DropSpaceFrom(x + y, i) == DropSpaceFrom(x, i) + DropSpaceFrom(y, 0)
    decreases |x| - i
  {
    if i == |x| {
      DropShift(x, y, 0);
    } else {
      DropPrefix(x, y, DropNext(x, i));
      DropPrefixStep(x, y, i);
    }
  }

  lemma DropPrefixStep(x: string, y: string, i: nat)
    requires i < |x| && !IsSpace(x[|x| - 1])
    requires DropSpaceFrom(x + y, DropNext(x, i)) == DropSpaceFrom(x, DropNext(x, i)) + DropSpaceFrom(y, 0)
    ensures DropSpaceFrom(x + y, i) == DropSpaceFrom(x, i) + DropSpaceFrom(y, 0)
  {
    DropSplit(x + y, i);
    DropSplit(x, i);
    DropNextPrefix(x, y, i);
    Regroup([DropHead(x, i)], DropSpaceFrom(x, DropNext(x, i)), DropSpaceFrom(y, 0));
  }

  /** Inside an `x` that does not end with whitespace, every run ends inside
      `x`, so the scan of `x + y` takes the same step as the scan of `x`. */
  lemma DropNextPrefix(x: string, y: string, i: nat)
    requires i < |x| && !IsSpace(x[|x| - 1])
    ensures DropHead(x + y, i) == DropHead(x, i)
    ensures DropNext(x + y, i) == DropNext(x, i)
  {
    var j := SpaceRunEnd(x, i);
    assert j < |x|;
    SpaceRunEndPrefix(x, y, i);
    assert (x + y)[i] == x[i] && (x + y)[j] == x[j];
  }

  /** Line 45 deletes a whitespace run that ends at punctuation, wherever it
      stands, and handles the text on either side independently. */
  lemma DropRemovesRun(x: string, w: string, y: string)
    requires |w| > 0 && IsBlank(w)
    requires |x| == 0 || !IsSpace(x[|x| - 1])
    requires |y| > 0 && IsPunct(y[0])
    ensures DropSpaceBeforePunct(x + w + y) == DropSpaceBeforePunct(x) + DropSpaceBeforePunct(y)
  {
    DropPrefix(x, w + y, 0);
    DropRunThenPunct(w, y);
    assert x + w + y == x + (w + y);
  }

  /** A whitespace run followed by punctuation leaves only what the scan of
      the punctuation onwards leaves. */
  lemma DropRunThenPunct(w: string, y: string)
    requires |w| > 0 && IsBlank(w)
    requires |y| > 0 && IsPunct(y[0])
    ensures DropSpaceFrom(w + y, 0) == DropSpaceFrom(y, 0)
  {
    var s := w + y;
    assert SpaceRunEnd(w, 0) == |w|;
    SpaceRunEndThrough(w, y, 0);
    assert s[|w|] == y[0];
    DropSplit(s, 0);
    DropShift(w, y, 1);
    DropSplit(y, 0);
  }

  /** Text with no whitespace before punctuation is left alone. */
  lemma {:induction false} DropFixesCleanText(s: string, i: nat)
    requires Avoids(SpaceBeforePunct, s) && i <= |s|
    ensures DropSpaceFrom(s, i) == s[i..]
    decreases |s| - i
  {
    if i < |s| {
      var j := SpaceRunEnd(s, i);
      if j > i && j < |s| {
        assert !Clash(SpaceBeforePunct, s[j - 1], s[j]);
      }
      DropFixesCleanText(s, i + 1);
      assert s[i..] == [s[i]] + s[i + 1..];
    }
  }

  // ---------------------------------------------------------------------------
  // Line 48: a space is inserted between punctuation and a letter right
  // after it.

  /** The pattern of line 48 matches at `i`. */
  predicate PunctThenLetterAt(s: string, i: nat) {
    i + 1 < |s| && IsPunct(s[i]) && IsLetter(s[i + 1])
  }

  function SpaceAfterPunctFrom(s: string, i: nat): (r: string)
    requires i <= |s|
    ensures i < |s| ==> |r| > 0 && r[0] == s[i]
    decreases |s| - i
  {
    if i == |s| then []
    else if PunctThenLetterAt(s, i) then [s[i], ' ', s[i + 1]] + SpaceAfterPunctFrom(s, i + 2)
    else [s[i]] + SpaceAfterPunctFrom(s, i + 1)
  }

  /** A space goes between a punctuation mark and a letter that follows it. */
  function SpaceAfterPunct(s: string): (r: string)
    ensures Avoids(LetterAfterPunct, r)
  {
    SpaceAfterPunctSeparates(s, 0);
    SpaceAfterPunctFrom(s, 0)
  }

  /** The scan leaves no punctuation mark directly before a letter. */
  lemma {:induction false} SpaceAfterPunctSeparates(s: string, i: nat)
    requires i <= |s|
    ensures Avoids(LetterAfterPunct, SpaceAfterPunctFrom(s, i))
    decreases |s| - i
  {
    if i < |s| {
      var head := PunctSpaceHead(s, i);
      var rest := SpaceAfterPunctFrom(s, PunctSpaceNext(s, i));
      SpaceAfterPunctSeparates(s, PunctSpaceNext(s, i));
      SpaceAfterPunctSplit(s, i);
      if PunctThenLetterAt(s, i) {
        assert head[2] == s[i + 1];
      }
      AvoidsJoin(LetterAfterPunct, head, rest);
    }
  }

  /** Inserting a space before a letter cannot create two whitespace
      characters in a row or whitespace before punctuation. */
  lemma {:induction false} SpaceAfterPunctKeepsSpacing(s: string, i: nat, kind: Adjacency)
    requires kind != LetterAfterPunct
    requires Avoids(kind, s) && i <= |s|
    ensures Avoids(kind, SpaceAfterPunctFrom(s, i))
    decreases |s| - i
  {
    if i < |s| {
      if PunctThenLetterAt(s, i) {
        SpaceAfterPunctKeepsSpacing(s, i + 2, kind);
        AvoidsJoin(kind, [s[i], ' ', s[i + 1]], SpaceAfterPunctFrom(s, i + 2));
      } else {
        SpaceAfterPunctKeepsSpacing(s, i + 1, kind);
        if i + 1 < |s| {
          assert !Clash(kind, s[i], s[i + 1]);
        }
        AvoidsJoin(kind, [s[i]], SpaceAfterPunctFrom(s, i + 1));
      }
    }
  }

  lemma {:induction false} SpaceAfterPunctKeepsPlainSpaces(s: string, i: nat)
    requires OnlyPlainSpaces(s) && i <= |s|
    ensures OnlyPlainSpaces(SpaceAfterPunctFrom(s, i))
    decreases |s| - i
  {
    if i < |s| {
      SpaceAfterPunctKeepsPlainSpaces(s, PunctSpaceNext(s, i));
      SpaceAfterPunctSplit(s, i);
      PunctSpaceHeadPlain(s, i);
      PlainSpacesJoin(PunctSpaceHead(s, i), SpaceAfterPunctFrom(s, PunctSpaceNext(s, i)));
    }
  }

  /** What the scan of line 48 emits at position `i`. */
  function PunctSpaceHead(s: string, i: nat): string
    requires i < |s|
  {
    if PunctThenLetterAt(s, i) then [s[i], ' ', s[i + 1]] else [s[i]]
  }

  /** Where the scan of line 48 resumes after position `i`. */
  function PunctSpaceNext(s: string, i: nat): (k: nat)
    requires i < |s|
    ensures i < k <= |s|
  {
    if PunctThenLetterAt(s, i) then i + 2 else i + 1
  }

  lemma SpaceAfterPunctSplit(s: string, i: nat)
    requires i < |s|
    ensures SpaceAfterPunctFrom(s, i) == PunctSpaceHead(s, i) + SpaceAfterPunctFrom(s, PunctSpaceNext(s, i))
  {
  }

  lemma PunctSpaceHeadPlain(s: string, i: nat)
    requires OnlyPlainSpaces(s) && i < |s|
    ensures OnlyPlainSpaces(PunctSpaceHead(s, i))
  {
    if PunctThenLetterAt(s, i) {
      assert !IsSpace(s[i + 1]);
    }
  }

  lemma {:induction false} SpaceAfterPunctKeepsNoLoneI(s: string, i: nat)
    requires NoLoneI(s) && i <= |s|
    ensures NoLoneIAfter(0 < i && IsWordChar(s[i - 1]), SpaceAfterPunctFrom(s, i))
    decreases |s| - i
  {
    var prev := 0 < i && IsWordChar(s[i - 1]);
    if i < |s| {
      if PunctThenLetterAt(s, i) {
        SpaceAfterPunctKeepsNoLoneI(s, i + 2);
        var c := [s[i], ' ', s[i + 1]];
        var t := SpaceAfterPunctFrom(s, i + 2);
        assert !IsLoneIAt(s, i + 1);
        NoLoneIJoin(prev, c, IsWordChar(s[i + 1]), t);
      } else {
        SpaceAfterPunctKeepsNoLoneI(s, i + 1);
        assert !IsLoneIAt(s, i);
        NoLoneIJoinChar(prev, s[i], SpaceAfterPunctFrom(s, i + 1));
      }
    }
  }

  /** Only whitespace is inserted. */
  lemma {:induction false} SpaceAfterPunctKeepsVisible(s: string, i: nat)
    requires i <= |s|
    ensures Visible(SpaceAfterPunctFrom(s, i)) == Visible(s[i..])
    decreases |s| - i
  {
    if i < |s| {
      var k := PunctSpaceNext(s, i);
      SpaceAfterPunctKeepsVisible(s, k);
      SpaceAfterPunctSplit(s, i);
      PunctSpaceHeadVisible(s, i);
      VisibleAppend(PunctSpaceHead(s, i), SpaceAfterPunctFrom(s, k));
      VisibleSliceSplit(s, i, k);
    }
  }

  lemma PunctSpaceHeadVisible(s: string, i: nat)
    requires i < |s|
    ensures Visible(PunctSpaceHead(s, i)) == Visible(s[i..PunctSpaceNext(s, i)])
  {
    if PunctThenLetterAt(s, i) {
      assert s[i..i + 2] == [s[i], s[i + 1]];
      assert Visible([s[i], ' ', s[i + 1]]) == Visible([s[i], s[i + 1]]);
    } else {
      assert s[i..i + 1] == [s[i]];
    }
  }

  /** Where line 48 finds no match the scan copies its input. */
  lemma {:induction false} SpaceAfterPunctCopies(s: string, i: nat, j: nat)
    requires i <= j <= |s|
    requires forall k :: i <= k < j ==> !PunctThenLetterAt(s, k)
    ensures SpaceAfterPunctFrom(s, i) == s[i..j] + SpaceAfterPunctFrom(s, j)
    decreases j - i
  {
    if i < j {
      SpaceAfterPunctCopies(s, i + 1, j);
      SpaceAfterPunctCopyStep(s, i, j);
    }
  }

  lemma SpaceAfterPunctCopyStep(s: string, i: nat, j: nat)
    requires i < j <= |s| && !PunctThenLetterAt(s, i)
    requires SpaceAfterPunctFrom(s, i + 1) == s[i + 1..j] + SpaceAfterPunctFrom(s, j)
    ensures SpaceAfterPunctFrom(s, i) == s[i..j] + SpaceAfterPunctFrom(s, j)
  {
    SpaceAfterPunctSplit(s, i);
    SliceCons(s, i, j);
    Regroup([s[i]], s[i + 1..j], SpaceAfterPunctFrom(s, j));
  }

  /** Text with no letter right after punctuation is left alone. */
  lemma {:induction false} SpaceAfterPunctFixesCleanText(s: string, i: nat)
    requires Avoids(LetterAfterPunct, s) && i <= |s|
    ensures SpaceAfterPunctFrom(s, i) == s[i..]
    decreases |s| - i
  {
    if i < |s| {
      if i + 1 < |s| {
        assert !Clash(LetterAfterPunct, s[i], s[i + 1]);
      }
      SpaceAfterPunctFixesCleanText(s, i + 1);
      assert s[i..] == [s[i]] + s[i + 1..];
    }
  }

  // ---------------------------------------------------------------------------
  // Line 51: `.trim()`

  /** Trimming yields trimmed text and keeps every neighbourhood property. */
  lemma TrimKeepsShape(s: string)
    ensures IsTrimmed(Trim(s))
    ensures forall kind :: Avoids(kind, s) ==> Avoids(kind, Trim(s))
    ensures OnlyPlainSpaces(s) ==> OnlyPlainSpaces(Trim(s))
    ensures NoLoneI(s) ==> NoLoneI(Trim(s))
  {
    var a := LeadingSpaces(s);
    var b := a + |Trim(s)|;
    if 0 < a {
      assert s[..a][a - 1] == s[a - 1];
    }
    if b < |s| {
      assert s[b..][0] == s[b];
    }
    SliceKeepsShape(s, a, b);
  }

  /** Trimmed text is its own trim. */
  lemma TrimFixesTrimmedText(s: string)
    requires IsTrimmed(s)
    ensures Trim(s) == s
  {
    var a := LeadingSpaces(s);
    var r := Trim(s);
    if |s| > 0 {
      assert a == 0;
    }
  }
}
