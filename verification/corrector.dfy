/** `fixGrammarAndTypos` (app/page.tsx:12-54): the blank-input short-circuit,
    the word rules, then the formatting passes, and what the whole pipeline
    guarantees about its result. */
module Corrector {
  import opened Text
  import opened Shape
  import opened WordRules
  import opened Spacing

  /** Lines 39-51, in order. */
  function Format(t: string): string {
    Trim(SpaceAfterPunct(DropSpaceBeforePunct(CapitaliseSentences(CollapseSpaces(t)))))
  }

  /** `fixGrammarAndTypos`: blank input (line 13) gives the empty string;
      anything else goes through the rules of lines 17-36 and the passes of
      lines 39-51. */
  function Fix(text: string): (r: string)
    ensures IsBlank(text) ==> r == []
  {
    if Trim(text) == [] then [] else Format(ApplyRules(text, AllRules))
  }

  lemma {:induction false} ApplyRulesConcat(s: string, a: seq<Rule>, b: seq<Rule>)
    ensures ApplyRules(s, a + b) == ApplyRules(ApplyRules(s, a), b)
    decreases |a|
  {
    if |a| > 0 {
      assert (a + b)[0] == a[0] && (a + b)[1..] == a[1..] + b;
      ApplyRulesConcat(ApplyRule(s, a[0]), a[1..], b);
    } else {
      assert a + b == b;
    }
  }

  /** After lines 17-36 no lone lower-case i is left. */
  lemma WordRulesLeaveNoLoneI(s: string)
    ensures NoLoneI(ApplyRules(s, AllRules))
  {
    ApplyRulesConcat(s, TypoRules + [PronounI], ContractionRules);
    ApplyRulesConcat(s, TypoRules, [PronounI]);
    assert ApplyRules(ApplyRules(s, TypoRules), [PronounI]) == ApplyRule(ApplyRules(s, TypoRules), PronounI);
    AllRulesLeaveNoLoneI(s);
  }

  /** The formatting passes produce normalised text from any text without a
      lone i. */
  lemma FormatNormalises(t: string)
    requires NoLoneI(t)
    ensures Normalised(Format(t))
  {
    var c := CollapseSpaces(t);
    CollapseKeepsNoLoneI(t, 0);
    NoLoneIAtStart(c);
    var p := CapitaliseSentences(c);
    CapitaliseKeepsShape(c);
    var d := DropSpaceBeforePunct(p);
    DropKeepsDoubleSpaceFree(p, 0);
    DropKeepsPlainSpaces(p, 0);
    DropKeepsNoLoneI(p, 0);
    NoLoneIAtStart(d);
    var q := SpaceAfterPunct(d);
    SpaceAfterPunctKeepsSpacing(d, 0, DoubleSpace);
    SpaceAfterPunctKeepsSpacing(d, 0, SpaceBeforePunct);
    SpaceAfterPunctKeepsPlainSpaces(d, 0);
    SpaceAfterPunctKeepsNoLoneI(d, 0);
    NoLoneIAtStart(q);
    TrimKeepsShape(q);
  }

  /** The result has no leading or trailing whitespace, only single U+0020
      spaces, no whitespace before and no letter right after `,.!?;:`, and no
      lone lower-case i. */
  lemma FixNormalises(text: string)
    ensures Normalised(Fix(text))
  {
    if Trim(text) != [] {
      WordRulesLeaveNoLoneI(text);
      FormatNormalises(ApplyRules(text, AllRules));
    }
  }

  /** The formatting passes only touch whitespace and the case of letters. */
  lemma FormatKeepsWords(t: string)
    ensures LowerAll(Visible(Format(t))) == LowerAll(Visible(t))
  {
    var c := CollapseSpaces(t);
    CollapseKeepsVisible(t, 0);
    assert t[0..] == t;
    var p := CapitaliseSentences(c);
    CapitaliseKeepsVisibleUpToCase(c);
    var d := DropSpaceBeforePunct(p);
    DropKeepsVisible(p, 0);
    assert p[0..] == p;
    var q := SpaceAfterPunct(d);
    SpaceAfterPunctKeepsVisible(d, 0);
    assert d[0..] == d;
    TrimKeepsVisible(q);
  }

  /** The blank check of line 13 changes no result: on blank text the rules
      find nothing and the passes leave nothing. */
  lemma BlankCheckIsShortcut(text: string)
    requires IsBlank(text)
    ensures ApplyRules(text, AllRules) == text
    ensures Format(ApplyRules(text, AllRules)) == Fix(text)
  {
    AllRulesStartWithWordChars();
    RulesIdleWithoutWordChars(text, AllRules);
    FormatKeepsWords(text);
    VisibleEmptyIffBlank(text);
    VisibleEmptyIffBlank(Format(text));
  }

  /** Apart from whitespace and the case of letters, the result is exactly
      what the word rules make of the input. */
  lemma FixKeepsWords(text: string)
    ensures LowerAll(Visible(Fix(text))) == LowerAll(Visible(ApplyRules(text, AllRules)))
  {
    var t := ApplyRules(text, AllRules);
    if Trim(text) == [] {
      BlankCheckIsShortcut(text);
      assert Fix(text) == Format(t);
    } else {
      assert Fix(text) == Format(t);
    }
    FormatKeepsWords(t);
  }

  /** The result is empty exactly when the input is blank. */
  lemma FixEmptyIffBlank(text: string)
    ensures Fix(text) == [] <==> IsBlank(text)
  {
    if !IsBlank(text) {
      VisibleEmptyIffBlank(text);
      AllRulesStartWithWordChars();
      RulesKeepSomethingVisible(text, AllRules);
      FixKeepsWords(text);
    }
  }

  /** Normalised text with no lower-case letter to capitalise is a fixed point
      of the formatting passes. */
  lemma FormatKeepsFinishedText(t: string)
    requires Normalised(t)
    requires forall k :: 0 <= k < |t| ==> !SentenceStartAt(t, k)
    ensures Format(t) == t
  {
    CollapseFixesNormalText(t, 0);
    assert CapitaliseSentences(t) == t;
    DropFixesCleanText(t, 0);
    SpaceAfterPunctFixesCleanText(t, 0);
    TrimFixesTrimmedText(t);
  }
}
