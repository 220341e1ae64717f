/** The word-level rewrites of `fixGrammarAndTypos` (app/page.tsx:17-36):
    each call that replaces a whole word is one `Rule`, applied by a
    left-to-right scan that, like a global regular-expression replace, resumes
    after the end of every match and never looks at its own output. */
module WordRules {
  import opened Text
  import opened Shape

  /** One replace call: the whole word to look for, what to put instead, whether
      the `i` flag is set, and the alternatives of a trailing
      `(?=\s+(alt|...))` lookahead (empty when there is none). */
  datatype Rule = Rule(word: Pattern, replacement: string, ignoreCase: bool, followedBy: seq<string>)

  /** The text of a pattern; a regular expression literal that matches the
      empty string does not occur in the table. */
  type Pattern = w: string | |w| > 0 witness "i"

  /** Every rule of the table has this shape: word and replacement begin and
      end with word characters, and every lookahead alternative begins with a
      character that is not whitespace. */
  predicate WellFormed(rule: Rule) {
    && IsWordChar(rule.word[0]) && IsWordChar(rule.word[|rule.word| - 1])
    && |rule.replacement| > 0
    && IsWordChar(rule.replacement[0]) && IsWordChar(rule.replacement[|rule.replacement| - 1])
    && forall m :: 0 <= m < |rule.followedBy| ==> |rule.followedBy[m]| > 0 && !IsSpace(rule.followedBy[m][0])
  }

  predicate CharEq(c: char, d: char, ignoreCase: bool) {
    if ignoreCase then ToLower(c) == ToLower(d) else c == d
  }

  /** `a` matches the pattern text `b` character by character. */
  predicate SameText(a: string, b: string, ignoreCase: bool)
    decreases |a|
  {
    |a| == |b| && (|a| == 0 || (CharEq(a[0], b[0], ignoreCase) && SameText(a[1..], b[1..], ignoreCase)))
  }

  lemma {:induction false} SameTextChars(a: string, b: string, ignoreCase: bool)
    requires SameText(a, b, ignoreCase)
    ensures |a| == |b|
    ensures forall j :: 0 <= j < |a| ==> CharEq(a[j], b[j], ignoreCase)
    decreases |a|
  {
    if |a| > 0 {
      SameTextChars(a[1..], b[1..], ignoreCase);
      forall j | 0 <= j < |a|
        ensures CharEq(a[j], b[j], ignoreCase)
      {
        if j > 0 {
          assert a[j] == a[1..][j - 1] && b[j] == b[1..][j - 1];
        }
      }
    }
  }

  lemma {:induction false} SameTextItself(a: string, ignoreCase: bool)
    ensures SameText(a, a, ignoreCase)
    decreases |a|
  {
    if |a| > 0 {
      SameTextItself(a[1..], ignoreCase);
    }
  }

  /** A character that matches a word character is a word character. */
  lemma CharEqWord(c: char, d: char, ignoreCase: bool)
    requires CharEq(c, d, ignoreCase) && IsWordChar(d)
    ensures IsWordChar(c)
  {
    if ignoreCase {
      FoldKeepsWordChars(c);
      FoldKeepsWordChars(d);
    }
  }

  /** The pattern text `w` occurs at position `i` of `s`. */
  predicate TextAt(s: string, i: nat, w: string, ignoreCase: bool) {
    i + |w| <= |s| && SameText(s[i..i + |w|], w, ignoreCase)
  }

  /** One of the alternatives occurs at position `j`. */
  predicate AnyTextAt(s: string, j: nat, alternatives: seq<string>, ignoreCase: bool)
    decreases |alternatives|
  {
    |alternatives| > 0
    && (TextAt(s, j, alternatives[0], ignoreCase) || AnyTextAt(s, j, alternatives[1..], ignoreCase))
  }

  /** `(?=\s+(alt|...))` at position `k`. Because no alternative begins with
      whitespace, `\s+` can only succeed by taking the whole whitespace run, and
      an alternative only has to be a prefix of what follows. */
  predicate LookaheadAt(s: string, k: nat, alternatives: seq<string>, ignoreCase: bool)
    requires k <= |s|
  {
    var j := SpaceRunEnd(s, k);
    j > k && AnyTextAt(s, j, alternatives, ignoreCase)
  }

  /** The rule's pattern matches at position `i` of `s`. */
  predicate MatchAt(s: string, i: nat, rule: Rule)
    requires i <= |s|
  {
    && i + |rule.word| <= |s|
    && IsBoundary(s, i)
    && TextAt(s, i, rule.word, rule.ignoreCase)
    && IsBoundary(s, i + |rule.word|)
    && (|rule.followedBy| == 0 || LookaheadAt(s, i + |rule.word|, rule.followedBy, rule.ignoreCase))
  }

  /** The matched text begins and ends with word characters, like the word. */
  lemma MatchedWordChars(s: string, i: nat, rule: Rule)
    requires i <= |s| && MatchAt(s, i, rule)
    ensures WellFormed(rule) ==> IsWordChar(s[i]) && IsWordChar(s[i + |rule.word| - 1])
  {
    if WellFormed(rule) {
      var n := |rule.word|;
      SameTextChars(s[i..i + n], rule.word, rule.ignoreCase);
      CharEqWord(s[i..i + n][0], rule.word[0], rule.ignoreCase);
      CharEqWord(s[i..i + n][n - 1], rule.word[n - 1], rule.ignoreCase);
    }
  }

  /** The output of the scan over `s[i..]`. */
  function RewriteFrom(s: string, i: nat, rule: Rule): (r: string)
    requires i <= |s|
    ensures WellFormed(rule) && i < |s| ==> |r| > 0 && (IsWordChar(r[0]) <==> IsWordChar(s[i]))
    decreases |s| - i
  {
    if i == |s| then []
    else if MatchAt(s, i, rule) then
      MatchedWordChars(s, i, rule);
      rule.replacement + RewriteFrom(s, i + |rule.word|, rule)
    else [s[i]] + RewriteFrom(s, i + 1, rule)
  }

  /** `s.replace(pattern, replacement)` for one rule. */
  function ApplyRule(s: string, rule: Rule): string
  {
    RewriteFrom(s, 0, rule)
  }

  /** A chain of replace calls, first rule first. */
  function ApplyRules(s: string, rules: seq<Rule>): string
    decreases |rules|
  {
    if |rules| == 0 then s else ApplyRules(ApplyRule(s, rules[0]), rules[1..])
  }

  // ---------------------------------------------------------------------------
  // The rule table of app/page.tsx:17-36, in source order.

  const Teh := Rule("teh", "the", true, [])
  const Recieve := Rule("recieve", "receive", true, [])
  const Occur := Rule("occur", "occur", true, [])
  const Accommodate := Rule("accommodate", "accommodate", true, [])
  const Seperate := Rule("seperate", "separate", true, [])
  const Definately := Rule("definately", "definitely", true, [])
  const Neccessary := Rule("neccessary", "necessary", true, [])
  const Excercise := Rule("excercise", "exercise", true, [])
  const Beginning := Rule("beginning", "beginning", true, [])
  const Committee := Rule("committee", "committee", true, [])
  const Alot := Rule("alot", "a lot", true, [])
  /** Case-sensitive, and applied to every whole word "its", possessive or not. */
  const Its := Rule("its", "it's", false, [])
  const YourBefore := Rule("your", "you're", true, ["a", "an", "the", "going", "coming", "doing"])

  /** Case-sensitive: only the lower-case pronoun. */
  const PronounI := Rule("i", "I", false, [])
  const PronounIm := Rule("i'm", "I'm", true, [])
  const PronounIll := Rule("i'll", "I'll", true, [])
  const PronounIve := Rule("i've", "I've", true, [])
  const PronounId := Rule("i'd", "I'd", true, [])

  /** Lines 17-29. */
  const TypoRules: seq<Rule> := [
    Teh, Recieve, Occur, Accommodate, Seperate, Definately, Neccessary,
    Excercise, Beginning, Committee, Alot, Its, YourBefore
  ]

  /** Lines 33-36. */
  const ContractionRules: seq<Rule> := [PronounIm, PronounIll, PronounIve, PronounId]

  /** Lines 17-36. */
  const AllRules: seq<Rule> := TypoRules + [PronounI] + ContractionRules

  lemma ContractionRulesAddNoLowerI()
    ensures forall rule :: rule in ContractionRules ==> AddsNoLowerI(rule)
  {
    assert AddsNoLowerI(PronounIm) && AddsNoLowerI(PronounIll);
    assert AddsNoLowerI(PronounIve) && AddsNoLowerI(PronounId);
  }

  // ---------------------------------------------------------------------------
  // Rules that find nothing change nothing.

  /** A scan that meets no match copies its input. */
  lemma {:induction false} NoMatchKeeps(s: string, i: nat, rule: Rule)
    requires i <= |s|
    requires forall k :: i <= k < |s| ==> !MatchAt(s, k, rule)
    ensures RewriteFrom(s, i, rule) == s[i..]
    decreases |s| - i
  {
    if i < |s| {
      NoMatchKeeps(s, i + 1, rule);
      assert s[i..] == [s[i]] + s[i + 1..];
    }
  }

  /** Leading rules of a chain that find nothing can be skipped. */
  lemma {:induction false} IdleRulesSkipped(s: string, rules: seq<Rule>, n: nat)
    requires n <= |rules|
    requires forall k :: 0 <= k < n ==> ApplyRule(s, rules[k]) == s
    ensures ApplyRules(s, rules) == ApplyRules(s, rules[n..])
    decreases n
  {
    if n > 0 {
      IdleRulesSkipped(s, rules[1..], n - 1);
      assert rules[1..][n - 1..] == rules[n..];
    }
  }

  /** A rule whose word contains the character `rule.word[m]` does nothing to
      a text in which no character matches that one. */
  lemma RuleIdleWithoutChar(s: string, rule: Rule, m: nat)
    requires m < |rule.word|
    requires forall k :: 0 <= k < |s| ==> !CharEq(s[k], rule.word[m], rule.ignoreCase)
    ensures ApplyRule(s, rule) == s
  {
    RewriteIdleWithoutChar(s, 0, rule, m);
  }

  /** The same for the scan from `i` on. */
  lemma RewriteIdleWithoutChar(s: string, i: nat, rule: Rule, m: nat)
    requires i <= |s| && m < |rule.word|
    requires forall k :: i <= k < |s| ==> !CharEq(s[k], rule.word[m], rule.ignoreCase)
    ensures RewriteFrom(s, i, rule) == s[i..]
  {
    forall k | i <= k < |s|
      ensures !MatchAt(s, k, rule)
    {
      if MatchAt(s, k, rule) {
        MatchedChar(s, k, rule, m);
      }
    }
    NoMatchKeeps(s, i, rule);
  }

  /** The same for two neighbouring characters `rule.word[m..m + 2]`. */
  lemma RuleIdleWithoutPair(s: string, rule: Rule, m: nat)
    requires m + 1 < |rule.word|
    requires forall k :: 0 <= k < |s| - 1 ==>
      !(CharEq(s[k], rule.word[m], rule.ignoreCase) && CharEq(s[k + 1], rule.word[m + 1], rule.ignoreCase))
    ensures ApplyRule(s, rule) == s
  {
    forall k | 0 <= k < |s|
      ensures !MatchAt(s, k, rule)
    {
      if MatchAt(s, k, rule) {
        MatchedChar(s, k, rule, m);
        MatchedChar(s, k, rule, m + 1);
      }
    }
    NoMatchKeeps(s, 0, rule);
  }

  /** Character `m` of a match is character `m` of the word, up to case. */
  lemma MatchedChar(s: string, i: nat, rule: Rule, m: nat)
    requires i <= |s| && MatchAt(s, i, rule) && m < |rule.word|
    ensures i + m < |s| && CharEq(s[i + m], rule.word[m], rule.ignoreCase)
  {
    var n := |rule.word|;
    SameTextChars(s[i..i + n], rule.word, rule.ignoreCase);
    assert s[i..i + n][m] == s[i + m];
  }

  // ---------------------------------------------------------------------------
  // Whole words are rewritten where they stand.

  predicate AllWordChars(w: string) {
    forall j :: 0 <= j < |w| ==> IsWordChar(w[j])
  }

  /** A rule with no lookahead whose word is made of word characters only. */
  predicate PlainWordRule(rule: Rule) {
    WellFormed(rule) && AllWordChars(rule.word) && |rule.followedBy| == 0
  }

  type PlainRule = rule: Rule | PlainWordRule(rule) witness Rule("a", "a", false, [])

  /** `x` and `y` do not meet in the middle of a word. */
  predicate SplitsAtBoundary(x: string, y: string) {
    |x| == 0 || |y| == 0 || !IsWordChar(x[|x| - 1]) || !IsWordChar(y[0])
  }

  /** No occurrence of the word runs across the end of `x`. */
  predicate NoStraddle(x: string, y: string, rule: Rule) {
    forall p: nat :: p < |x| < p + |rule.word| <= |x| + |y| ==> !TextAt(x + y, p, rule.word, rule.ignoreCase)
  }

  /** Up to the end of `x`, the lookahead sees the same in `x + y` as in
      `x`. */
  predicate LookaheadKept(x: string, y: string, rule: Rule) {
    || |rule.followedBy| == 0
    || forall k: nat :: 0 < k <= |x| ==>
         LookaheadAt(x + y, k, rule.followedBy, rule.ignoreCase) == LookaheadAt(x, k, rule.followedBy, rule.ignoreCase)
  }

  /** A split of `x + y` that no match can notice. */
  predicate CleanSplit(x: string, y: string, rule: Rule) {
    SplitsAtBoundary(x, y) && NoStraddle(x, y, rule) && LookaheadKept(x, y, rule)
  }

  /** Character `m` of an occurrence at `p` is character `m` of the word, up
      to case. */
  lemma TextAtChar(s: string, p: nat, w: string, ignoreCase: bool, m: nat)
    requires m < |w| && p + m < |s|
    ensures TextAt(s, p, w, ignoreCase) ==> CharEq(s[p + m], w[m], ignoreCase)
  {
    if TextAt(s, p, w, ignoreCase) {
      SameTextChars(s[p..p + |w|], w, ignoreCase);
      assert s[p..p + |w|][m] == s[p + m];
    }
  }

  /** Whatever matches a word made of word characters is made of word
      characters. */
  lemma SameTextWordChars(a: string, w: string, ignoreCase: bool)
    requires SameText(a, w, ignoreCase) && AllWordChars(w)
    ensures |a| == |w| && AllWordChars(a)
  {
    SameTextChars(a, w, ignoreCase);
    forall j | 0 <= j < |a|
      ensures IsWordChar(a[j])
    {
      CharEqWord(a[j], w[j], ignoreCase);
    }
  }

  lemma TextAtWordChars(s: string, p: nat, w: string, ignoreCase: bool)
    requires TextAt(s, p, w, ignoreCase) && AllWordChars(w)
    ensures forall k :: p <= k < p + |w| ==> IsWordChar(s[k])
  {
    SameTextWordChars(s[p..p + |w|], w, ignoreCase);
    forall k | p <= k < p + |w|
      ensures IsWordChar(s[k])
    {
      assert s[p..p + |w|][k - p] == s[k];
    }
  }

  /** A word made of word characters cannot run across a split between a
      non-word and a word character. */
  lemma WordCharsNoStraddle(x: string, y: string, rule: Rule)
    requires AllWordChars(rule.word) && SplitsAtBoundary(x, y)
    ensures NoStraddle(x, y, rule)
  {
    forall p: nat | p < |x| < p + |rule.word| <= |x| + |y|
      ensures !TextAt(x + y, p, rule.word, rule.ignoreCase)
    {
      assert (x + y)[|x| - 1] == x[|x| - 1] && (x + y)[|x|] == y[0];
      if TextAt(x + y, p, rule.word, rule.ignoreCase) {
        TextAtWordChars(x + y, p, rule.word, rule.ignoreCase);
      }
    }
  }

  /** A split where no word is cut is a clean split for a plain rule. */
  lemma PlainSplitClean(x: string, y: string, rule: PlainRule)
    requires SplitsAtBoundary(x, y)
    ensures CleanSplit(x, y, rule)
  {
    WordCharsNoStraddle(x, y, rule);
  }

  /** Where the scan resumes after position `i`: past the end of a match, or
      at the next character. */
  function RewriteNext(s: string, i: nat, rule: Rule): (k: nat)
    requires i < |s|
    ensures i < k <= |s|
  {
    if MatchAt(s, i, rule) then i + |rule.word| else i + 1
  }

  /** What the scan emits at position `i`. */
  function RewriteHead(s: string, i: nat, rule: Rule): string
    requires i < |s|
  {
    if MatchAt(s, i, rule) then rule.replacement else [s[i]]
  }

  /** The scan is the text emitted at `i` followed by the scan from where it
      resumes. */
  lemma RewriteSplit(s: string, i: nat, rule: Rule)
    requires i < |s|
    ensures RewriteFrom(s, i, rule) == RewriteHead(s, i, rule) + RewriteFrom(s, RewriteNext(s, i, rule), rule)
  {
  }

  /** A stretch where the pattern never matches is copied. */
  lemma {:induction false} RewriteCopies(s: string, i: nat, j: nat, rule: Rule)
    requires i <= j <= |s|
    requires forall k :: i <= k < j ==> !MatchAt(s, k, rule)
    ensures RewriteFrom(s, i, rule) == s[i..j] + RewriteFrom(s, j, rule)
    decreases j - i
  {
    if i < j {
      RewriteCopies(s, i + 1, j, rule);
      RewriteSplit(s, i, rule);
      SliceCons(s, i, j);
      Regroup([s[i]], s[i + 1..j], RewriteFrom(s, j, rule));
    }
  }

  /** Inside `y`, or at its end, `\b` in `x + y` is `\b` in `y`. */
  lemma BoundaryShift(x: string, y: string, j: nat)
    requires 0 < j <= |y|
    ensures IsBoundary(x + y, |x| + j) == IsBoundary(y, j)
  {
    assert (x + y)[|x| + j - 1] == y[j - 1];
    if j < |y| {
      assert (x + y)[|x| + j] == y[j];
    }
  }

  /** Inside `x`, `\b` in `x + y` is `\b` in `x`. */
  lemma BoundaryPrefix(x: string, y: string, i: nat)
    requires i < |x|
    ensures IsBoundary(x + y, i) == IsBoundary(x, i)
  {
    assert (x + y)[i] == x[i];
    if 0 < i {
      assert (x + y)[i - 1] == x[i - 1];
    }
  }

  lemma TextAtShift(x: string, y: string, j: nat, w: string, ignoreCase: bool)
    requires j <= |y|
    ensures TextAt(x + y, |x| + j, w, ignoreCase) == TextAt(y, j, w, ignoreCase)
  {
    if j + |w| <= |y| {
      ShiftSlice(x, y, j, j + |w|);
    }
  }

  lemma {:induction false} AnyTextAtShift(x: string, y: string, j: nat, alternatives: seq<string>, ignoreCase: bool)
    requires j <= |y|
    ensures AnyTextAt(x + y, |x| + j, alternatives, ignoreCase) == AnyTextAt(y, j, alternatives, ignoreCase)
    decreases |alternatives|
  {
    if |alternatives| > 0 {
      TextAtShift(x, y, j, alternatives[0], ignoreCase);
      AnyTextAtShift(x, y, j, alternatives[1..], ignoreCase);
    }
  }

  /** The lookahead only reads forwards: inside `y` it sees what it sees in
      `y` alone. */
  lemma LookaheadShift(x: string, y: string, k: nat, alternatives: seq<string>, ignoreCase: bool)
    requires k <= |y|
    ensures LookaheadAt(x + y, |x| + k, alternatives, ignoreCase) == LookaheadAt(y, k, alternatives, ignoreCase)
  {
    SpaceRunEndShift(x, y, k);
    AnyTextAtShift(x, y, SpaceRunEnd(y, k), alternatives, ignoreCase);
  }

  /** Every alternative of a lookahead is a non-empty run of word
      characters. */
  predicate WordAlternatives(alternatives: seq<string>) {
    forall m :: 0 <= m < |alternatives| ==> |alternatives[m]| > 0 && AllWordChars(alternatives[m])
  }

  /** Before the end of an `x` that ends with a non-word character, a word
      made of word characters occurs in `x + y` exactly where it occurs in
      `x`. */
  lemma TextAtPrefix(x: string, y: string, j: nat, w: string, ignoreCase: bool)
    requires j < |x| && !IsWordChar(x[|x| - 1])
    requires AllWordChars(w)
    ensures TextAt(x + y, j, w, ignoreCase) == TextAt(x, j, w, ignoreCase)
  {
    if j + |w| <= |x| {
      PrefixSlice(x, y, j, j + |w|);
    } else {
      assert (x + y)[|x| - 1] == x[|x| - 1];
      if TextAt(x + y, j, w, ignoreCase) {
        TextAtWordChars(x + y, j, w, ignoreCase);
      }
    }
  }

  lemma {:induction false} AnyTextAtPrefix(x: string, y: string, j: nat, alternatives: seq<string>, ignoreCase: bool)
    requires j < |x| && !IsWordChar(x[|x| - 1])
    requires WordAlternatives(alternatives)
    ensures AnyTextAt(x + y, j, alternatives, ignoreCase) == AnyTextAt(x, j, alternatives, ignoreCase)
    decreases |alternatives|
  {
    if |alternatives| > 0 {
      TextAtPrefix(x, y, j, alternatives[0], ignoreCase);
      AnyTextAtPrefix(x, y, j, alternatives[1..], ignoreCase);
    }
  }

  /** No non-empty alternative fits at the very end of a text. */
  lemma {:induction false} AnyTextAtEnd(s: string, alternatives: seq<string>, ignoreCase: bool)
    requires WordAlternatives(alternatives)
    ensures !AnyTextAt(s, |s|, alternatives, ignoreCase)
    decreases |alternatives|
  {
    if |alternatives| > 0 {
      AnyTextAtEnd(s, alternatives[1..], ignoreCase);
    }
  }

  /** Inside an `x` that ends with a non-word character, the lookahead sees
      the same in `x + y` as in `x`, provided `y` does not begin, after its
      leading whitespace, with an alternative. */
  lemma LookaheadPrefix(x: string, y: string, k: nat, alternatives: seq<string>, ignoreCase: bool)
    requires k <= |x| && 0 < |x| && !IsWordChar(x[|x| - 1])
    requires WordAlternatives(alternatives)
    requires !AnyTextAt(y, SpaceRunEnd(y, 0), alternatives, ignoreCase)
    ensures LookaheadAt(x + y, k, alternatives, ignoreCase) == LookaheadAt(x, k, alternatives, ignoreCase)
  {
    var j := SpaceRunEnd(x, k);
    if j < |x| {
      SpaceRunEndPrefix(x, y, k);
      AnyTextAtPrefix(x, y, j, alternatives, ignoreCase);
    } else {
      SpaceRunEndThrough(x, y, k);
      AnyTextAtShift(x, y, SpaceRunEnd(y, 0), alternatives, ignoreCase);
      AnyTextAtEnd(x, alternatives, ignoreCase);
    }
  }

  /** For a lookahead rule made of word characters, a split after a non-word
      character is clean unless the text after it begins, after whitespace,
      with an alternative. */
  lemma LookaheadSplitClean(x: string, y: string, rule: Rule)
    requires AllWordChars(rule.word) && WordAlternatives(rule.followedBy)
    requires |x| == 0 || !IsWordChar(x[|x| - 1])
    requires !AnyTextAt(y, SpaceRunEnd(y, 0), rule.followedBy, rule.ignoreCase)
    ensures CleanSplit(x, y, rule)
  {
    WordCharsNoStraddle(x, y, rule);
    forall k: nat | 0 < k <= |x|
      ensures LookaheadAt(x + y, k, rule.followedBy, rule.ignoreCase) == LookaheadAt(x, k, rule.followedBy, rule.ignoreCase)
    {
      LookaheadPrefix(x, y, k, rule.followedBy, rule.ignoreCase);
    }
  }

  /** A match at position `j` of `y` is a match at `|x| + j` of `x + y`, and
      the other way round. */
  lemma ShiftMatch(x: string, y: string, j: nat, rule: Rule)
    requires WellFormed(rule) && SplitsAtBoundary(x, y) && j < |y|
    ensures MatchAt(x + y, |x| + j, rule) == MatchAt(y, j, rule)
  {
    if j + |rule.word| <= |y| {
      ShiftMatchStart(x, y, j, rule);
      ShiftMatchEnd(x, y, j + |rule.word|, rule);
    }
  }

  /** The first half of `ShiftMatch`: the boundary before the word and the
      word itself. */
  lemma ShiftMatchStart(x: string, y: string, j: nat, rule: Rule)
    requires WellFormed(rule) && SplitsAtBoundary(x, y) && j + |rule.word| <= |y|
    ensures (IsBoundary(x + y, |x| + j) && TextAt(x + y, |x| + j, rule.word, rule.ignoreCase))
         == (IsBoundary(y, j) && TextAt(y, j, rule.word, rule.ignoreCase))
  {
    TextAtShift(x, y, j, rule.word, rule.ignoreCase);
    if 0 < j {
      BoundaryShift(x, y, j);
    } else if TextAt(y, 0, rule.word, rule.ignoreCase) {
      TextAtChar(y, 0, rule.word, rule.ignoreCase, 0);
      CharEqWord(y[0], rule.word[0], rule.ignoreCase);
      BoundaryAtStart(x, y);
    }
  }

  /** The second half of `ShiftMatch`: the boundary after the word and the
      lookahead. */
  lemma ShiftMatchEnd(x: string, y: string, k: nat, rule: Rule)
    requires 0 < k <= |y|
    ensures IsBoundary(x + y, |x| + k) == IsBoundary(y, k)
    ensures LookaheadAt(x + y, |x| + k, rule.followedBy, rule.ignoreCase) == LookaheadAt(y, k, rule.followedBy, rule.ignoreCase)
  {
    BoundaryShift(x, y, k);
    LookaheadShift(x, y, k, rule.followedBy, rule.ignoreCase);
  }

  lemma ShiftSlice(x: string, y: string, i: nat, j: nat)
    requires i <= j <= |y|
    ensures (x + y)[|x| + i..|x| + j] == y[i..j]
  {
  }

  lemma PrefixSlice(x: string, y: string, i: nat, j: nat)
    requires i <= j <= |x|
    ensures (x + y)[i..j] == x[i..j]
  {
  }

  /** A match at the end of `x`, alone or before `y`, ends with a word
      character. */
  lemma PrefixEndMatch(x: string, y: string, i: nat, rule: Rule)
    requires WellFormed(rule) && i < |x| && i + |rule.word| == |x|
    ensures MatchAt(x, i, rule) ==> IsWordChar(x[|x| - 1])
    ensures MatchAt(x + y, i, rule) ==> IsWordChar(x[|x| - 1])
  {
    if MatchAt(x, i, rule) {
      MatchedWordChars(x, i, rule);
    }
    if MatchAt(x + y, i, rule) {
      MatchedWordChars(x + y, i, rule);
      assert (x + y)[|x| - 1] == x[|x| - 1];
    }
  }

  /** Where `y` starts with a word character, its start is `\b` alone and
      after `x`. */
  lemma BoundaryAtStart(x: string, y: string)
    requires SplitsAtBoundary(x, y) && 0 < |y| && IsWordChar(y[0])
    ensures IsBoundary(x + y, |x|) && IsBoundary(y, 0)
  {
    assert (x + y)[|x|] == y[0];
    if 0 < |x| {
      assert (x + y)[|x| - 1] == x[|x| - 1];
    }
  }

  /** Where `x` ends with a word character, its end is `\b` alone and
      before `y`. */
  lemma BoundaryAtEnd(x: string, y: string)
    requires SplitsAtBoundary(x, y) && 0 < |x| && IsWordChar(x[|x| - 1])
    ensures IsBoundary(x + y, |x|) && IsBoundary(x, |x|)
  {
    assert (x + y)[|x| - 1] == x[|x| - 1];
    if 0 < |y| {
      assert (x + y)[|x|] == y[0];
    }
  }

  /** A match at position `i` of `x` is a match at `i` of `x + y`, and the
      other way round: across a clean split nothing changes. */
  lemma PrefixMatch(x: string, y: string, i: nat, rule: Rule)
    requires WellFormed(rule) && CleanSplit(x, y, rule) && i < |x|
    ensures MatchAt(x + y, i, rule) == MatchAt(x, i, rule)
  {
    var n := |rule.word|;
    BoundaryPrefix(x, y, i);
    if i + n <= |x| {
      PrefixSlice(x, y, i, i + n);
      if 0 < |rule.followedBy| {
        assert LookaheadAt(x + y, i + n, rule.followedBy, rule.ignoreCase)
          == LookaheadAt(x, i + n, rule.followedBy, rule.ignoreCase);
      }
      if i + n < |x| {
        BoundaryPrefix(x, y, i + n);
      } else {
        PrefixEndMatch(x, y, i, rule);
        if IsWordChar(x[|x| - 1]) {
          BoundaryAtEnd(x, y);
        }
      }
    } else {
      // An occurrence would run across the end of `x`.
      assert !TextAt(x + y, i, rule.word, rule.ignoreCase);
    }
  }

  /** The scan of `x + y` from inside `y` is the scan of `y`. */
  lemma {:induction false} RewriteShift(x: string, y: string, j: nat, rule: Rule)
    requires WellFormed(rule) && SplitsAtBoundary(x, y) && j <= |y|
    ensures RewriteFrom(x + y, |x| + j, rule) == RewriteFrom(y, j, rule)
    decreases |y| - j
  {
    if j < |y| {
      ShiftMatch(x, y, j, rule);
      RewriteShift(x, y, RewriteNext(y, j, rule), rule);
      ShiftStep(x, y, j, rule);
    }
  }

  /** One step of `RewriteShift`, given the claim for the next scan
      position. */
  lemma ShiftStep(x: string, y: string, j: nat, rule: Rule)
    requires j < |y| && MatchAt(x + y, |x| + j, rule) == MatchAt(y, j, rule)
    requires RewriteFrom(x + y, |x| + RewriteNext(y, j, rule), rule) == RewriteFrom(y, RewriteNext(y, j, rule), rule)
    ensures RewriteFrom(x + y, |x| + j, rule) == RewriteFrom(y, j, rule)
  {
    RewriteSplit(x + y, |x| + j, rule);
    RewriteSplit(y, j, rule);
    ShiftHead(x, y, j, rule);
  }

  /** Shifted by `x`, the step at `j` of `y` emits the same text and resumes
      at the shifted position. */
  lemma ShiftHead(x: string, y: string, j: nat, rule: Rule)
    requires j < |y| && MatchAt(x + y, |x| + j, rule) == MatchAt(y, j, rule)
    ensures RewriteHead(x + y, |x| + j, rule) == RewriteHead(y, j, rule)
    ensures RewriteNext(x + y, |x| + j, rule) == |x| + RewriteNext(y, j, rule)
  {
    assert (x + y)[|x| + j] == y[j];
  }

  /** The scan of `x + y` from inside `x` is the scan of `x` followed by the
      scan of `y`: it reaches the start of `y` exactly. */
  lemma {:induction false} RewritePrefix(x: string, y: string, i: nat, rule: Rule)
    requires WellFormed(rule) && CleanSplit(x, y, rule) && i <= |x|
    ensures RewriteFrom(x + y, i, rule) == RewriteFrom(x, i, rule) + RewriteFrom(y, 0, rule)
    decreases |x| - i
  {
    if i == |x| {
      RewriteShift(x, y, 0, rule);
    } else {
      PrefixMatch(x, y, i, rule);
      RewritePrefix(x, y, RewriteNext(x, i, rule), rule);
      PrefixStep(x, y, i, rule);
    }
  }

  /** One step of `RewritePrefix`, given the claim for the next scan
      position. */
  lemma PrefixStep(x: string, y: string, i: nat, rule: Rule)
    requires i < |x| && MatchAt(x + y, i, rule) == MatchAt(x, i, rule)
    requires RewriteFrom(x + y, RewriteNext(x, i, rule), rule)
      == RewriteFrom(x, RewriteNext(x, i, rule), rule) + RewriteFrom(y, 0, rule)
    ensures RewriteFrom(x + y, i, rule) == RewriteFrom(x, i, rule) + RewriteFrom(y, 0, rule)
  {
    RewriteSplit(x + y, i, rule);
    RewriteSplit(x, i, rule);
    PrefixHead(x, y, i, rule);
    Regroup(RewriteHead(x, i, rule), RewriteFrom(x, RewriteNext(x, i, rule), rule), RewriteFrom(y, 0, rule));
  }

  /** Inside `x`, the step at `i` of `x + y` is the step at `i` of `x`. */
  lemma PrefixHead(x: string, y: string, i: nat, rule: Rule)
    requires i < |x| && MatchAt(x + y, i, rule) == MatchAt(x, i, rule)
    ensures RewriteHead(x + y, i, rule) == RewriteHead(x, i, rule)
    ensures RewriteNext(x + y, i, rule) == RewriteNext(x, i, rule)
  {
    assert (x + y)[i] == x[i];
  }

  /** Across a clean split a text is rewritten piece by piece. */
  lemma ApplyRuleSplit(x: string, y: string, rule: Rule)
    requires WellFormed(rule) && CleanSplit(x, y, rule)
    ensures ApplyRule(x + y, rule) == ApplyRule(x, rule) + ApplyRule(y, rule)
  {
    RewritePrefix(x, y, 0, rule);
  }

  /** Text split where no word is cut is rewritten piece by piece by a plain
      rule. */
  lemma ApplyRuleAppend(x: string, y: string, rule: PlainRule)
    requires SplitsAtBoundary(x, y)
    ensures ApplyRule(x + y, rule) == ApplyRule(x, rule) + ApplyRule(y, rule)
  {
    PlainSplitClean(x, y, rule);
    ApplyRuleSplit(x, y, rule);
  }

  /** A text the pattern matches as a whole becomes the replacement; under the
      `i` flag that includes every case variant of the word. */
  lemma RuleOnMatchingWord(w: string, rule: Rule)
    requires WellFormed(rule) && |rule.followedBy| == 0
    requires SameText(w, rule.word, rule.ignoreCase)
    ensures ApplyRule(w, rule) == rule.replacement
  {
    var n := |rule.word|;
    SameTextChars(w, rule.word, rule.ignoreCase);
    CharEqWord(w[0], rule.word[0], rule.ignoreCase);
    CharEqWord(w[n - 1], rule.word[n - 1], rule.ignoreCase);
    assert w[0..n] == w;
    assert MatchAt(w, 0, rule);
    assert RewriteFrom(w, n, rule) == [];
    assert rule.replacement + [] == rule.replacement;
  }

  /** Once `w + b` is known to be rewritten as `mid` followed by the rewrite
      of `b`, a clean split in front of `w` gives the rewrite of the whole. */
  lemma JoinAround(a: string, w: string, b: string, rule: Rule, mid: string)
    requires WellFormed(rule) && CleanSplit(a, w + b, rule)
    requires ApplyRule(w + b, rule) == mid + ApplyRule(b, rule)
    ensures ApplyRule(a + w + b, rule) == ApplyRule(a, rule) + mid + ApplyRule(b, rule)
  {
    ApplyRuleSplit(a, w + b, rule);
    assert a + w + b == a + (w + b);
    Regroup(ApplyRule(a, rule), mid, ApplyRule(b, rule));
  }

  /** An occurrence `w` of the word of a rule without lookahead, between
      clean splits, becomes the replacement, and the text around it is
      rewritten independently. */
  lemma OccurrenceReplaced(a: string, w: string, b: string, rule: Rule)
    requires WellFormed(rule) && |rule.followedBy| == 0
    requires SameText(w, rule.word, rule.ignoreCase)
    requires CleanSplit(a, w + b, rule) && CleanSplit(w, b, rule)
    ensures ApplyRule(a + w + b, rule) == ApplyRule(a, rule) + rule.replacement + ApplyRule(b, rule)
  {
    RuleOnMatchingWord(w, rule);
    ApplyRuleSplit(w, b, rule);
    JoinAround(a, w, b, rule, rule.replacement);
  }

  /** Every whole-word occurrence `w` of the pattern, that is one with no word
      character on either side, is replaced, and the text around it is
      rewritten independently. */
  lemma WholeWordReplaced(a: string, w: string, b: string, rule: PlainRule)
    requires SameText(w, rule.word, rule.ignoreCase)
    requires |a| == 0 || !IsWordChar(a[|a| - 1])
    requires |b| == 0 || !IsWordChar(b[0])
    ensures ApplyRule(a + w + b, rule)
      == ApplyRule(a, rule) + rule.replacement + ApplyRule(b, rule)
  {
    SameTextChars(w, rule.word, rule.ignoreCase);
    CharEqWord(w[0], rule.word[0], rule.ignoreCase);
    assert (w + b)[0] == w[0];
    PlainSplitClean(a, w + b, rule);
    PlainSplitClean(w, b, rule);
    OccurrenceReplaced(a, w, b, rule);
  }

  // ---------------------------------------------------------------------------
  // The contractions of lines 33-36.

  /** The shape of the contraction patterns: a word character, an apostrophe,
      then word characters, where neither the character after the apostrophe
      nor the last one matches the first. */
  predicate ApostropheRule(rule: Rule) {
    && WellFormed(rule) && |rule.followedBy| == 0
    && |rule.word| >= 3 && rule.word[1] == '\''
    && (forall j :: 0 <= j < |rule.word| && j != 1 ==> IsWordChar(rule.word[j]))
    && !CharEq(rule.word[0], rule.word[2], rule.ignoreCase)
    && !CharEq(rule.word[0], rule.word[|rule.word| - 1], rule.ignoreCase)
  }

  lemma ContractionRulesAreApostropheRules()
    ensures forall rule :: rule in ContractionRules ==> ApostropheRule(rule)
  {
    assert ApostropheRule(PronounIm) && ApostropheRule(PronounIll);
    assert ApostropheRule(PronounIve) && ApostropheRule(PronounId);
  }

  /** In an occurrence of an apostrophe word only the second character is
      not a word character. */
  lemma ApostropheAt(s: string, p: nat, rule: Rule, k: nat)
    requires ApostropheRule(rule)
    requires p <= k < p + |rule.word| && k < |s| && !IsWordChar(s[k])
    ensures TextAt(s, p, rule.word, rule.ignoreCase) ==> k == p + 1
  {
    TextAtChar(s, p, rule.word, rule.ignoreCase, k - p);
    FoldKeepsWordChars(s[k]);
    FoldKeepsWordChars(rule.word[k - p]);
  }

  /** No occurrence runs across the end of a text that ends with a non-word
      character into an occurrence. */
  lemma ApostropheSplitBefore(a: string, t: string, rule: Rule)
    requires ApostropheRule(rule)
    requires |a| == 0 || !IsWordChar(a[|a| - 1])
    requires 0 < |t| && CharEq(t[0], rule.word[0], rule.ignoreCase)
    ensures CleanSplit(a, t, rule)
  {
    forall p: nat | p < |a| < p + |rule.word| <= |a| + |t|
      ensures !TextAt(a + t, p, rule.word, rule.ignoreCase)
    {
      assert (a + t)[|a| - 1] == a[|a| - 1] && (a + t)[|a|] == t[0];
      ApostropheAt(a + t, p, rule, |a| - 1);
      TextAtChar(a + t, p, rule.word, rule.ignoreCase, 2);
    }
  }

  /** No occurrence runs across the end of an occurrence into a text that
      starts with a non-word character. */
  lemma ApostropheSplitAfter(w: string, b: string, rule: Rule)
    requires ApostropheRule(rule) && SameText(w, rule.word, rule.ignoreCase)
    requires |b| == 0 || !IsWordChar(b[0])
    ensures CleanSplit(w, b, rule)
  {
    var n := |rule.word|;
    SameTextChars(w, rule.word, rule.ignoreCase);
    forall p: nat | p < |w| < p + n <= |w| + |b|
      ensures !TextAt(w + b, p, rule.word, rule.ignoreCase)
    {
      assert (w + b)[|w|] == b[0] && (w + b)[|w| - 1] == w[n - 1];
      ApostropheAt(w + b, p, rule, |w|);
      TextAtChar(w + b, p, rule.word, rule.ignoreCase, 0);
    }
  }

  /** Lines 33-36: every whole-word occurrence of a contraction, in any case,
      becomes its capitalised form, and the text around it is rewritten
      independently. */
  lemma ContractionReplaced(a: string, w: string, b: string, rule: Rule)
    requires rule in ContractionRules
    requires SameText(w, rule.word, rule.ignoreCase)
    requires |a| == 0 || !IsWordChar(a[|a| - 1])
    requires |b| == 0 || !IsWordChar(b[0])
    ensures ApplyRule(a + w + b, rule) == ApplyRule(a, rule) + rule.replacement + ApplyRule(b, rule)
  {
    ContractionRulesAreApostropheRules();
    SameTextChars(w, rule.word, rule.ignoreCase);
    assert (w + b)[0] == w[0];
    ApostropheSplitBefore(a, w + b, rule);
    ApostropheSplitAfter(w, b, rule);
    OccurrenceReplaced(a, w, b, rule);
  }

  // ---------------------------------------------------------------------------
  // The lookahead rule of line 29.

  /** No alternative is found where the first character matches none of
      their first characters. */
  lemma {:induction false} AnyTextAtFirstChar(s: string, j: nat, alternatives: seq<string>, ignoreCase: bool)
    requires j < |s|
    requires forall m :: 0 <= m < |alternatives| ==> |alternatives[m]| > 0 && !CharEq(s[j], alternatives[m][0], ignoreCase)
    ensures !AnyTextAt(s, j, alternatives, ignoreCase)
    decreases |alternatives|
  {
    if |alternatives| > 0 {
      AnyTextAtFirstChar(s, j, alternatives[1..], ignoreCase);
    }
  }

  /** The alternatives of line 29 are words. */
  lemma YourAlternativesAreWords()
    ensures WordAlternatives(YourBefore.followedBy)
  {
    var alts := YourBefore.followedBy;
    assert AllWordChars(alts[0]) && AllWordChars(alts[1]) && AllWordChars(alts[2]);
    assert AllWordChars(alts[3]) && AllWordChars(alts[4]) && AllWordChars(alts[5]);
  }

  /** None of the alternatives of line 29 starts with a y. */
  lemma YourAlternativesAfterY(s: string)
    requires 0 < |s| && ToLower(s[0]) == 'y'
    ensures !AnyTextAt(s, 0, YourBefore.followedBy, true)
  {
    var alts := YourBefore.followedBy;
    assert alts[0][0] == 'a' && alts[1][0] == 'a' && alts[2][0] == 't';
    assert alts[3][0] == 'g' && alts[4][0] == 'c' && alts[5][0] == 'd';
    assert ToLower('a') == 'a' && ToLower('t') == 't' && ToLower('g') == 'g';
    assert ToLower('c') == 'c' && ToLower('d') == 'd';
    forall m | 0 <= m < |alts|
      ensures |alts[m]| > 0 && !CharEq(s[0], alts[m][0], true)
    {
      if m < 3 {
        assert m == 0 || m == 1 || m == 2;
      } else {
        assert m == 3 || m == 4 || m == 5;
      }
    }
    AnyTextAtFirstChar(s, 0, alts, true);
  }

  /** "your" followed by `b` is rewritten exactly when the lookahead holds at
      the start of `b`, and `b` is then rewritten on its own. */
  lemma YourWordRewritten(w: string, b: string)
    requires SameText(w, "your", true)
    requires |b| == 0 || !IsWordChar(b[0])
    ensures ApplyRule(w + b, YourBefore)
      == (if LookaheadAt(b, 0, YourBefore.followedBy, true) then "you're" else w) + ApplyRule(b, YourBefore)
  {
    YourWordMatch(w, b);
    RewriteShift(w, b, 0, YourBefore);
    RewriteSplit(w + b, 0, YourBefore);
    if !LookaheadAt(b, 0, YourBefore.followedBy, true) {
      YourWordKept(w, b);
    }
  }

  /** The pattern of line 29 matches at the start of "your" followed by `b`
      exactly when the lookahead holds at the start of `b`. */
  lemma YourWordMatch(w: string, b: string)
    requires SameText(w, "your", true)
    requires |b| == 0 || !IsWordChar(b[0])
    ensures MatchAt(w + b, 0, YourBefore) == LookaheadAt(b, 0, YourBefore.followedBy, true)
  {
    var t := w + b;
    SameTextWordChars(w, "your", true);
    assert t[0..4] == w;
    assert t[0] == w[0] && t[3] == w[3];
    if 0 < |b| {
      assert t[4] == b[0];
    }
    LookaheadShift(w, b, 0, YourBefore.followedBy, true);
  }

  /** Inside "your" there is no boundary, so where the pattern does not match
      at its start the scan copies it. */
  lemma YourWordKept(w: string, b: string)
    requires SameText(w, "your", true) && !MatchAt(w + b, 0, YourBefore)
    ensures RewriteFrom(w + b, 0, YourBefore) == w + RewriteFrom(w + b, 4, YourBefore)
  {
    var t := w + b;
    SameTextWordChars(w, "your", true);
    assert t[0..4] == w;
    assert t[0] == w[0] && t[1] == w[1] && t[2] == w[2] && t[3] == w[3];
    assert !IsBoundary(t, 1) && !IsBoundary(t, 2) && !IsBoundary(t, 3);
    RewriteCopies(t, 0, 4, YourBefore);
  }

  /** Line 29: a whole word "your", in any case, becomes "you're" exactly
      when whitespace and then one of the six alternatives follow it, and the
      text on either side is rewritten independently. */
  lemma YourRewritten(a: string, w: string, b: string)
    requires SameText(w, "your", true)
    requires |a| == 0 || !IsWordChar(a[|a| - 1])
    requires |b| == 0 || !IsWordChar(b[0])
    ensures ApplyRule(a + w + b, YourBefore)
      == ApplyRule(a, YourBefore)
         + (if LookaheadAt(b, 0, YourBefore.followedBy, true) then "you're" else w)
         + ApplyRule(b, YourBefore)
  {
    var mid := if LookaheadAt(b, 0, YourBefore.followedBy, true) then "you're" else w;
    YourWordRewritten(w, b);
    YourSplitClean(a, w, b);
    JoinAround(a, w, b, YourBefore, mid);
  }

  /** The lookahead of line 29 cannot look from before a "your" past it. */
  lemma YourSplitClean(a: string, w: string, b: string)
    requires SameText(w, "your", true)
    requires |a| == 0 || !IsWordChar(a[|a| - 1])
    ensures CleanSplit(a, w + b, YourBefore)
  {
    var t := w + b;
    SameTextChars(w, "your", true);
    assert t[0] == w[0];
    SpaceRunEndAtWord(t);
    YourAlternativesAreWords();
    YourAlternativesAfterY(t);
    LookaheadSplitClean(a, t, YourBefore);
  }

  /** A text starting with a letter has no leading whitespace. */
  lemma SpaceRunEndAtWord(t: string)
    requires 0 < |t| && IsLetter(t[0])
    ensures SpaceRunEnd(t, 0) == 0
  {
  }

  /** Line 28: every case-exact whole word "its" becomes "it's", whatever its
      grammatical role. */
  lemma ItsAlwaysRewritten(a: string, b: string)
    requires |a| == 0 || !IsWordChar(a[|a| - 1])
    requires |b| == 0 || !IsWordChar(b[0])
    ensures ApplyRule(a + "its" + b, Its) == ApplyRule(a, Its) + "it's" + ApplyRule(b, Its)
  {
    assert PlainWordRule(Its);
    SameTextItself("its", false);
    WholeWordReplaced(a, "its", b, Its);
  }

  /** Line 32: every whole word "i" becomes "I". */
  lemma PronounIRewritten(a: string, b: string)
    requires |a| == 0 || !IsWordChar(a[|a| - 1])
    requires |b| == 0 || !IsWordChar(b[0])
    ensures ApplyRule(a + "i" + b, PronounI) == ApplyRule(a, PronounI) + "I" + ApplyRule(b, PronounI)
  {
    assert PlainWordRule(PronounI);
    SameTextItself("i", false);
    WholeWordReplaced(a, "i", b, PronounI);
  }

  // ---------------------------------------------------------------------------
  // No lone lower-case i survives line 32, nor the rules after it.

  /** Line 32 leaves no lone i in what it scans. */
  lemma {:induction false} PronounIRemovesLoneI(s: string, i: nat)
    requires i <= |s|
    ensures NoLoneIAfter(0 < i && IsWordChar(s[i - 1]), RewriteFrom(s, i, PronounI))
    decreases |s| - i
  {
    assert WellFormed(PronounI);
    if i < |s| {
      if MatchAt(s, i, PronounI) {
        PronounIRemovesLoneI(s, i + 1);
        MatchedWordChars(s, i, PronounI);
        assert "I"[0] != 'i';
        NoLoneIJoin(0 < i && IsWordChar(s[i - 1]), "I", IsWordChar(s[i]), RewriteFrom(s, i + 1, PronounI));
      } else {
        PronounIRemovesLoneI(s, i + 1);
        if s[i] == 'i' {
          assert s[i..i + 1] == "i";
          SameTextItself("i", false);
        }
        NoLoneIJoinChar(0 < i && IsWordChar(s[i - 1]), s[i], RewriteFrom(s, i + 1, PronounI));
      }
    }
  }

  /** Line 32 finds nothing in a text with no lone i. */
  lemma PronounIIdle(s: string)
    requires NoLoneI(s)
    ensures ApplyRule(s, PronounI) == s
  {
    forall k | 0 <= k < |s|
      ensures !MatchAt(s, k, PronounI)
    {
      assert !IsLoneIAt(s, k);
      if MatchAt(s, k, PronounI) {
        SameTextChars(s[k..k + 1], "i", false);
      }
    }
    NoMatchKeeps(s, 0, PronounI);
  }

  /** A rule whose replacement has no lower-case i cannot create a lone i. */
  lemma {:induction false} RuleKeepsNoLoneI(s: string, i: nat, rule: Rule)
    requires WellFormed(rule) && 'i' !in rule.replacement
    requires NoLoneI(s) && i <= |s|
    ensures NoLoneIAfter(0 < i && IsWordChar(s[i - 1]), RewriteFrom(s, i, rule))
    decreases |s| - i
  {
    if i < |s| {
      RuleKeepsNoLoneI(s, RewriteNext(s, i, rule), rule);
      NoLoneIStep(s, i, rule);
    }
  }

  /** One step of `RuleKeepsNoLoneI`, given the claim for the next scan
      position. */
  lemma NoLoneIStep(s: string, i: nat, rule: Rule)
    requires WellFormed(rule) && 'i' !in rule.replacement
    requires NoLoneI(s) && i < |s|
    requires NoLoneIAfter(IsWordChar(s[RewriteNext(s, i, rule) - 1]), RewriteFrom(s, RewriteNext(s, i, rule), rule))
    ensures NoLoneIAfter(0 < i && IsWordChar(s[i - 1]), RewriteFrom(s, i, rule))
  {
    RewriteSplit(s, i, rule);
    if MatchAt(s, i, rule) {
      NoLoneIMatchStep(s, i, rule);
    } else {
      NoLoneICopyStep(s, i, rule);
    }
  }

  /** A replacement without a lower-case i, put where a whole word stood,
      creates no lone i. */
  lemma NoLoneIMatchStep(s: string, i: nat, rule: Rule)
    requires WellFormed(rule) && 'i' !in rule.replacement
    requires i < |s| && MatchAt(s, i, rule)
    requires NoLoneIAfter(IsWordChar(s[i + |rule.word| - 1]), RewriteFrom(s, i + |rule.word|, rule))
    ensures NoLoneIAfter(0 < i && IsWordChar(s[i - 1]), rule.replacement + RewriteFrom(s, i + |rule.word|, rule))
  {
    MatchedWordChars(s, i, rule);
    NoLoneIJoin(0 < i && IsWordChar(s[i - 1]), rule.replacement, IsWordChar(s[i + |rule.word| - 1]), RewriteFrom(s, i + |rule.word|, rule));
  }

  /** A character copied from a text without a lone i is not a lone i. */
  lemma NoLoneICopyStep(s: string, i: nat, rule: Rule)
    requires NoLoneI(s) && i < |s| && !MatchAt(s, i, rule)
    requires NoLoneIAfter(IsWordChar(s[i]), RewriteFrom(s, i + 1, rule))
    ensures NoLoneIAfter(0 < i && IsWordChar(s[i - 1]), [s[i]] + RewriteFrom(s, i + 1, rule))
  {
    assert !IsLoneIAt(s, i);
    NoLoneIJoinChar(0 < i && IsWordChar(s[i - 1]), s[i], RewriteFrom(s, i + 1, rule));
  }

  /** A well-formed rule whose replacement has no lower-case i. */
  predicate AddsNoLowerI(rule: Rule) {
    WellFormed(rule) && 'i' !in rule.replacement
  }


  /** Rules that add no lower-case i keep a text free of lone i. */
  lemma {:induction false} RulesKeepNoLoneI(s: string, rules: seq<Rule>)
    requires forall rule :: rule in rules ==> AddsNoLowerI(rule)
    requires NoLoneI(s)
    ensures NoLoneI(ApplyRules(s, rules))
    decreases |rules|
  {
    if |rules| > 0 {
      assert rules[0] in rules;
      RuleKeepsNoLoneI(s, 0, rules[0]);
      NoLoneIAtStart(ApplyRule(s, rules[0]));
      RulesKeepNoLoneI(ApplyRule(s, rules[0]), rules[1..]);
    }
  }

  /** The word rules of lines 17-36, in order, leave no lone lower-case i. */
  lemma AllRulesLeaveNoLoneI(s: string)
    ensures NoLoneI(ApplyRules(ApplyRule(ApplyRules(s, TypoRules), PronounI), ContractionRules))
  {
    var t := ApplyRule(ApplyRules(s, TypoRules), PronounI);
    PronounIRemovesLoneI(ApplyRules(s, TypoRules), 0);
    NoLoneIAtStart(t);
    ContractionRulesAddNoLowerI();
    RulesKeepNoLoneI(t, ContractionRules);
  }

  // ---------------------------------------------------------------------------
  // Text without words is left alone; text with something visible keeps it.

  /** Every pattern of the table begins with a word character and every
      replacement with a visible one. */
  predicate StartsWithWordChars(rule: Rule) {
    IsWordChar(rule.word[0]) && |rule.replacement| > 0 && IsWordChar(rule.replacement[0])
  }

  lemma AllRulesStartWithWordChars()
    ensures forall k :: 0 <= k < |AllRules| ==> StartsWithWordChars(AllRules[k])
  {
    assert StartsWithWordChars(Teh) && StartsWithWordChars(Recieve) && StartsWithWordChars(Occur);
    assert StartsWithWordChars(Accommodate) && StartsWithWordChars(Seperate);
    assert StartsWithWordChars(Definately) && StartsWithWordChars(Neccessary);
    assert StartsWithWordChars(Excercise) && StartsWithWordChars(Beginning);
    assert StartsWithWordChars(Committee) && StartsWithWordChars(Alot) && StartsWithWordChars(Its);
    assert StartsWithWordChars(YourBefore) && StartsWithWordChars(PronounI);
    assert StartsWithWordChars(PronounIm) && StartsWithWordChars(PronounIll);
    assert StartsWithWordChars(PronounIve) && StartsWithWordChars(PronounId);
  }

  /** A rule finds nothing in a text without word characters. */
  lemma RuleIdleWithoutWordChars(s: string, rule: Rule)
    requires IsWordChar(rule.word[0])
    requires forall k :: 0 <= k < |s| ==> !IsWordChar(s[k])
    ensures ApplyRule(s, rule) == s
  {
    forall k | 0 <= k < |s|
      ensures !MatchAt(s, k, rule)
    {
      if rule.ignoreCase {
        FoldKeepsWordChars(s[k]);
        FoldKeepsWordChars(rule.word[0]);
      }
    }
    NoMatchKeeps(s, 0, rule);
  }

  lemma {:induction false} RulesIdleWithoutWordChars(s: string, rules: seq<Rule>)
    requires forall k :: 0 <= k < |rules| ==> IsWordChar(rules[k].word[0])
    requires forall k :: 0 <= k < |s| ==> !IsWordChar(s[k])
    ensures ApplyRules(s, rules) == s
    decreases |rules|
  {
    if |rules| > 0 {
      RuleIdleWithoutWordChars(s, rules[0]);
      RulesIdleWithoutWordChars(s, rules[1..]);
    }
  }

  /** A scan over text with a visible character leaves a visible character. */
  lemma {:induction false} RewriteKeepsSomethingVisible(s: string, i: nat, rule: Rule)
    requires |rule.replacement| > 0 && !IsSpace(rule.replacement[0])
    requires i <= |s| && Visible(s[i..]) != []
    ensures Visible(RewriteFrom(s, i, rule)) != []
    decreases |s| - i
  {
    if MatchAt(s, i, rule) {
      VisibleAppend(rule.replacement, RewriteFrom(s, i + |rule.word|, rule));
    } else {
      assert s[i..] == [s[i]] + s[i + 1..];
      VisibleAppend([s[i]], s[i + 1..]);
      VisibleAppend([s[i]], RewriteFrom(s, i + 1, rule));
      if IsSpace(s[i]) {
        RewriteKeepsSomethingVisible(s, i + 1, rule);
      }
    }
  }

  lemma {:induction false} RulesKeepSomethingVisible(s: string, rules: seq<Rule>)
    requires forall k :: 0 <= k < |rules| ==> StartsWithWordChars(rules[k])
    requires Visible(s) != []
    ensures Visible(ApplyRules(s, rules)) != []
    decreases |rules|
  {
    if |rules| > 0 {
      assert s[0..] == s;
      RewriteKeepsSomethingVisible(s, 0, rules[0]);
      RulesKeepSomethingVisible(ApplyRule(s, rules[0]), rules[1..]);
    }
  }
}
