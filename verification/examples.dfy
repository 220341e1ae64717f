/** Worked inputs of `fixGrammarAndTypos` (app/page.tsx:12-54), each derived
    pass by pass from the general lemmas. */
module CorrectorExamples {
  import opened Text
  import opened Shape
  import opened WordRules
  import opened Spacing
  import opened Corrector

  lemma SameChars(a: string, b: string)
    requires |a| == |b| && forall k :: 0 <= k < |a| ==> a[k] == b[k]
    ensures a == b
  {
  }

  /** No character of `s` folds to the lower-case letter `c`. */
  predicate Lacks(s: string, c: char) {
    forall k :: 0 <= k < |s| ==> ToLower(s[k]) != c
  }

  /** A rule whose word holds a lower-case letter that `s` lacks in either
      case finds nothing in `s`. */
  lemma RuleIdleWithoutLetter(s: string, rule: Rule, m: nat)
    requires m < |rule.word| && IsLower(rule.word[m]) && Lacks(s, rule.word[m])
    ensures ApplyRule(s, rule) == s
  {
    RuleIdleWithoutChar(s, rule, m);
  }

  /** Every rule of the table needs one of the letters t, c, s, f, b, a, i or
      y, in either case. */
  lemma TableIdleWithout(s: string)
    requires Lacks(s, 't') && Lacks(s, 'c') && Lacks(s, 's') && Lacks(s, 'f')
    requires Lacks(s, 'b') && Lacks(s, 'a') && Lacks(s, 'i') && Lacks(s, 'y')
    ensures ApplyRules(s, AllRules) == s
  {
    forall k | 0 <= k < |AllRules|
      ensures ApplyRule(s, AllRules[k]) == s
    {
      var rule := AllRules[k];
      AllRulesTable();
      if k == 1 || 5 <= k <= 7 { RuleIdleWithoutLetter(s, rule, 2); }
      else if k == 2 || k == 3 { RuleIdleWithoutLetter(s, rule, 1); }
      else { RuleIdleWithoutLetter(s, rule, 0); }
    }
    IdleRulesSkipped(s, AllRules, |AllRules|);
  }

  // ---------------------------------------------------------------------------
  // "hello.world": the corrector is not idempotent.

  lemma RunOnSentenceCapitalised()
    ensures CapitaliseSentences("hello.world") == "Hello.world"
  {
    assert forall k :: 0 <= k < 11 ==> CapitalisedAt("hello.world", k) == "Hello.world"[k];
    SameChars(CapitaliseSentences("hello.world"), "Hello.world");
  }

  lemma RunOnSentenceSpaced()
    ensures SpaceAfterPunct("Hello.world") == "Hello. world"
  {
    var p := "Hello.world";
    assert forall k :: 0 <= k < 5 ==> !PunctThenLetterAt(p, k);
    SpaceAfterPunctCopies(p, 0, 5);
    assert forall k :: 7 <= k < 11 ==> !PunctThenLetterAt(p, k);
    SpaceAfterPunctCopies(p, 7, 11);
    assert PunctThenLetterAt(p, 5);
    assert SpaceAfterPunctFrom(p, 5) == ". w" + SpaceAfterPunctFrom(p, 7);
  }

  /** Every character of `s` folds to one of `letters`. */
  predicate DrawnFrom(s: string, letters: string) {
    forall k :: 0 <= k < |s| ==> ToLower(s[k]) in letters
  }

  /** A text drawn from letters none of which a rule needs is left alone by
      the whole table. */
  lemma TableIdleOn(s: string, letters: string)
    requires DrawnFrom(s, letters)
    requires forall c :: c in "tcsfbaiy" ==> c !in letters
    ensures ApplyRules(s, AllRules) == s
  {
    assert 't' in "tcsfbaiy" && 'c' in "tcsfbaiy" && 's' in "tcsfbaiy" && 'f' in "tcsfbaiy";
    assert 'b' in "tcsfbaiy" && 'a' in "tcsfbaiy" && 'i' in "tcsfbaiy" && 'y' in "tcsfbaiy";
    TableIdleWithout(s);
  }

  lemma RunOnSentenceLetters()
    ensures DrawnFrom("hello.world", "helowrd. ")
    ensures DrawnFrom("Hello. world", "helowrd. ")
  {
  }

  lemma RunOnSentencePlain()
    ensures OnlyPlainSpaces("hello.world")
  {
  }

  lemma RunOnSentenceSpacing()
    ensures Avoids(DoubleSpace, "hello.world")
  {
  }

  lemma RunOnSentenceClean()
    ensures Avoids(SpaceBeforePunct, "Hello.world") && IsTrimmed("Hello. world")
  {
  }

  /** The first pass over "hello.world": the capital comes from line 42, the
      space from line 48. */
  lemma FirstPassOnRunOnSentence()
    ensures Fix("hello.world") == "Hello. world"
  {
    var s := "hello.world";
    RunOnSentenceLetters();
    TableIdleOn(s, "helowrd. ");
    RunOnSentencePlain();
    RunOnSentenceSpacing();
    RunOnSentenceClean();
    CollapseFixesNormalText(s, 0);
    RunOnSentenceCapitalised();
    DropFixesCleanText("Hello.world", 0);
    RunOnSentenceSpaced();
    TrimFixesTrimmedText("Hello. world");
    NotBlankFromFirst(s);
    FixByStages(s, s, s, "Hello.world", "Hello.world", "Hello. world");
  }

  /** `Fix` of a text that is not blank, given each stage's output. */
  lemma FixByStages(s: string, w: string, c: string, k: string, d: string, r: string)
    requires !IsBlank(s) && ApplyRules(s, AllRules) == w
    requires CollapseSpaces(w) == c && CapitaliseSentences(c) == k
    requires DropSpaceBeforePunct(k) == d && Trim(SpaceAfterPunct(d)) == r
    ensures Fix(s) == r
  {
  }

  lemma SecondSentenceCapitalised()
    ensures CapitaliseSentences("Hello. world") == "Hello. World"
  {
    assert forall k :: 0 <= k < 12 ==> CapitalisedAt("Hello. world", k) == "Hello. World"[k];
    SameChars(CapitaliseSentences("Hello. world"), "Hello. World");
  }

  lemma SecondSentencePlain()
    ensures OnlyPlainSpaces("Hello. world")
  {
  }

  lemma SecondSentenceSpacing()
    ensures Avoids(DoubleSpace, "Hello. world")
  {
  }

  lemma SecondSentenceClean()
    ensures Avoids(SpaceBeforePunct, "Hello. World")
  {
  }

  lemma SecondSentenceSpaced()
    ensures Avoids(LetterAfterPunct, "Hello. World") && IsTrimmed("Hello. World")
  {
  }

  /** The second pass capitalises the letter that line 48 put after ". ". */
  lemma SecondPassOnRunOnSentence()
    ensures Fix("Hello. world") == "Hello. World"
  {
    var s := "Hello. world";
    RunOnSentenceLetters();
    TableIdleOn(s, "helowrd. ");
    SecondSentencePlain();
    SecondSentenceSpacing();
    SecondSentenceClean();
    SecondSentenceSpaced();
    CollapseFixesNormalText(s, 0);
    SecondSentenceCapitalised();
    var p := "Hello. World";
    DropFixesCleanText(p, 0);
    SpaceAfterPunctFixesCleanText(p, 0);
    TrimFixesTrimmedText(p);
    assert !IsSpace(s[0]);
  }

  /** `fixGrammarAndTypos` is not idempotent. */
  lemma FixIsNotIdempotent()
    ensures Fix(Fix("hello.world")) != Fix("hello.world")
  {
    FirstPassOnRunOnSentence();
    SecondPassOnRunOnSentence();
  }

  // ---------------------------------------------------------------------------
  // "i recieve alot of emails": lines 18, 27, 32 and 42 at work.

  /** The table entry by entry. */
  lemma AllRulesTable()
    ensures |AllRules| == 18
    ensures AllRules[0] == Teh && AllRules[1] == Recieve && AllRules[2] == Occur
    ensures AllRules[3] == Accommodate && AllRules[4] == Seperate && AllRules[5] == Definately
    ensures AllRules[6] == Neccessary && AllRules[7] == Excercise && AllRules[8] == Beginning
    ensures AllRules[9] == Committee && AllRules[10] == Alot && AllRules[11] == Its
    ensures AllRules[12] == YourBefore && AllRules[13] == PronounI && AllRules[14] == PronounIm
    ensures AllRules[15] == PronounIll && AllRules[16] == PronounIve && AllRules[17] == PronounId
  {
    AllRulesEarly();
    AllRulesLate();
    AllRulesGrammar();
  }

  lemma AllRulesEarly()
    ensures AllRules[0] == Teh && AllRules[1] == Recieve && AllRules[2] == Occur
    ensures AllRules[3] == Accommodate && AllRules[4] == Seperate && AllRules[5] == Definately
  {
    var typos := TypoRules;
    assert typos[0] == Teh && typos[1] == Recieve && typos[2] == Occur;
    assert typos[3] == Accommodate && typos[4] == Seperate && typos[5] == Definately;
    assert AllRules == typos + ([PronounI] + ContractionRules);
  }

  lemma AllRulesLate()
    ensures AllRules[6] == Neccessary && AllRules[7] == Excercise && AllRules[8] == Beginning
    ensures AllRules[9] == Committee && AllRules[10] == Alot && AllRules[11] == Its
    ensures AllRules[12] == YourBefore
  {
    assert AllRules == TypoRules + ([PronounI] + ContractionRules);
  }

  lemma AllRulesGrammar()
    ensures |AllRules| == 18
    ensures AllRules[13] == PronounI && AllRules[14] == PronounIm
    ensures AllRules[15] == PronounIll && AllRules[16] == PronounIve && AllRules[17] == PronounId
  {
    var rest := [PronounI] + ContractionRules;
    assert AllRules == TypoRules + rest;
    assert |TypoRules| == 13;
    assert rest[0] == PronounI && rest[1] == PronounIm && rest[2] == PronounIll;
    assert rest[3] == PronounIve && rest[4] == PronounId;
  }

  /** A rule that finds nothing can be dropped from the rest of the chain. */
  lemma IdleRuleSkipped(s: string, rules: seq<Rule>, n: nat)
    requires n < |rules| && ApplyRule(s, rules[n]) == s
    ensures ApplyRules(s, rules[n..]) == ApplyRules(s, rules[n + 1..])
  {
    ApplyRulesStep(s, rules, n);
  }

  lemma ApplyRulesStep(s: string, rules: seq<Rule>, n: nat)
    requires n < |rules|
    ensures ApplyRules(s, rules[n..]) == ApplyRules(ApplyRule(s, rules[n]), rules[n + 1..])
  {
    assert rules[n..][0] == rules[n] && rules[n..][1..] == rules[n + 1..];
  }

  lemma LacksOutside(s: string, letters: string, c: char)
    requires DrawnFrom(s, letters) && c !in letters
    ensures Lacks(s, c)
  {
  }

  const EmailLetters := "i recvalotfms"

  lemma EmailLettersOfInput()
    ensures DrawnFrom("i recieve alot of emails", EmailLetters)
  {
  }

  lemma EmailLettersAfterRecieve()
    ensures DrawnFrom("i receive alot of emails", EmailLetters)
  {
  }

  lemma EmailLettersAfterAlot()
    ensures DrawnFrom("i receive a lot of emails", EmailLetters)
  {
  }

  lemma EmailLettersOfResult()
    ensures DrawnFrom("I receive a lot of emails", EmailLetters)
  {
  }

  lemma EmailRecieveSplit()
    ensures "i recieve alot of emails" == "i " + "recieve" + " alot of emails"
    ensures "i " + "receive" + " alot of emails" == "i receive alot of emails"
  {
  }

  lemma EmailRecieveContext()
    ensures ApplyRule("i ", Recieve) == "i "
    ensures ApplyRule(" alot of emails", Recieve) == " alot of emails"
  {
    assert Lacks("i ", 'r');
    RuleIdleWithoutLetter("i ", Recieve, 0);
    assert DrawnFrom(" alot of emails", " alotfemis");
    LacksOutside(" alot of emails", " alotfemis", 'r');
    RuleIdleWithoutLetter(" alot of emails", Recieve, 0);
  }

  /** Line 18 turns the one "recieve" into "receive". */
  lemma EmailRecieveFixed()
    ensures ApplyRule("i recieve alot of emails", Recieve) == "i receive alot of emails"
  {
    assert PlainWordRule(Recieve);
    SameTextItself("recieve", true);
    WholeWordReplaced("i ", "recieve", " alot of emails", Recieve);
    EmailRecieveContext();
    EmailRecieveSplit();
  }

  lemma EmailNoDoubleM()
    ensures forall k :: 0 <= k < |"i receive alot of emails"| - 1 ==>
      !(CharEq("i receive alot of emails"[k], 'm', true) && CharEq("i receive alot of emails"[k + 1], 'm', true))
  {
  }

  lemma EmailLacks()
    ensures Lacks("i receive alot of emails", 'u') && Lacks("i receive alot of emails", 'd')
    ensures Lacks("i receive alot of emails", 'p') && Lacks("i receive alot of emails", 'n')
    ensures Lacks("i receive alot of emails", 'x') && Lacks("i receive alot of emails", 'b')
  {
    var s := "i receive alot of emails";
    EmailLettersAfterRecieve();
    LacksOutside(s, EmailLetters, 'u');
    LacksOutside(s, EmailLetters, 'd');
    LacksOutside(s, EmailLetters, 'p');
    LacksOutside(s, EmailLetters, 'n');
    LacksOutside(s, EmailLetters, 'x');
    LacksOutside(s, EmailLetters, 'b');
  }

  lemma EmailMiddleRuleIdle(k: nat)
    requires k < 8
    ensures ApplyRule("i receive alot of emails", AllRules[k + 2]) == "i receive alot of emails"
  {
    var s := "i receive alot of emails";
    var rule := AllRules[k + 2];
    AllRulesTable();
    EmailLacks();
    if k == 7 { EmailNoDoubleM(); RuleIdleWithoutPair(s, rule, 2); }
    else if k == 0 { RuleIdleWithoutLetter(s, rule, 3); }
    else if k == 1 { RuleIdleWithoutLetter(s, rule, 7); }
    else if k == 2 { RuleIdleWithoutLetter(s, rule, 2); }
    else if k == 5 { RuleIdleWithoutLetter(s, rule, 1); }
    else { RuleIdleWithoutLetter(s, rule, 0); }
  }

  /** Lines 19-26 find nothing after line 18. */
  lemma EmailMiddleRulesIdle()
    ensures ApplyRules("i receive alot of emails", AllRules[2..]) == ApplyRules("i receive alot of emails", AllRules[10..])
  {
    var rules := AllRules[2..];
    forall k | 0 <= k < 8
      ensures ApplyRule("i receive alot of emails", rules[k]) == "i receive alot of emails"
    {
      EmailMiddleRuleIdle(k);
      assert rules[k] == AllRules[k + 2];
    }
    IdleRulesSkipped("i receive alot of emails", rules, 8);
    assert rules[8..] == AllRules[10..];
  }

  lemma EmailAlotSplit()
    ensures "i receive alot of emails" == "i receive " + "alot" + " of emails"
    ensures "i receive " + "a lot" + " of emails" == "i receive a lot of emails"
  {
  }

  lemma EmailAlotContext()
    ensures ApplyRule("i receive ", Alot) == "i receive "
    ensures ApplyRule(" of emails", Alot) == " of emails"
  {
    assert Lacks("i receive ", 't');
    RuleIdleWithoutLetter("i receive ", Alot, 3);
    assert Lacks(" of emails", 't');
    RuleIdleWithoutLetter(" of emails", Alot, 3);
  }

  /** Line 27 splits the one "alot". */
  lemma EmailAlotFixed()
    ensures ApplyRule("i receive alot of emails", Alot) == "i receive a lot of emails"
  {
    assert PlainWordRule(Alot);
    SameTextItself("alot", true);
    WholeWordReplaced("i receive ", "alot", " of emails", Alot);
    EmailAlotContext();
    EmailAlotSplit();
  }

  lemma EmailNoTs()
    ensures forall k :: 0 <= k < |"i receive a lot of emails"| - 1 ==>
      !(CharEq("i receive a lot of emails"[k], 't', false) && CharEq("i receive a lot of emails"[k + 1], 's', false))
  {
  }

  lemma EmailItsIdle()
    ensures ApplyRule("i receive a lot of emails", Its) == "i receive a lot of emails"
  {
    EmailNoTs();
    RuleIdleWithoutPair("i receive a lot of emails", Its, 1);
  }

  lemma EmailYourIdle()
    ensures ApplyRule("i receive a lot of emails", YourBefore) == "i receive a lot of emails"
  {
    EmailLettersAfterAlot();
    LacksOutside("i receive a lot of emails", EmailLetters, 'y');
    RuleIdleWithoutLetter("i receive a lot of emails", YourBefore, 0);
  }

  /** Lines 28-29 find nothing after line 27. */
  lemma EmailLateTyposIdle()
    ensures ApplyRules("i receive a lot of emails", AllRules[11..]) == ApplyRules("i receive a lot of emails", AllRules[13..])
  {
    AllRulesTable();
    EmailItsIdle();
    EmailYourIdle();
    IdleRuleSkipped("i receive a lot of emails", AllRules, 11);
    IdleRuleSkipped("i receive a lot of emails", AllRules, 12);
  }

  /** An i preceded by a word character is not lone. */
  lemma NoLoneIFromPositions(s: string, at: set<int>)
    requires forall k :: 0 <= k < |s| && s[k] == 'i' ==> k in at
    requires forall k :: k in at ==> 0 < k < |s| && IsWordChar(s[k - 1])
    ensures NoLoneI(s)
  {
    forall k | 0 <= k < |s|
      ensures !IsLoneIAt(s, k)
    {
      if s[k] == 'i' {
        assert k in at;
      }
    }
  }

  lemma EmailRestIs()
    ensures forall k :: 0 <= k < |" receive a lot of emails"| && " receive a lot of emails"[k] == 'i' ==> k in {5, 21}
    ensures IsWordChar(" receive a lot of emails"[4]) && IsWordChar(" receive a lot of emails"[20])
  {
  }

  lemma EmailPronounSplit()
    ensures "" + "i" + " receive a lot of emails" == "i receive a lot of emails"
    ensures "" + "I" + " receive a lot of emails" == "I receive a lot of emails"
  {
  }

  /** Line 32 capitalises the pronoun and nothing else. */
  lemma EmailPronounFixed()
    ensures ApplyRule("i receive a lot of emails", PronounI) == "I receive a lot of emails"
  {
    var b := " receive a lot of emails";
    PronounIRewritten("", b);
    EmailRestIs();
    NoLoneIFromPositions(b, {5, 21});
    PronounIIdle(b);
    assert ApplyRule("", PronounI) == "";
    EmailPronounSplit();
  }

  /** Lines 33-36 find nothing: there is no apostrophe. */
  lemma EmailContractionsIdle()
    ensures ApplyRules("I receive a lot of emails", AllRules[14..]) == "I receive a lot of emails"
  {
    var s := "I receive a lot of emails";
    EmailLettersOfResult();
    LacksOutside(s, EmailLetters, '\'');
    var rest := AllRules[14..];
    forall k | 0 <= k < |rest|
      ensures ApplyRule(s, rest[k]) == s
    {
      RuleIdleWithoutChar(s, rest[k], 1);
    }
    IdleRulesSkipped(s, rest, |rest|);
  }

  lemma EmailTehIdle()
    ensures ApplyRule("i recieve alot of emails", Teh) == "i recieve alot of emails"
  {
    EmailLettersOfInput();
    LacksOutside("i recieve alot of emails", EmailLetters, 'h');
    RuleIdleWithoutLetter("i recieve alot of emails", Teh, 2);
  }

  /** Lines 17-18 on the example. */
  lemma EmailFirstTypos()
    ensures ApplyRules("i recieve alot of emails", AllRules) == ApplyRules("i receive alot of emails", AllRules[2..])
  {
    var s0 := "i recieve alot of emails";
    AllRulesEarly();
    EmailTehIdle();
    IdleRuleSkipped(s0, AllRules, 0);
    assert AllRules[0..] == AllRules;
    ApplyRulesStep(s0, AllRules, 1);
    EmailRecieveFixed();
  }

  /** Lines 19-29 on the example. */
  lemma EmailOtherTypos()
    ensures ApplyRules("i receive alot of emails", AllRules[2..]) == ApplyRules("i receive a lot of emails", AllRules[13..])
  {
    EmailMiddleRulesIdle();
    ApplyRulesStep("i receive alot of emails", AllRules, 10);
    EmailAlotFixed();
    EmailLateTyposIdle();
  }

  /** Lines 32-36 on the example. */
  lemma EmailGrammarRules()
    ensures ApplyRules("i receive a lot of emails", AllRules[13..]) == "I receive a lot of emails"
  {
    ApplyRulesStep("i receive a lot of emails", AllRules, 13);
    EmailPronounFixed();
    EmailContractionsIdle();
  }

  /** Lines 17-36 on the example. */
  lemma EmailWordRules()
    ensures ApplyRules("i recieve alot of emails", AllRules) == "I receive a lot of emails"
  {
    EmailFirstTypos();
    EmailOtherTypos();
    EmailGrammarRules();
  }

  /** Text whose whitespace characters are single U+0020 spaces at the given
      inner positions, with no two of them adjacent. */
  lemma SpacingFromPositions(s: string, at: set<int>)
    requires |s| > 0 && 0 !in at && |s| - 1 !in at
    requires forall k :: 0 <= k < |s| ==> (IsSpace(s[k]) <==> k in at)
    requires forall k :: 0 <= k < |s| && IsSpace(s[k]) ==> s[k] == ' '
    requires forall k :: k in at ==> k - 1 !in at
    ensures OnlyPlainSpaces(s) && Avoids(DoubleSpace, s) && IsTrimmed(s)
  {
    forall k | 0 < k < |s|
      ensures !Clash(DoubleSpace, s[k - 1], s[k])
    {
      if IsSpace(s[k]) {
        assert k in at;
      }
    }
  }

  /** Text without `,.!?;:` has no punctuation to space. */
  lemma NoPunctuation(s: string)
    requires forall k :: 0 <= k < |s| ==> !IsPunct(s[k])
    ensures Avoids(SpaceBeforePunct, s) && Avoids(LetterAfterPunct, s)
    ensures forall k :: 0 < k < |s| ==> !SentenceStartAt(s, k)
  {
    forall k | 0 < k < |s|
      ensures !SentenceStartAt(s, k)
    {
      if k >= 2 {
        assert !IsPunct(s[k - 2]);
      }
    }
  }

  lemma EmailResultSpaces()
    ensures forall k :: 0 <= k < |"I receive a lot of emails"| ==> (IsSpace("I receive a lot of emails"[k]) <==> k in {1, 9, 11, 15, 18})
    ensures forall k :: 0 <= k < |"I receive a lot of emails"| && IsSpace("I receive a lot of emails"[k]) ==> "I receive a lot of emails"[k] == ' '
  {
  }

  lemma EmailResultIs()
    ensures forall k :: 0 <= k < |"I receive a lot of emails"| && "I receive a lot of emails"[k] == 'i' ==> k in {6, 22}
    ensures IsWordChar("I receive a lot of emails"[5]) && IsWordChar("I receive a lot of emails"[21])
  {
  }

  lemma EmailResultSpacing()
    ensures OnlyPlainSpaces("I receive a lot of emails") && Avoids(DoubleSpace, "I receive a lot of emails")
    ensures IsTrimmed("I receive a lot of emails")
  {
    EmailResultSpaces();
    SpacingFromPositions("I receive a lot of emails", {1, 9, 11, 15, 18});
  }

  lemma EmailResultHasNoPunctuation()
    ensures forall k :: 0 <= k < |"I receive a lot of emails"| ==> !IsPunct("I receive a lot of emails"[k])
  {
    EmailLettersOfResult();
  }

  lemma EmailResultPunctuation()
    ensures Avoids(SpaceBeforePunct, "I receive a lot of emails") && Avoids(LetterAfterPunct, "I receive a lot of emails")
    ensures forall k :: 0 <= k < |"I receive a lot of emails"| ==> !SentenceStartAt("I receive a lot of emails", k)
  {
    EmailResultHasNoPunctuation();
    NoPunctuation("I receive a lot of emails");
  }

  lemma EmailResultNoLoneI()
    ensures NoLoneI("I receive a lot of emails")
  {
    EmailResultIs();
    NoLoneIFromPositions("I receive a lot of emails", {6, 22});
  }

  /** The example: "i recieve alot of emails" becomes "I receive a lot of
      emails". */
  lemma EmailExample()
    ensures Fix("i recieve alot of emails") == "I receive a lot of emails"
  {
    EmailWordRules();
    EmailResultFinished();
    FormatKeepsFinishedText("I receive a lot of emails");
    NotBlankFromFirst("i recieve alot of emails");
  }

  /** The corrected text is already in its final form. */
  lemma EmailResultFinished()
    ensures Normalised("I receive a lot of emails")
    ensures forall k :: 0 <= k < |"I receive a lot of emails"| ==> !SentenceStartAt("I receive a lot of emails", k)
  {
    EmailResultSpacing();
    EmailResultPunctuation();
    EmailResultNoLoneI();
  }

  /** A text whose first character is not whitespace is not blank. */
  lemma NotBlankFromFirst(s: string)
    requires 0 < |s| && !IsSpace(s[0])
    ensures !IsBlank(s)
  {
  }

  // ---------------------------------------------------------------------------
  // "your another": the lookahead of line 29 only needs a prefix.

  const AnotherLetters := "your anthe"

  lemma AnotherLettersOfInput()
    ensures DrawnFrom("your another", AnotherLetters)
  {
  }

  lemma AnotherLettersAfterYour()
    ensures DrawnFrom("you're another", AnotherLetters + "'")
  {
  }

  lemma AnotherNoTe()
    ensures forall k :: 0 <= k < |"your another"| - 1 ==>
      !(CharEq("your another"[k], 't', true) && CharEq("your another"[k + 1], 'e', true))
  {
  }

  lemma AnotherLacks()
    ensures Lacks("your another", 'c') && Lacks("your another", 's') && Lacks("your another", 'd')
    ensures Lacks("your another", 'x') && Lacks("your another", 'b') && Lacks("your another", 'l')
    ensures Lacks("your another", 'i')
  {
    var s := "your another";
    AnotherLettersOfInput();
    LacksOutside(s, AnotherLetters, 'c');
    LacksOutside(s, AnotherLetters, 's');
    LacksOutside(s, AnotherLetters, 'd');
    LacksOutside(s, AnotherLetters, 'x');
    LacksOutside(s, AnotherLetters, 'b');
    LacksOutside(s, AnotherLetters, 'l');
    LacksOutside(s, AnotherLetters, 'i');
  }

  /** Lines 17-28 find nothing in "your another". */
  lemma AnotherTypoIdle(k: nat)
    requires k < 12
    ensures ApplyRule("your another", AllRules[k]) == "your another"
  {
    var s := "your another";
    var rule := AllRules[k];
    AllRulesTable();
    AnotherLacks();
    if k == 0 { AnotherNoTe(); RuleIdleWithoutPair(s, rule, 0); }
    else if k == 1 || k == 6 { RuleIdleWithoutLetter(s, rule, 2); }
    else if k == 2 || k == 3 { RuleIdleWithoutLetter(s, rule, 1); }
    else if k == 7 || k == 10 { RuleIdleWithoutLetter(s, rule, 1); }
    else { RuleIdleWithoutLetter(s, rule, 0); }
  }

  /** "your" is followed by whitespace and then "a", the start of "another". */
  /** After "your" in "your another" come a space and the first
      alternative, "a". */
  lemma AnotherLookahead()
    ensures LookaheadAt(" another", 0, YourBefore.followedBy, true)
  {
    var t := " another";
    assert SpaceRunEnd(t, 0) == 1;
    assert t[1..2] == "a";
    SameTextItself("a", true);
    assert TextAt(t, 1, YourBefore.followedBy[0], true);
  }

  /** " another" holds no y for line 29 to find. */
  lemma AnotherRestIdle()
    ensures ApplyRule(" another", YourBefore) == " another"
  {
    var t := " another";
    assert forall k :: 0 <= k < |t| ==> !CharEq(t[k], 'y', true);
    RewriteIdleWithoutChar(t, 0, YourBefore, 0);
  }

  /** A "your" at the start of a text, followed by a text that satisfies the
      lookahead and that line 29 leaves alone, becomes "you're". */
  lemma YourAtStart(w: string, b: string)
    requires SameText(w, "your", true)
    requires 0 < |b| && !IsWordChar(b[0])
    requires LookaheadAt(b, 0, YourBefore.followedBy, true)
    requires ApplyRule(b, YourBefore) == b
    ensures ApplyRule(w + b, YourBefore) == "you're" + b
  {
    YourRewritten([], w, b);
    assert [] + w + b == w + b;
    assert ApplyRule([], YourBefore) == [];
  }

  /** Line 29 rewrites "your" before "another". */
  lemma AnotherYourFixed()
    ensures ApplyRule("your another", YourBefore) == "you're another"
  {
    SameTextItself("your", true);
    AnotherLookahead();
    AnotherRestIdle();
    YourAtStart("your", " another");
    AnotherPieces();
  }

  lemma AnotherPieces()
    ensures "your" + " another" == "your another"
    ensures "you're" + " another" == "you're another"
  {
  }

  /** Lines 32-36 find no i in "you're another". */
  lemma AnotherGrammarIdle()
    ensures ApplyRules("you're another", AllRules[13..]) == "you're another"
  {
    var s := "you're another";
    var rest := AllRules[13..];
    AnotherLettersAfterYour();
    LacksOutside(s, AnotherLetters + "'", 'i');
    forall k | 0 <= k < |rest|
      ensures ApplyRule(s, rest[k]) == s
    {
      RuleIdleWithoutLetter(s, rest[k], 0);
    }
    IdleRulesSkipped(s, rest, |rest|);
  }

  /** Lines 17-36 on "your another". */
  lemma AnotherWordRules()
    ensures ApplyRules("your another", AllRules) == "you're another"
  {
    var s := "your another";
    forall k | 0 <= k < 12
      ensures ApplyRule(s, AllRules[k]) == s
    {
      AnotherTypoIdle(k);
    }
    calc {
      ApplyRules(s, AllRules);
      { IdleRulesSkipped(s, AllRules, 12); }
      ApplyRules(s, AllRules[12..]);
      { ApplyRulesStep(s, AllRules, 12); }
      ApplyRules(ApplyRule(s, AllRules[12]), AllRules[13..]);
      { assert AllRules[12] == YourBefore; AnotherYourFixed(); }
      ApplyRules("you're another", AllRules[13..]);
      { AnotherGrammarIdle(); }
      "you're another";
    }
  }

  lemma AnotherCapitalised()
    ensures CapitaliseSentences("you're another") == "You're another"
  {
    assert forall k :: 0 <= k < 14 ==> CapitalisedAt("you're another", k) == "You're another"[k];
    SameChars(CapitaliseSentences("you're another"), "You're another");
  }

  lemma AnotherSpaces()
    ensures forall k :: 0 <= k < |"you're another"| ==> (IsSpace("you're another"[k]) <==> k in {6})
    ensures forall k :: 0 <= k < |"you're another"| && IsSpace("you're another"[k]) ==> "you're another"[k] == ' '
  {
  }

  lemma AnotherResultClean()
    ensures forall k :: 0 <= k < |"You're another"| ==> !IsPunct("You're another"[k])
    ensures IsTrimmed("You're another")
  {
  }

  /** Line 39 leaves "you're another", whose only whitespace is one space, as it is. */
  lemma AnotherCollapsed()
    ensures CollapseSpaces("you're another") == "you're another"
  {
    AnotherSpaces();
    SpacingFromPositions("you're another", {6});
    CollapseFixesNormalText("you're another", 0);
  }

  /** Lines 45-51 leave "You're another" as it is: it has no punctuation and
      no outer whitespace. */
  lemma AnotherSettled()
    ensures Trim(SpaceAfterPunct(DropSpaceBeforePunct("You're another"))) == "You're another"
  {
    AnotherResultClean();
    NoPunctuation("You're another");
    DropFixesCleanText("You're another", 0);
    SpaceAfterPunctFixesCleanText("You're another", 0);
    TrimFixesTrimmedText("You're another");
  }

  /** Lines 39-51 on "you're another": only the first letter changes. */
  lemma AnotherFormatted()
    ensures Format("you're another") == "You're another"
  {
    AnotherCollapsed();
    AnotherCapitalised();
    AnotherSettled();
  }

  /** "your another" becomes "You're another": "another" merely starts with
      the first alternative, "a". */
  lemma AnotherExample()
    ensures Fix("your another") == "You're another"
  {
    AnotherWordRules();
    AnotherFormatted();
    NotBlankFromFirst("your another");
  }
}
