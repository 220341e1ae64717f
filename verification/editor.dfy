/** The debounced correction of the editor page (app/page.tsx:56-82) as a
    state machine. React state updates and the effect of lines 68-82 become
    two events: the user changes the input, or the 400 ms timer the effect
    scheduled fires. Wall-clock time is not modelled; a timer that the
    effect's cleanup cleared simply never fires. */
module Editor {
  import opened Text
  import opened Corrector
  import opened Wrappers

  /** The page state: the input and output text areas, the "processing"
      indicator, and the input captured by the one outstanding timer, if
      any. */
  datatype Editor = Editor(input: string, output: string, processing: bool, pending: Option<string>)

  datatype Event =
    | SetInput(text: string)  // `setInputText` from the input text area
    | TimerFire               // the outstanding 400 ms timer elapses

  /** State after mount: empty input and output, nothing pending (the effect's
      first run finds the input blank). */
  const Initial := Editor([], [], false, None)

  /** What the page keeps true between events: the indicator is on exactly
      while a timer is outstanding, that timer holds the current input, which
      is not blank, and otherwise the output is the correction of the current
      input. */
  ghost predicate Inv(e: Editor) {
    && (e.processing <==> e.pending.Some?)
    && (e.pending.Some? ==> e.pending.value == e.input && !IsBlank(e.input))
    && (!e.processing ==> e.output == Fix(e.input))
  }

  /** The effect body for a changed input: schedule a correction of a
      non-blank input, or clear the output at once. Any earlier timer has
      already been cleared by the previous run's cleanup. */
  function RunEffect(e: Editor, text: string): (r: Editor)
    ensures r.input == text
    ensures Trim(text) != [] ==> r.processing && r.pending == Some(text) && r.output == e.output
    ensures Trim(text) == [] ==> !r.processing && r.pending == None && r.output == []
  {
    if Trim(text) != [] then Editor(text, e.output, true, Some(text))
    else Editor(text, [], false, None)
  }

  /** One event. Setting the input to its current value changes nothing:
      React bails out of the update and the effect does not run again. A
      timer event with no outstanding timer is ignored. */
  function Step(e: Editor, ev: Event): (r: Editor)
    ensures Inv(e) ==> Inv(r)
    ensures ev.SetInput? ==> r.input == ev.text
    ensures ev.TimerFire? ==> r.input == e.input && r.pending == None && (Inv(e) ==> !r.processing)
  {
    match ev
    case SetInput(text) =>
      if text == e.input then e else RunEffect(e, text)
    case TimerFire =>
      match e.pending
      case Some(t) => Editor(e.input, Fix(t), false, None)
      case None => e
  }

  /** A run of events from left to right. */
  function Run(e: Editor, evs: seq<Event>): (r: Editor)
    ensures Inv(e) ==> Inv(r)
    decreases |evs|
  {
    if |evs| == 0 then e else Run(Step(e, evs[0]), evs[1..])
  }

  lemma InitialInv()
    ensures Inv(Initial)
  {
    assert IsBlank(Initial.input);
  }

  /** Every state reachable from mount satisfies the invariant: the output
      shown while the indicator is off never belongs to an older input. */
  lemma ReachableInv(evs: seq<Event>)
    ensures Inv(Run(Initial, evs))
    ensures !Run(Initial, evs).processing ==> Run(Initial, evs).output == Fix(Run(Initial, evs).input)
  {
    InitialInv();
  }

  /** Making the input blank clears the output and the indicator at once, and
      leaves no timer that could later overwrite the empty output. */
  lemma BlankInputClears(e: Editor, text: string)
    requires text != e.input && IsBlank(text)
    ensures Step(e, SetInput(text)).output == []
    ensures !Step(e, SetInput(text)).processing
    ensures Step(Step(e, SetInput(text)), TimerFire) == Step(e, SetInput(text))
  {
    assert Trim(text) == [];
  }

  /** A new non-blank input turns the indicator on and replaces any
      outstanding timer by one for the new input; the old output stays until
      that timer fires. */
  lemma NewInputReschedules(e: Editor, text: string)
    requires text != e.input && !IsBlank(text)
    ensures Step(e, SetInput(text)).processing
    ensures Step(e, SetInput(text)).pending == Some(text)
    ensures Step(e, SetInput(text)).output == e.output
  {
    assert Trim(text) != [];
  }

  /** The timer firing shows the correction of the input it was scheduled
      for, which by the invariant is the current input. */
  lemma TimerShowsCorrection(e: Editor)
    requires Inv(e) && e.processing
    ensures Step(e, TimerFire).output == Fix(e.input)
    ensures !Step(e, TimerFire).processing
  {
  }

  lemma {:induction false} RunAppend(e: Editor, a: seq<Event>, b: seq<Event>)
    ensures Run(e, a + b) == Run(Run(e, a), b)
    decreases |a|
  {
    if |a| > 0 {
      assert (a + b)[0] == a[0] && (a + b)[1..] == a[1..] + b;
      RunAppend(Step(e, a[0]), a[1..], b);
    } else {
      assert a + b == b;
    }
  }

  /** The events of typing the successive values `texts` into the input. */
  function Typing(texts: seq<string>): (evs: seq<Event>)
    ensures |evs| == |texts|
    ensures forall k :: 0 <= k < |texts| ==> evs[k] == SetInput(texts[k])
  {
    if |texts| == 0 then [] else [SetInput(texts[0])] + Typing(texts[1..])
  }

  /** After typing, the input holds the last value typed, whatever came
      before. */
  lemma {:induction false} TypingEndsWithLast(e: Editor, texts: seq<string>)
    requires |texts| > 0
    ensures Run(e, Typing(texts)).input == texts[|texts| - 1]
    decreases |texts|
  {
    var evs := Typing(texts);
    assert evs[1..] == Typing(texts[1..]);
    if |texts| > 1 {
      TypingEndsWithLast(Step(e, evs[0]), texts[1..]);
    }
  }

  /** Last input wins: however many values are typed in a burst, once the
      timer fires the page shows the correction of the last one and the
      indicator is off. */
  lemma LastInputWins(e: Editor, texts: seq<string>)
    requires Inv(e) && |texts| > 0
    ensures Run(e, Typing(texts) + [TimerFire]).output == Fix(texts[|texts| - 1])
    ensures !Run(e, Typing(texts) + [TimerFire]).processing
  {
    var typed := Run(e, Typing(texts));
    RunAppend(e, Typing(texts), [TimerFire]);
    TypingEndsWithLast(e, texts);
    assert [TimerFire][1..] == [];
    assert Run(typed, [TimerFire]) == Step(typed, TimerFire);
  }
}
