/**
 * The step cursor behind both tracks of the demonstration: for each mode a
 * cursor into that mode's scripted steps and the list of completed step
 * indices, plus the pure queries and formatters over that state.
 */
module Helper {
  import opened Wrappers
  import opened Data
  import Text

  /** One mode's progress: the completed step indices and the cursor. */
  datatype Track = Track(completed: seq<nat>, current: nat)

  const EmptyTrack := Track([], 0)

  /** 0, 1, ..., n-1. */
  function Range(n: nat): (r: seq<nat>)
    ensures |r| == n
    ensures forall i :: 0 <= i < n ==> r[i] == i
  {
    seq(n, i => i)
  }

  /** The invariant of a track: exactly the steps before the cursor are completed, in order. */
  predicate Consistent(t: Track)
  {
    t.completed == Range(t.current)
  }

  /** `markStepCompleted` on one track: push the cursor, then increment it. */
  function Advance(t: Track): Track
  {
    Track(t.completed + [t.current], t.current + 1)
  }

  /** `indexOf`: the first position holding `x`, or -1. */
  function IndexOf(s: seq<nat>, x: nat): (k: int)
    ensures -1 <= k < |s|
    ensures k >= 0 ==> s[k] == x && forall j :: 0 <= j < k ==> s[j] != x
    ensures k == -1 ==> forall j :: 0 <= j < |s| ==> s[j] != x
    decreases |s|
  {
    if s == [] then -1
    else if s[0] == x then 0
    else
      var k := IndexOf(s[1..], x);
      if k == -1 then -1 else k + 1
  }

  /** `goToPreviousStep` on one track: at a positive cursor, decrement it and
      splice the first occurrence of the new cursor out of `completed`. */
  function Retreat(t: Track): Track
  {
    if t.current > 0 then
      var c := t.current - 1;
      var k := IndexOf(t.completed, c);
      Track(if k > -1 then t.completed[..k] + t.completed[k + 1..] else t.completed, c)
    else
      t
  }

  lemma AdvanceConsistent(t: Track)
    requires Consistent(t)
    ensures Consistent(Advance(t))
    ensures Advance(t) == Track(Range(t.current + 1), t.current + 1)
  {
    assert Range(t.current) + [t.current] == Range(t.current + 1);
  }

  lemma RetreatConsistent(t: Track)
    requires Consistent(t)
    ensures Consistent(Retreat(t))
    ensures t.current == 0 ==> Retreat(t) == t
    ensures t.current > 0 ==> Retreat(t) == Track(Range(t.current - 1), t.current - 1)
  {
    if t.current > 0 {
      var c := t.current - 1;
      assert t.completed[c] == c;
      var k := IndexOf(t.completed, c);
      assert k == c;
      assert t.completed[..k] == Range(c);
    }
  }

  /** Going back one step undoes a correct answer. */
  lemma RetreatUndoesAdvance(t: Track)
    requires Consistent(t)
    ensures Retreat(Advance(t)) == t
  {
    AdvanceConsistent(t);
    RetreatConsistent(Advance(t));
  }

  /** Answering correctly after going back one step restores the track. */
  lemma AdvanceUndoesRetreat(t: Track)
    requires Consistent(t) && t.current > 0
    ensures Advance(Retreat(t)) == t
  {
    RetreatConsistent(t);
    AdvanceConsistent(Retreat(t));
  }

  /** `findIndex` by id: the first language with that id, or -1. */
  function FindIndex(langs: seq<Language>, id: int): (k: int)
    ensures -1 <= k < |langs|
    ensures k >= 0 ==> langs[k].id == id && forall j :: 0 <= j < k ==> langs[j].id != id
    ensures k == -1 ==> forall j :: 0 <= j < |langs| ==> langs[j].id != id
    decreases |langs|
  {
    if langs == [] then -1
    else if langs[0].id == id then 0
    else
      var k := FindIndex(langs[1..], id);
      if k == -1 then -1 else k + 1
  }

  /** The entry after position `k`, wrapping from the last back to the first. */
  function Successor(langs: seq<Language>, k: int): (r: Language)
    requires 0 <= k < |langs|
    ensures r == langs[(k + 1) % |langs|]
  {
    if k < |langs| - 1 then
      assert (k + 1) % |langs| == k + 1;
      langs[k + 1]
    else
      assert k + 1 == |langs|;
      langs[0]
  }

  lemma FoundWhenPresent(langs: seq<Language>, lang: Language)
    requires lang in langs
    ensures FindIndex(langs, lang.id) >= 0
  {
    var j :| 0 <= j < |langs| && langs[j] == lang;
    assert langs[j].id == lang.id;
  }

  /** `find` by id; `undefined` becomes `None`. */
  function FindLanguage(langs: seq<Language>, id: int): (r: Option<Language>)
    ensures r.Some? ==> r.value in langs && r.value.id == id
    ensures r.None? <==> forall j :: 0 <= j < |langs| ==> langs[j].id != id
    ensures r.Some? ==> var k := FindIndex(langs, id);
      0 <= k < |langs| && r == Some(langs[k]) && forall j :: 0 <= j < k ==> langs[j].id != id
  {
    var k := FindIndex(langs, id);
    if k == -1 then None else Some(langs[k])
  }

  /** Math.round(100 * done / total) for non-negative counts, in integers:
      the integer nearest to 100*done/total, halves rounded up. */
  function RoundedPercent(done: nat, total: nat): (r: int)
    requires total > 0
    ensures 2 * total * r <= 200 * done + total < 2 * total * r + 2 * total
  {
    (200 * done + total) / (2 * total)
  }

  lemma FactorBound(t: int, a: int, b: int)
    requires t > 0 && t * a < t * b
    ensures a < b
  {
    assert t * b - t * a == t * (b - a);
  }

  lemma RoundedPercentInRange(done: nat, total: nat)
    requires 0 < total && done <= total
    ensures 0 <= RoundedPercent(done, total) <= 100
    ensures done == total ==> RoundedPercent(done, total) == 100
    ensures done == 0 ==> RoundedPercent(done, total) == 0
  {
    var r := RoundedPercent(done, total);
    var t2 := 2 * total;
    assert 200 * done <= 200 * total;
    FactorBound(t2, r, 101);
    FactorBound(t2, -1, r + 1);
    if done == total {
      FactorBound(t2, 99, r);
    }
    if done == 0 {
      FactorBound(t2, r, 1);
    }
  }

  datatype Feedback =
    | NoStep(message: string)
    | Answered(correct: bool, explanation: string, hint: string, message: string)

  /** What `getCurrentPDAState` reports; `stack` is listed top first. */
  datatype PdaView = PdaView(state: string, input: string, stack: seq<string>, description: string)

  datatype CfgView = CfgView(currentString: string, targetString: string, description: string)

  /** `formatStack`: the stack, given bottom first, is listed top first. */
  function FormatStack(stack: seq<string>): (r: string)
    ensures stack == [] ==> r == "[ empty ]"
    ensures stack != [] ==> "[ " + stack[|stack| - 1] <= r && r[|r| - 2..] == " ]"
  {
    if |stack| == 0 then "[ empty ]" else "[ " + Text.Join(Text.Reverse(stack), ", ") + " ]"
  }

  /** `formatInput`: the special case for the empty input is the general one. */
  function FormatInput(input: string): (r: string)
    ensures r == "\"" + input + "\""
  {
    if |input| == 0 then "\"\"" else "\"" + input + "\""
  }

  /** `formatCFGString` as written: its literal for the empty string holds the
      two characters U+00CE U+00B5, the UTF-8 bytes of "ε" decoded a second time. */
  function FormatCfgStringAsWritten(str: string): (r: string)
    ensures str != [] ==> r == str
    ensures str == [] ==> r == "\U{CE}\U{B5}"
  {
    if |str| == 0 then "\U{CE}\U{B5}" else str
  }

  /** `formatCFGString` as intended: the empty sentential form is shown as ε. */
  function FormatCfgString(str: string): (r: string)
    ensures r != []
    ensures str != [] ==> r == str
    ensures str == [] ==> r == "ε"
  {
    if |str| == 0 then "ε" else str
  }

  /** The as-written literal is not the ε used everywhere else. */
  lemma EmptyCfgStringShownGarbled()
    ensures FormatCfgStringAsWritten("") != "ε"
    ensures |FormatCfgStringAsWritten("")| == 2
  {
  }

  /** `some` over the transition table. */
  function AnyTransitionMatches(ts: seq<Transition>, from: string, input: string, pop: string, to: string): (r: bool)
    ensures r <==> exists i :: 0 <= i < |ts| && ts[i].from == from && ts[i].input == input && ts[i].stackPop == pop && ts[i].to == to
    decreases |ts|
  {
    if ts == [] then false
    else
      (ts[0].from == from && ts[0].input == input && ts[0].stackPop == pop && ts[0].to == to)
      || AnyTransitionMatches(ts[1..], from, input, pop, to)
  }

  /** `some` over the productions. */
  function AnyProductionMatches(ps: seq<Production>, left: string, right: string): (r: bool)
    ensures r <==> exists i :: 0 <= i < |ps| && ps[i].left == left && ps[i].right == right
    decreases |ps|
  {
    if ps == [] then false
    else (ps[0].left == left && ps[0].right == right) || AnyProductionMatches(ps[1..], left, right)
  }

  class EquivalenceHelper {
    /** The example table the helper looks languages up in. */
    const languages: seq<Language>
    var currentLanguage: Option<Language>
    var mode: Mode
    var pdaProgress: Track
    var cfgProgress: Track

    /** `userProgress[m]`. */
    function Progress(m: Mode): Track
      reads this
    {
      if m == PdaMode then pdaProgress else cfgProgress
    }

    /** Both tracks are consistent; a loaded language comes from the table, is
        well typed, and both cursors lie within its step lists. */
    ghost predicate Valid()
      reads this
    {
      && Consistent(pdaProgress)
      && Consistent(cfgProgress)
      && (forall i :: 0 <= i < |languages| ==> WellTyped(languages[i]))
      && (currentLanguage.Some? ==>
            && currentLanguage.value in languages
            && pdaProgress.current <= |currentLanguage.value.pdaSteps|
            && cfgProgress.current <= |currentLanguage.value.cfgSteps|)
    }

    constructor (languages: seq<Language>)
      requires forall i :: 0 <= i < |languages| ==> WellTyped(languages[i])
      ensures Valid()
      ensures this.languages == languages && currentLanguage == None && mode == PdaMode
      ensures pdaProgress == EmptyTrack && cfgProgress == EmptyTrack
    {
      this.languages := languages;
      currentLanguage := None;
      mode := PdaMode;
      pdaProgress := EmptyTrack;
      cfgProgress := EmptyTrack;
    }

    /** `setLanguage`: load the first language with this id and reset; an unknown
        id unloads the language and keeps the old progress. */
    method SetLanguage(id: int) returns (lang: Option<Language>)
      requires Valid()
      modifies this
      ensures Valid()
      ensures lang == FindLanguage(languages, id) && currentLanguage == lang
      ensures lang.Some? ==> mode == PdaMode && pdaProgress == EmptyTrack && cfgProgress == EmptyTrack
      ensures lang.None? ==>
        mode == old(mode) && pdaProgress == old(pdaProgress) && cfgProgress == old(cfgProgress)
    {
      currentLanguage := FindLanguage(languages, id);
      ResetProgress();
      lang := currentLanguage;
    }

    /** `resetProgress`: nothing without a language; otherwise both tracks restart in PDA mode. */
    method ResetProgress()
      modifies this
      ensures currentLanguage == old(currentLanguage)
      ensures old(currentLanguage).None? ==>
        mode == old(mode) && pdaProgress == old(pdaProgress) && cfgProgress == old(cfgProgress)
      ensures old(currentLanguage).Some? ==>
        mode == PdaMode && pdaProgress == EmptyTrack && cfgProgress == EmptyTrack
      ensures old(Valid()) ==> Valid()
    {
      if currentLanguage.None? {
        return;
      }
      pdaProgress := EmptyTrack;
      cfgProgress := EmptyTrack;
      mode := PdaMode;
    }

    /** `getCurrentStep`: the step under the active mode's cursor, if any. */
    function CurrentStep(): (r: Option<Step>)
      reads this
      ensures r.None? <==>
        currentLanguage.None? || Progress(mode).current >= |StepsFor(currentLanguage.value, mode)|
      ensures r.Some? ==> r.value == StepsFor(currentLanguage.value, mode)[Progress(mode).current]
    {
      if currentLanguage.None? then None
      else
        var steps := StepsFor(currentLanguage.value, mode);
        if Progress(mode).current >= |steps| then None else Some(steps[Progress(mode).current])
    }

    /** `getCurrentChoices`. */
    function CurrentChoices(): (r: seq<string>)
      reads this
      ensures CurrentStep().None? ==> r == []
      ensures CurrentStep().Some? ==> r == CurrentStep().value.choices
    {
      var step := CurrentStep();
      if step.Some? then step.value.choices else []
    }

    /** `validateAnswer`: the stored correct index advances the active track by
        one step; anything else, or no current step, changes nothing. */
    method ValidateAnswer(choiceIndex: int) returns (feedback: Feedback)
      requires Valid()
      modifies this
      ensures Valid()
      ensures currentLanguage == old(currentLanguage) && mode == old(mode)
      ensures old(CurrentStep()).None? ==> feedback == NoStep("No current step")
      ensures old(CurrentStep()).Some? ==>
        var step := old(CurrentStep()).value;
        && feedback.Answered?
        && feedback.correct == (choiceIndex == step.correctAnswer)
        && feedback.explanation == step.explanation
        && feedback.hint == step.hint
        && feedback.message ==
             (if feedback.correct then "Correct! " + step.explanation else "Incorrect. " + step.hint)
      ensures feedback.Answered? && feedback.correct ==>
        && Progress(mode).completed == old(Progress(mode).completed) + [old(Progress(mode).current)]
        && Progress(mode).current == old(Progress(mode).current) + 1
      ensures !(feedback.Answered? && feedback.correct) ==> Progress(mode) == old(Progress(mode))
      ensures Progress(Other(mode)) == old(Progress(Other(mode)))
    {
      var step := CurrentStep();
      if step.None? {
        return NoStep("No current step");
      }
      var isCorrect := choiceIndex == step.value.correctAnswer;
      if isCorrect {
        feedback := Answered(true, step.value.explanation, step.value.hint, "Correct! " + step.value.explanation);
        AdvanceConsistent(Progress(mode));
        MarkStepCompleted();
      } else {
        feedback := Answered(false, step.value.explanation, step.value.hint, "Incorrect. " + step.value.hint);
      }
    }

    /** `markStepCompleted`: push the cursor onto `completed` and increment it. */
    method MarkStepCompleted()
      modifies this
      ensures currentLanguage == old(currentLanguage) && mode == old(mode)
      ensures Progress(mode) == Advance(old(Progress(mode)))
      ensures Progress(Other(mode)) == old(Progress(Other(mode)))
    {
      if mode == PdaMode {
        pdaProgress := Advance(pdaProgress);
      } else {
        cfgProgress := Advance(cfgProgress);
      }
    }

    /** `goToPreviousStep`: at cursor 0 nothing; otherwise step back and forget
        that the step was completed. */
    method GoToPreviousStep()
      requires Valid()
      modifies this
      ensures Valid()
      ensures currentLanguage == old(currentLanguage) && mode == old(mode)
      ensures Progress(mode) == Retreat(old(Progress(mode)))
      ensures old(Progress(mode).current) > 0 ==>
        Progress(mode) == Track(Range(old(Progress(mode).current) - 1), old(Progress(mode).current) - 1)
      ensures old(Progress(mode).current) == 0 ==> Progress(mode) == old(Progress(mode))
      ensures Progress(Other(mode)) == old(Progress(Other(mode)))
    {
      RetreatConsistent(Progress(mode));
      if mode == PdaMode {
        pdaProgress := Retreat(pdaProgress);
      } else {
        cfgProgress := Retreat(cfgProgress);
      }
    }

    /** `switchMode`. */
    method SwitchMode() returns (m: Mode)
      modifies this
      ensures mode == Other(old(mode)) && m == mode
      ensures currentLanguage == old(currentLanguage)
      ensures pdaProgress == old(pdaProgress) && cfgProgress == old(cfgProgress)
    {
      mode := Other(mode);
      m := mode;
    }

    /** `isLanguageCompleted`: both cursors have reached their step counts. */
    function IsLanguageCompleted(): (r: bool)
      reads this
      ensures r <==>
        && currentLanguage.Some?
        && pdaProgress.current >= |currentLanguage.value.pdaSteps|
        && cfgProgress.current >= |currentLanguage.value.cfgSteps|
    {
      if currentLanguage.None? then false
      else
        pdaProgress.current >= |currentLanguage.value.pdaSteps|
        && cfgProgress.current >= |currentLanguage.value.cfgSteps|
    }

    /** `getProgress`: the rounded percentage of completed steps over both
        tracks; `None` stands for the NaN of a language with no steps. */
    function ProgressPercent(): (r: Option<int>)
      reads this
      ensures currentLanguage.None? ==> r == Some(0)
      ensures r.None? <==>
        currentLanguage.Some? && |currentLanguage.value.pdaSteps| + |currentLanguage.value.cfgSteps| == 0
      ensures r.Some? && currentLanguage.Some? ==>
        var total := |currentLanguage.value.pdaSteps| + |currentLanguage.value.cfgSteps|;
        var done := |pdaProgress.completed| + |cfgProgress.completed|;
        2 * total * r.value <= 200 * done + total < 2 * total * r.value + 2 * total
    {
      if currentLanguage.None? then Some(0)
      else
        var total := |currentLanguage.value.pdaSteps| + |currentLanguage.value.cfgSteps|;
        var done := |pdaProgress.completed| + |cfgProgress.completed|;
        if total == 0 then None else Some(RoundedPercent(done, total))
    }

    /** `getCurrentPDAState`: only in PDA mode with a current step; the stack is
        handed out top first. */
    function CurrentPdaState(): (r: Option<PdaView>)
      reads this
      requires Valid()
      ensures r.Some? <==> mode == PdaMode && CurrentStep().Some?
      ensures r.Some? ==>
        var s := CurrentStep().value;
        && r.value.state == s.currentState
        && r.value.input == s.remainingInput
        && r.value.description == s.description
        && |r.value.stack| == |s.stack|
        && forall i :: 0 <= i < |s.stack| ==> r.value.stack[i] == s.stack[|s.stack| - 1 - i]
    {
      var step := CurrentStep();
      if step.None? || mode != PdaMode then None
      else
        assert step.value == currentLanguage.value.pdaSteps[pdaProgress.current];
        Some(PdaView(step.value.currentState, step.value.remainingInput,
                     Text.Reverse(step.value.stack), step.value.description))
    }

    /** `getCurrentCFGState`: only in CFG mode with a current step. */
    function CurrentCfgState(): (r: Option<CfgView>)
      reads this
      requires Valid()
      ensures r.Some? <==> mode == CfgMode && CurrentStep().Some?
      ensures r.Some? ==>
        var s := CurrentStep().value;
        r.value == CfgView(s.currentString, s.targetString, s.description)
    {
      var step := CurrentStep();
      if step.None? || mode != CfgMode then None
      else
        assert step.value == currentLanguage.value.cfgSteps[cfgProgress.current];
        Some(CfgView(step.value.currentString, step.value.targetString, step.value.description))
    }

    /** `validatePDATransition`: some transition agrees on source, input, popped
        symbol and target; the stack action is not compared. */
    function ValidatePdaTransition(
      fromState: string, input: string, stackTop: string, toState: string, stackAction: string): (r: bool)
      reads this
      ensures r <==> (currentLanguage.Some? &&
        exists t :: t in currentLanguage.value.pda.transitions &&
          t.from == fromState && t.input == input && t.stackPop == stackTop && t.to == toState)
    {
      currentLanguage.Some? &&
      AnyTransitionMatches(currentLanguage.value.pda.transitions, fromState, input, stackTop, toState)
    }

    /** `validateCFGProduction`: some production has exactly this left and right side. */
    function ValidateCfgProduction(leftSide: string, rightSide: string): (r: bool)
      reads this
      ensures r <==> (currentLanguage.Some? &&
        exists p :: p in currentLanguage.value.cfg.productions && p.left == leftSide && p.right == rightSide)
    {
      currentLanguage.Some? && AnyProductionMatches(currentLanguage.value.cfg.productions, leftSide, rightSide)
    }

    /** `getNextLanguage`: the table entry after the current one, wrapping around. */
    function NextLanguage(): (r: Option<Language>)
      reads this
      requires Valid()
      ensures r.Some? <==> currentLanguage.Some?
      ensures r.Some? ==>
        var k := FindIndex(languages, currentLanguage.value.id);
        0 <= k < |languages| && r.value == languages[(k + 1) % |languages|]
    {
      if currentLanguage.None? then None
      else
        var k := FindIndex(languages, currentLanguage.value.id);
        FoundWhenPresent(languages, currentLanguage.value);
        Some(Successor(languages, k))
    }

    /** Under the invariant, the active mode has no current step exactly when
        its cursor sits at the end of its step list. */
    lemma NoStepIffTrackExhausted()
      requires Valid() && currentLanguage.Some?
      ensures CurrentStep().None? <==> Progress(mode).current == |StepsFor(currentLanguage.value, mode)|
    {
    }

    /** Under the invariant the percentage lies in 0..100, is 100 once the
        language is completed and 0 before anything is completed. */
    lemma ProgressInRange()
      requires Valid() && currentLanguage.Some?
      ensures ProgressPercent().Some? ==> 0 <= ProgressPercent().value <= 100
      ensures ProgressPercent().Some? && IsLanguageCompleted() ==> ProgressPercent().value == 100
      ensures ProgressPercent().Some? && pdaProgress.current == 0 && cfgProgress.current == 0 ==>
        ProgressPercent().value == 0
    {
      var total := |currentLanguage.value.pdaSteps| + |currentLanguage.value.cfgSteps|;
      var done := |pdaProgress.completed| + |cfgProgress.completed|;
      if total > 0 {
        RoundedPercentInRange(done, total);
      }
    }
  }
}
