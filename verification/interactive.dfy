/**
 * The controller's state without the page: which table entry is shown, the
 * active tab, the guard that keeps a second answer out while one is being
 * shown, and how each user action drives the helper's step cursors. The delayed
 * tails of an answer are separate methods, called in the order the timers fire.
 */
module Interactive {
  import opened Wrappers
  import opened Data
  import opened Helper
  import Text

  /** The index after `i` in a table of `n` entries, wrapping to 0. */
  function NextIndex(i: int, n: nat): (r: int)
    requires n > 0
    ensures 0 <= r < n
    ensures 0 <= i < n - 1 ==> r == i + 1
    ensures i == n - 1 ==> r == 0
  {
    (i + 1) % n
  }

  /** The index after `k` language changes starting from `i`. */
  function AfterChanges(i: int, n: nat, k: nat): int
    requires n > 0
  {
    if k == 0 then i else NextIndex(AfterChanges(i, n, k - 1), n)
  }

  /** Within one round, `k` changes move the index `k` places on, wrapping once. */
  lemma {:induction false} AfterChangesIsShift(i: int, n: nat, k: nat)
    requires 0 <= i < n && k <= n
    ensures AfterChanges(i, n, k) == if i + k < n then i + k else i + k - n
  {
    if k > 0 {
      AfterChangesIsShift(i, n, k - 1);
    }
  }

  /** As many changes as there are languages come back to the starting entry. */
  lemma FullCycleReturns(i: int, n: nat)
    requires 0 <= i < n
    ensures AfterChanges(i, n, n) == i
  {
    AfterChangesIsShift(i, n, n);
  }

  class InteractiveController {
    /** `equivalenceData.languages`. */
    const languages: seq<Language>
    const helper: EquivalenceHelper
    var currentLanguageIndex: int
    var mode: Mode
    var isSimulationRunning: bool
    /** Whether an auto-step interval is installed. */
    var autoStepActive: bool

    /** The helper works on the same table, and holds the entry the index points at. */
    ghost predicate Valid()
      reads this, helper
    {
      && helper.Valid()
      && helper.languages == languages
      && 0 <= currentLanguageIndex < |languages|
      && helper.currentLanguage == FindLanguage(languages, languages[currentLanguageIndex].id)
    }

    /** The constructor and `loadInitialLanguage`: the first entry, in PDA mode. */
    constructor (languages: seq<Language>)
      requires |languages| > 0
      requires forall i :: 0 <= i < |languages| ==> WellTyped(languages[i])
      ensures Valid() && fresh(helper)
      ensures this.languages == languages && currentLanguageIndex == 0
      ensures mode == PdaMode && helper.mode == PdaMode
      ensures !isSimulationRunning && !autoStepActive
      ensures helper.currentLanguage.Some?
      ensures helper.pdaProgress == EmptyTrack && helper.cfgProgress == EmptyTrack
    {
      this.languages := languages;
      var h := new EquivalenceHelper(languages);
      helper := h;
      currentLanguageIndex := 0;
      mode := PdaMode;
      isSimulationRunning := false;
      autoStepActive := false;
      new;
      FoundWhenPresent(languages, languages[0]);
      var _ := helper.SetLanguage(languages[0].id);
      helper.mode := mode;
    }

    /** `changeLanguage`: the next entry, wrapping around, with fresh progress in PDA mode. */
    method ChangeLanguage()
      requires Valid()
      modifies this, helper
      ensures Valid()
      ensures currentLanguageIndex == NextIndex(old(currentLanguageIndex), |languages|)
      ensures helper.currentLanguage == FindLanguage(languages, languages[currentLanguageIndex].id)
      ensures helper.currentLanguage.Some?
      ensures mode == PdaMode && helper.mode == PdaMode
      ensures helper.pdaProgress == EmptyTrack && helper.cfgProgress == EmptyTrack
      ensures isSimulationRunning == old(isSimulationRunning) && autoStepActive == old(autoStepActive)
    {
      currentLanguageIndex := (currentLanguageIndex + 1) % |languages|;
      FoundWhenPresent(languages, languages[currentLanguageIndex]);
      var _ := helper.SetLanguage(languages[currentLanguageIndex].id);
      mode := PdaMode;
    }

    /** `resetSimulation`: the same language, fresh progress, PDA mode. */
    method ResetSimulation()
      requires Valid()
      modifies this, helper
      ensures Valid()
      ensures currentLanguageIndex == old(currentLanguageIndex)
      ensures helper.currentLanguage == old(helper.currentLanguage)
      ensures mode == PdaMode && helper.mode == PdaMode
      ensures helper.pdaProgress == EmptyTrack && helper.cfgProgress == EmptyTrack
      ensures isSimulationRunning == old(isSimulationRunning) && autoStepActive == old(autoStepActive)
    {
      FoundWhenPresent(languages, languages[currentLanguageIndex]);
      helper.ResetProgress();
      mode := PdaMode;
    }

    /** `goToPreviousStep`: the helper steps back on the track of its own mode,
        then the refresh puts the helper in the controller's mode. */
    method GoToPreviousStep()
      requires Valid()
      modifies helper
      ensures Valid()
      ensures helper.Progress(old(helper.mode)) == Retreat(old(helper.Progress(helper.mode)))
      ensures helper.Progress(Other(old(helper.mode))) == old(helper.Progress(Other(helper.mode)))
      ensures helper.mode == mode
      ensures helper.currentLanguage == old(helper.currentLanguage)
    {
      helper.GoToPreviousStep();
      helper.mode := mode;
    }

    /** `switchTab`: the tab already shown changes nothing; the other one sets
        both modes. */
    method SwitchTab(target: Mode)
      requires Valid()
      modifies this, helper
      ensures Valid()
      ensures target == old(mode) ==> mode == old(mode) && helper.mode == old(helper.mode)
      ensures target != old(mode) ==> mode == target && helper.mode == target
      ensures currentLanguageIndex == old(currentLanguageIndex)
      ensures helper.currentLanguage == old(helper.currentLanguage)
      ensures helper.pdaProgress == old(helper.pdaProgress) && helper.cfgProgress == old(helper.cfgProgress)
      ensures isSimulationRunning == old(isSimulationRunning) && autoStepActive == old(autoStepActive)
    {
      if target == mode {
        return;
      }
      mode := target;
      helper.mode := target;
    }

    /** `checkModeSwitch`: once the active track has no step left, the helper
        turns to the other mode; when that one still has a step, a switch of
        the tab to it is scheduled and returned. */
    method CheckModeSwitch() returns (scheduled: Option<Mode>)
      requires Valid()
      modifies helper
      ensures Valid()
      ensures old(helper.CurrentStep()).Some? ==> helper.mode == old(helper.mode) && scheduled == None
      ensures old(helper.CurrentStep()).None? ==> helper.mode == Other(mode)
      ensures old(helper.CurrentStep()).None? ==>
        (scheduled.Some? <==> helper.CurrentStep().Some?)
      ensures scheduled.Some? ==> scheduled.value == Other(mode)
      ensures helper.currentLanguage == old(helper.currentLanguage)
      ensures helper.pdaProgress == old(helper.pdaProgress) && helper.cfgProgress == old(helper.cfgProgress)
    {
      scheduled := None;
      var step := helper.CurrentStep();
      if step.None? {
        var other := Other(mode);
        helper.mode := other;
        var otherStep := helper.CurrentStep();
        if otherStep.Some? {
          scheduled := Some(other);
        }
      }
    }

    /** The synchronous part of `updateActionChoices`: the helper is put in the
        controller's mode before the choices are read. */
    method UpdateActionChoices() returns (choices: seq<string>)
      requires Valid()
      modifies helper
      ensures Valid()
      ensures helper.mode == mode
      ensures choices == helper.CurrentChoices()
      ensures helper.CurrentStep().None? ==> choices == []
      ensures helper.currentLanguage == old(helper.currentLanguage)
      ensures helper.pdaProgress == old(helper.pdaProgress) && helper.cfgProgress == old(helper.cfgProgress)
    {
      helper.mode := mode;
      choices := helper.CurrentChoices();
    }

    /** The synchronous part of `selectChoice`: ignored while an answer is being
        shown; otherwise the guard is raised and the helper judges the index. */
    method SelectChoice(choiceIndex: int) returns (feedback: Option<Feedback>)
      requires Valid()
      modifies this, helper
      ensures Valid()
      ensures old(isSimulationRunning) ==> feedback == None && isSimulationRunning
      ensures old(isSimulationRunning) ==>
        helper.mode == old(helper.mode)
        && helper.pdaProgress == old(helper.pdaProgress) && helper.cfgProgress == old(helper.cfgProgress)
      ensures !old(isSimulationRunning) ==> feedback.Some? && isSimulationRunning
      ensures !old(isSimulationRunning) && old(helper.CurrentStep()).Some? ==>
        && feedback.value.Answered?
        && feedback.value.correct == (choiceIndex == old(helper.CurrentStep()).value.correctAnswer)
      ensures !old(isSimulationRunning) && feedback.value.Answered? && feedback.value.correct ==>
        helper.Progress(helper.mode) == Advance(old(helper.Progress(helper.mode)))
      ensures !(feedback.Some? && feedback.value.Answered? && feedback.value.correct) ==>
        helper.Progress(helper.mode) == old(helper.Progress(helper.mode))
      ensures helper.Progress(Other(helper.mode)) == old(helper.Progress(Other(helper.mode)))
      ensures helper.mode == old(helper.mode) && mode == old(mode)
      ensures currentLanguageIndex == old(currentLanguageIndex) && autoStepActive == old(autoStepActive)
      ensures helper.currentLanguage == old(helper.currentLanguage)
    {
      if isSimulationRunning {
        return None;
      }
      isSimulationRunning := true;
      var fb := helper.ValidateAnswer(choiceIndex);
      feedback := Some(fb);
    }

    /** The tail of `selectChoice` after a correct answer: check for a mode
        switch, then (after the scheduled tab switch, if any) refresh the choices
        and lower the guard. */
    method FinishCorrectChoice() returns (scheduled: Option<Mode>)
      requires Valid()
      modifies this, helper
      ensures Valid()
      ensures !isSimulationRunning
      ensures helper.mode == mode
      ensures scheduled.Some? ==> mode == scheduled.value && mode == Other(old(mode))
      ensures scheduled.None? ==> mode == old(mode)
      ensures helper.currentLanguage == old(helper.currentLanguage)
      ensures helper.pdaProgress == old(helper.pdaProgress) && helper.cfgProgress == old(helper.cfgProgress)
      ensures currentLanguageIndex == old(currentLanguageIndex) && autoStepActive == old(autoStepActive)
    {
      scheduled := CheckModeSwitch();
      if scheduled.Some? {
        SwitchTab(scheduled.value);
      }
      var _ := UpdateActionChoices();
      isSimulationRunning := false;
    }

    /** The tail of `selectChoice` after a wrong answer: only the guard is lowered. */
    method FinishIncorrectChoice()
      requires Valid()
      modifies this
      ensures Valid()
      ensures !isSimulationRunning
      ensures mode == old(mode) && currentLanguageIndex == old(currentLanguageIndex)
      ensures autoStepActive == old(autoStepActive)
    {
      isSimulationRunning := false;
    }

    /** `toggleAutoStep`: answer the current step with its stored correct index,
        when there is a step and the index is not negative. */
    method ToggleAutoStep() returns (feedback: Option<Feedback>)
      requires Valid()
      modifies this, helper
      ensures Valid()
      ensures !(old(helper.CurrentStep()).Some? && old(helper.CurrentStep()).value.correctAnswer >= 0) ==>
        && feedback == None
        && isSimulationRunning == old(isSimulationRunning)
        && helper.pdaProgress == old(helper.pdaProgress) && helper.cfgProgress == old(helper.cfgProgress)
      ensures old(helper.CurrentStep()).Some? && old(helper.CurrentStep()).value.correctAnswer >= 0
              && !old(isSimulationRunning) ==>
        && feedback.Some? && feedback.value.Answered? && feedback.value.correct
        && helper.Progress(helper.mode) == Advance(old(helper.Progress(helper.mode)))
      ensures old(isSimulationRunning) ==> feedback == None && isSimulationRunning
      ensures feedback.Some? ==> feedback.value.Answered? && feedback.value.correct
      ensures feedback.None? ==>
        helper.pdaProgress == old(helper.pdaProgress) && helper.cfgProgress == old(helper.cfgProgress)
      ensures helper.Progress(Other(helper.mode)) == old(helper.Progress(Other(helper.mode)))
      ensures helper.mode == old(helper.mode) && mode == old(mode)
      ensures currentLanguageIndex == old(currentLanguageIndex) && autoStepActive == old(autoStepActive)
      ensures helper.currentLanguage == old(helper.currentLanguage)
    {
      feedback := None;
      var step := helper.CurrentStep();
      if step.Some? && step.value.correctAnswer >= 0 {
        feedback := SelectChoice(step.value.correctAnswer);
      }
    }

    /** `startAutoStep`: (re)install the interval. */
    method StartAutoStep()
      modifies this
      ensures autoStepActive
      ensures mode == old(mode) && currentLanguageIndex == old(currentLanguageIndex)
      ensures isSimulationRunning == old(isSimulationRunning)
    {
      autoStepActive := true;
    }

    /** `stopAutoStep`. */
    method StopAutoStep()
      modifies this
      ensures !autoStepActive
      ensures mode == old(mode) && currentLanguageIndex == old(currentLanguageIndex)
      ensures isSimulationRunning == old(isSimulationRunning)
    {
      autoStepActive := false;
    }

    /** One tick of the auto-step interval: answer correctly when possible,
        otherwise remove the interval. */
    method AutoStepTick() returns (feedback: Option<Feedback>)
      requires Valid() && autoStepActive
      modifies this, helper
      ensures Valid()
      ensures old(helper.CurrentStep()).Some? && old(helper.CurrentStep()).value.correctAnswer >= 0 ==>
        autoStepActive
      ensures !(old(helper.CurrentStep()).Some? && old(helper.CurrentStep()).value.correctAnswer >= 0) ==>
        && !autoStepActive && feedback == None
        && helper.pdaProgress == old(helper.pdaProgress) && helper.cfgProgress == old(helper.cfgProgress)
      ensures old(isSimulationRunning) ==> feedback == None && isSimulationRunning
      ensures feedback.Some? ==> feedback.value.Answered? && feedback.value.correct
      ensures feedback.None? ==>
        helper.pdaProgress == old(helper.pdaProgress) && helper.cfgProgress == old(helper.cfgProgress)
      ensures helper.Progress(Other(helper.mode)) == old(helper.Progress(Other(helper.mode)))
      ensures helper.mode == old(helper.mode) && mode == old(mode)
      ensures currentLanguageIndex == old(currentLanguageIndex)
      ensures helper.currentLanguage == old(helper.currentLanguage)
    {
      feedback := None;
      var step := helper.CurrentStep();
      if step.Some? && step.value.correctAnswer >= 0 {
        feedback := SelectChoice(step.value.correctAnswer);
      } else {
        StopAutoStep();
      }
    }

    /** The text `updatePDAState` puts in the stack box, as written: the view's
        stack, already turned top first, is turned once more. */
    function StackTextAsWritten(): (r: Option<string>)
      reads this, helper
      requires Valid()
      ensures r.Some? <==> helper.CurrentPdaState().Some?
      ensures r.Some? ==>
        var stack := helper.CurrentStep().value.stack;
        r.value == if stack == [] then "[ empty ]" else "[ " + Text.Join(stack, ", ") + " ]"
    {
      var view := helper.CurrentPdaState();
      if view.None? then None
      else
        ghost var stack := helper.CurrentStep().value.stack;
        assert view.value.stack == Text.Reverse(stack) by {
          Text.ReverseOf(stack, view.value.stack);
        }
        Text.ReverseReverse(stack);
        Some(FormatStack(view.value.stack))
    }

    /** The stack box as intended: the scripted stack, bottom first, is listed top first. */
    function StackText(): (r: Option<string>)
      reads this, helper
      requires Valid()
      ensures r.Some? <==> helper.CurrentPdaState().Some?
      ensures r.Some? ==>
        var stack := helper.CurrentStep().value.stack;
        && (stack == [] ==> r.value == "[ empty ]")
        && (stack != [] ==> "[ " + stack[|stack| - 1] <= r.value)
        && (stack != [] ==> r.value == "[ " + Text.Join(Text.Reverse(stack), ", ") + " ]")
    {
      var view := helper.CurrentPdaState();
      if view.None? then None else Some(FormatStack(helper.CurrentStep().value.stack))
    }
  }

  /** With the stack Z, A of the second scripted step of aⁿbⁿ (A on top), the
      box as written reads "[ Z, A ]": bottom first. */
  lemma StackShownBottomFirst()
    ensures FormatStack(Text.Reverse(["Z", "A"])) == "[ Z, A ]"
    ensures FormatStack(["Z", "A"]) == "[ A, Z ]"
  {
    assert Text.Reverse(["Z", "A"]) == ["A", "Z"];
    assert Text.Reverse(["A", "Z"]) == ["Z", "A"];
    assert Text.Join(["A", "Z"], ", ") == "A" + ", " + "Z";
    assert Text.Join(["Z", "A"], ", ") == "Z" + ", " + "A";
  }
}
