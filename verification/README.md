# PDA–CFG equivalence experiment: a verified model of its logic

The experiment is a browser exercise about pushdown automata (PDAs) and
context-free grammars (CFGs). For each language in a fixed table it shows a
PDA and an equivalent grammar. The learner steps through a scripted run of
each, picking the right move from a list of choices at every step. Beneath
the drawing code sit five pieces of sequential logic, and this project
models them in Dafny and proves what they promise:

- **`Helper`** (`helper.dfy`) models `EquivalenceHelper`.
  - Each mode (PDA, CFG) has a cursor into its scripted steps and a `completed` list.
  - A correct answer moves the cursor on; "previous step" moves it back.
  - Progress is a rounded percentage, and there are lookup validators.
  - The invariant `completed == [0 .. current-1]` is proved to hold across all of these.
- **`Grammar`** (`grammar.dfy`) models the derivation state of `CFGVisualizer`.
  - The state is the sentential form (a sequence of one-symbol strings) and the derivation tree.
  - The operations are: find the k-th occurrence of a nonterminal, splice in a right-hand side, expand the matching leaf of the tree, test for completion and list the applicable productions.
  - The central theorem (`StepKeepsFrontier`, used by `ApplyProduction`) is that a step made by `applyProduction` keeps the tree's frontier equal to the sentential form.
  - The agreement holds along `applyProduction` steps only. The controller itself does not derive that way: it overwrites the form with `updateDerivation` (see "## Left out").
- **`Interactive`** (`interactive.dfy`) models the state of `InteractiveController`.
  - It covers cyclic language selection, the tab/mode switch, the automatic mode switch once a track is exhausted, and the guard `isSimulationRunning` against a second answer.
  - It also covers auto-stepping and the text of the stack box.
- **`Diagram`** (`diagram.dfy`) models the discrete parts of `PDAVisualizer`.
  - Transitions are grouped by (source, target) in insertion order, and reverse-direction flags are set.
  - Each group is classified for drawing.
  - The self-loop label layout is chosen, and the even/odd two-column split is made.
  - The field updates of `setPDA`, `updateState` and `reset` are included.
- **`App`** (`app.dfy`) models `EquivalenceExperiment`: the dependency check at start-up, the responsive breakpoints, and the interaction log capped at 100 entries.

`Data` (`data.dfy`) holds the records of the example table and the first
language, aⁿbⁿ, as a fixture. `Text` (`text.dfy`) holds the JavaScript
built-ins the code relies on (`join`, `split('')`, `reverse`, decimal
rendering), and `Wrappers` holds `Option`.

How the model is built:

- Objects whose fields the code updates in place are Dafny classes.
- Their methods are proved against pure specification functions, and the lemmas are stated about those functions.
- `null`/`undefined` results become `Option`.
- The global `equivalenceData.languages` is a constructor argument.
- The clock, the page URL, the viewport width and the presence of browser globals are parameters.

## Model

Source paths are relative to the repository root.

| member | source | states |
|---|---|---|
| Helper.IndexOf | experiment/simulation/js/helper.js:98-102 | `indexOf`: the first position holding the value, or -1 exactly when it is absent |
| Helper.AdvanceConsistent | experiment/simulation/js/helper.js:87-91 | marking a step completed keeps `completed == [0..current-1]` and moves the cursor up by one |
| Helper.RetreatConsistent | experiment/simulation/js/helper.js:94-104 | going back keeps the invariant: a no-op at cursor 0, otherwise the cursor drops by one and its index leaves `completed` |
| Helper.RetreatUndoesAdvance | experiment/simulation/js/helper.js:87-104 | going back right after a correct answer restores the track exactly |
| Helper.AdvanceUndoesRetreat | experiment/simulation/js/helper.js:87-104 | answering again after going back restores the track exactly |
| Helper.FindIndex | experiment/simulation/js/helper.js:240-242 | `findIndex` by id: the first matching language, with no match before it; -1 exactly when none matches |
| Helper.Successor | experiment/simulation/js/helper.js:244-248 | the entry after position k, wrapping from the last entry to the first (`(k+1) mod n`) |
| Helper.FoundWhenPresent | experiment/simulation/js/helper.js:240-242 | a language that is in the table is found by its id |
| Helper.FindLanguage | experiment/simulation/js/helper.js:16 | `find` by id: the first table entry with that id (no earlier entry has it), or None exactly when no entry has it |
| Helper.RoundedPercent | experiment/simulation/js/helper.js:134 | `Math.round(100*done/total)` in integers: the result r satisfies r - 1/2 <= 100*done/total < r + 1/2 |
| Helper.RoundedPercentInRange | experiment/simulation/js/helper.js:123-135 | the percentage lies in 0..100; it is 100 when everything is done and 0 when nothing is |
| Helper.FormatStack | experiment/simulation/js/helper.js:183-186 | `[ empty ]` for no stack; otherwise starts with `[ ` and the last element, and ends with ` ]` |
| Helper.FormatInput | experiment/simulation/js/helper.js:189-192 | the input in double quotes; the empty-input special case coincides with the general one |
| Helper.FormatCfgStringAsWritten | experiment/simulation/js/helper.js:195-198 | as written: a non-empty form is itself, and the empty form gives the two characters of line 196 |
| Helper.FormatCfgString | experiment/simulation/js/helper.js:195-198 | as intended: a non-empty form is itself, and the empty form is `ε` |
| Helper.EmptyCfgStringShownGarbled | experiment/simulation/js/helper.js:196 | the literal written for the empty form is not `ε` |
| Helper.AnyTransitionMatches | experiment/simulation/js/helper.js:219-224 | true iff some transition agrees on source, input, popped symbol and target |
| Helper.AnyProductionMatches | experiment/simulation/js/helper.js:231-234 | true iff some production has exactly this left and right side |
| Helper.EquivalenceHelper.constructor | experiment/simulation/js/helper.js:4-12 | no language, PDA mode, both tracks empty; the invariant holds |
| Helper.EquivalenceHelper.SetLanguage | experiment/simulation/js/helper.js:15-19 | the first table entry with the id is loaded and returned; a found language resets both tracks and the mode; an unknown id leaves the tracks as they were |
| Helper.EquivalenceHelper.ResetProgress | experiment/simulation/js/helper.js:22-38 | a no-op without a language; otherwise both tracks are emptied and the mode is PDA |
| Helper.EquivalenceHelper.CurrentStep | experiment/simulation/js/helper.js:41-54 | None iff no language or the active cursor is at or past that mode's step count; otherwise the step under the cursor |
| Helper.EquivalenceHelper.CurrentChoices | experiment/simulation/js/helper.js:57-60 | the current step's choices, or none without a step |
| Helper.EquivalenceHelper.ValidateAnswer | experiment/simulation/js/helper.js:63-84 | without a step: "No current step" and no change; the stored index advances the active track only; any other index changes nothing; the invariant holds |
| Helper.EquivalenceHelper.MarkStepCompleted | experiment/simulation/js/helper.js:87-91 | the active track becomes `Advance` of the old one; the other track is unchanged |
| Helper.EquivalenceHelper.GoToPreviousStep | experiment/simulation/js/helper.js:94-104 | the active track becomes `Retreat` of the old one (no-op at 0); the other is unchanged; the invariant holds |
| Helper.EquivalenceHelper.SwitchMode | experiment/simulation/js/helper.js:107-110 | the mode flips to the other one and is returned; progress is unchanged |
| Helper.EquivalenceHelper.IsLanguageCompleted | experiment/simulation/js/helper.js:113-120 | true iff a language is loaded and both cursors have reached their step counts |
| Helper.EquivalenceHelper.ProgressPercent | experiment/simulation/js/helper.js:123-135 | 0 without a language; undefined (NaN) iff the language has no steps at all; otherwise the rounded share of completed steps over both modes |
| Helper.EquivalenceHelper.CurrentPdaState | experiment/simulation/js/helper.js:138-148 | present iff in PDA mode with a current step; state, input and description come from the step, and the stack is the step's stack reversed (top first) |
| Helper.EquivalenceHelper.CurrentCfgState | experiment/simulation/js/helper.js:151-160 | present iff in CFG mode with a current step; it carries that step's strings |
| Helper.EquivalenceHelper.ValidatePdaTransition | experiment/simulation/js/helper.js:215-225 | true iff a language is loaded and one of its transitions matches; the stack action is ignored |
| Helper.EquivalenceHelper.ValidateCfgProduction | experiment/simulation/js/helper.js:228-235 | true iff a language is loaded and one of its productions matches exactly |
| Helper.EquivalenceHelper.NextLanguage | experiment/simulation/js/helper.js:238-250 | None without a language; otherwise the table entry cyclically after the current one |
| Helper.EquivalenceHelper.NoStepIffTrackExhausted | experiment/simulation/js/helper.js:41-54 | under the invariant there is no current step exactly when the active cursor equals the step count |
| Helper.EquivalenceHelper.ProgressInRange | experiment/simulation/js/helper.js:113-135 | under the invariant the percentage is in 0..100; it is 100 once the language is completed and 0 before any step is done |
| Data.Other | experiment/simulation/js/helper.js:108 | the other mode is never the same mode |
| Grammar.RightSymbols | experiment/simulation/js/cfg-visualizer.js:104 | the inserted symbols: none for `ε`, otherwise one per character |
| Grammar.CountConcat | experiment/simulation/js/cfg-visualizer.js:115-124 | occurrence counts add up over concatenation |
| Grammar.KthIndex | experiment/simulation/js/cfg-visualizer.js:114-126 | the index of the k-th occurrence: it holds the symbol with exactly k occurrences before it; -1 exactly when k < 0 or there are at most k occurrences |
| Grammar.KthIsUnique | experiment/simulation/js/cfg-visualizer.js:114-126 | two positions that are both the k-th occurrence are the same |
| Grammar.CandsAreCandidates | experiment/simulation/js/cfg-visualizer.js:155-171 | every path in the preorder candidate list leads to a childless node carrying the nonterminal |
| Grammar.CandsCount | experiment/simulation/js/cfg-visualizer.js:155-171 | there are exactly as many candidate leaves as occurrences of the symbol in the frontier |
| Grammar.ReplaceSplices | experiment/simulation/js/cfg-visualizer.js:129-171 | giving the k-th candidate leaf children splices their frontier into the tree's frontier at the k-th occurrence |
| Grammar.NewChildren | experiment/simulation/js/cfg-visualizer.js:135-151 | for `ε`: one terminal `ε` child with id `<parent>_epsilon`; otherwise one child per character at level+1, with id `<parent>_<i>`, terminal iff declared terminal |
| Grammar.NewChildIdsDistinct | experiment/simulation/js/cfg-visualizer.js:135-151 | no two new children share an id, since the decimal renderings of distinct indices differ |
| Text.NatToString | experiment/simulation/js/cfg-visualizer.js:148 | the rendering of an index in a template string: decimal digits that denote the number, with no leading zero |
| Grammar.NewChildrenFrontier | experiment/simulation/js/cfg-visualizer.js:135-151 | the new children spell the right-hand side's symbols |
| Grammar.ExpandTree | experiment/simulation/js/cfg-visualizer.js:129-152 | without a k-th candidate the tree is unchanged; otherwise it is the tree with that leaf's children replaced |
| Grammar.StepKeepsFrontier | experiment/simulation/js/cfg-visualizer.js:95-152 | when the tree spells the form, it spells the form again after the step: prefix, right-hand side, suffix |
| Grammar.IsComplete | experiment/simulation/js/cfg-visualizer.js:690-694 | true iff every cell is a terminal or `ε` |
| Grammar.DerivationString | experiment/simulation/js/cfg-visualizer.js:685-687 | `ε` for the empty form; otherwise the cells joined |
| Grammar.DerivationStringRoundTrip | experiment/simulation/js/cfg-visualizer.js:685-687 | splitting the printed form of one-character cells gives the cells back |
| Grammar.DeclaredIn | experiment/simulation/js/cfg-visualizer.js:701-703 | a value is among the filtered cells exactly when it is a cell of the form and a declared nonterminal |
| Grammar.DeclaredInKeepsOrder | experiment/simulation/js/cfg-visualizer.js:701-703 | the filter keeps the order of first occurrences: of two declared nonterminals in the form, one comes first among the filtered cells exactly when it comes first in the form |
| Grammar.Dedup | experiment/simulation/js/cfg-visualizer.js:706 | the same elements, each once |
| Grammar.DedupKeepsFirstOccurrenceOrder | experiment/simulation/js/cfg-visualizer.js:706 | the deduplicated list orders elements by their first occurrence |
| Grammar.ProductionsOf | experiment/simulation/js/cfg-visualizer.js:710 | the productions of one nonterminal, with their multiplicities |
| Grammar.ProductionsOfAll | experiment/simulation/js/cfg-visualizer.js:709-712 | the productions of the listed nonterminals, each with its multiplicity in the grammar |
| Grammar.ProductionsOfAllGrouped | experiment/simulation/js/cfg-visualizer.js:709-712 | the productions come grouped by nonterminal, in list order |
| Grammar.AvailableProductions | experiment/simulation/js/cfg-visualizer.js:697-715 | a production is listed iff its left side is a declared nonterminal occurring in the form, with its multiplicity in the grammar |
| Grammar.AvailableProductionsGrouped | experiment/simulation/js/cfg-visualizer.js:697-715 | the listed productions are ordered by where their nonterminal first occurs in the form (`Position(d, ·)`), both among the filtered cells and in the form itself |
| Grammar.CompleteMeansNothingApplies | experiment/simulation/js/cfg-visualizer.js:690-715 | when terminals and nonterminals are disjoint, a complete form offers no production and no occurrence |
| Grammar.Counter.constructor | experiment/simulation/js/cfg-visualizer.js:155 | the shared occurrence counter starts at 0 |
| Grammar.CfgVisualizer.constructor | experiment/simulation/js/cfg-visualizer.js:5-23 | no grammar, an empty form, no tree |
| Grammar.CfgVisualizer.SetCfg | experiment/simulation/js/cfg-visualizer.js:77-81 | the grammar is stored and the derivation restarts from its start symbol |
| Grammar.CfgVisualizer.InitializeDerivation | experiment/simulation/js/cfg-visualizer.js:84-92 | the form is the start symbol alone and the tree is a single childless root at level 0 with id `root`; they agree |
| Grammar.CfgVisualizer.Reset | experiment/simulation/js/cfg-visualizer.js:679-682 | the same as a fresh derivation |
| Grammar.CfgVisualizer.FindNonTerminalPosition | experiment/simulation/js/cfg-visualizer.js:114-126 | the k-th occurrence when the symbol is a declared nonterminal, otherwise -1 |
| Grammar.CfgVisualizer.FindTreeNode | experiment/simulation/js/cfg-visualizer.js:155-171 | the path of the k-th candidate in preorder, counting on from the shared counter, which then stands at k; None when there is none, and the counter has advanced past all candidates of the subtree |
| Grammar.CfgVisualizer.UpdateDerivationTree | experiment/simulation/js/cfg-visualizer.js:129-152 | the tree becomes `ExpandTree` of the old tree; the form is untouched |
| Grammar.Spliced | experiment/simulation/js/cfg-visualizer.js:103-105 | the rewritten form keeps the cells before and after the rewritten one, and its length changes by the right side's length minus one |
| Grammar.RewriteStep | experiment/simulation/js/cfg-visualizer.js:95-111 | when the occurrence exists, it lies inside the form, and a step from a form the tree agrees with leaves the expanded tree's frontier equal to the spliced form |
| Grammar.EmptyRightDrifts | experiment/simulation/js/cfg-visualizer.js:104-148 | an empty right-hand side breaks the agreement: rewriting the start symbol by `""` empties the form, while the expanded root has no children and still spells the start symbol |
| Grammar.CfgVisualizer.Rewrite | experiment/simulation/js/cfg-visualizer.js:103-108 | once the occurrence is found: the form is spliced, the tree expanded, and agreement kept |
| Grammar.CfgVisualizer.ApplyProduction | experiment/simulation/js/cfg-visualizer.js:95-111 | false with nothing changed when the occurrence is missing; otherwise the form is prefix + right-hand side + suffix, its length changes by the right side's length minus one, the tree is expanded, and agreement of tree and form is kept |
| Grammar.CfgVisualizer.IsDerivationComplete | experiment/simulation/js/cfg-visualizer.js:690-694 | the current form is complete for the loaded grammar |
| Grammar.CfgVisualizer.CurrentDerivationString | experiment/simulation/js/cfg-visualizer.js:685-687 | `DerivationString` of the current form: `ε` for the empty form; for a non-empty form of single characters, splitting the text gives the form back |
| Grammar.CfgVisualizer.CurrentAvailableProductions | experiment/simulation/js/cfg-visualizer.js:697-715 | exactly the productions of the nonterminals that occur in the current form |
| Interactive.NextIndex | experiment/simulation/js/interactive.js:98 | `(i+1) mod n` stays in range, moves up by one and wraps at the end |
| Interactive.AfterChangesIsShift | experiment/simulation/js/interactive.js:98 | k ≤ n changes move the index k places on, wrapping once |
| Interactive.FullCycleReturns | experiment/simulation/js/interactive.js:98 | n changes come back to the starting language |
| Interactive.InteractiveController.constructor | experiment/simulation/js/interactive.js:5-17 | with `loadInitialLanguage` (85-94): first table entry, PDA mode in both objects, fresh progress, guard down |
| Interactive.InteractiveController.ChangeLanguage | experiment/simulation/js/interactive.js:97-107 | the index moves cyclically on; that entry is loaded with fresh progress and PDA mode |
| Interactive.InteractiveController.ResetSimulation | experiment/simulation/js/interactive.js:110-117 | the same language with fresh progress and PDA mode |
| Interactive.InteractiveController.GoToPreviousStep | experiment/simulation/js/interactive.js:131-138 | the helper's active track steps back; the refresh then sets the helper's mode to the controller's |
| Interactive.InteractiveController.SwitchTab | experiment/simulation/js/interactive.js:600-663 | switching to the shown tab changes nothing; switching to the other one sets both modes; progress is untouched |
| Interactive.InteractiveController.CheckModeSwitch | experiment/simulation/js/interactive.js:422-438 | nothing while a step exists; otherwise the helper turns to the other mode, and a tab switch is scheduled iff that mode has a step |
| Interactive.InteractiveController.UpdateActionChoices | experiment/simulation/js/interactive.js:322-362 | the helper's mode is set to the controller's before the choices are read; no step means no choices |
| Interactive.InteractiveController.SelectChoice | experiment/simulation/js/interactive.js:365-386 | ignored while the guard is up; otherwise the guard goes up and the helper judges the index, advancing only on the stored answer |
| Interactive.InteractiveController.FinishCorrectChoice | experiment/simulation/js/interactive.js:386-402 | the delayed tail of a correct answer: the mode check, the scheduled tab switch, then the guard comes down |
| Interactive.InteractiveController.FinishIncorrectChoice | experiment/simulation/js/interactive.js:403-417 | the delayed tail of a wrong answer: only the guard comes down |
| Interactive.InteractiveController.ToggleAutoStep | experiment/simulation/js/interactive.js:570-578 | selects the stored answer only when a step exists with a non-negative answer, and then it is judged correct; while an answer is being shown nothing is judged and the guard stays up; without feedback both tracks are unchanged; mode, language and interval are kept |
| Interactive.InteractiveController.StartAutoStep | experiment/simulation/js/interactive.js:546-559 | the interval is (re)installed |
| Interactive.InteractiveController.StopAutoStep | experiment/simulation/js/interactive.js:562-567 | the interval is removed |
| Interactive.InteractiveController.AutoStepTick | experiment/simulation/js/interactive.js:551-558 | answers correctly when a step has a non-negative answer, otherwise stops auto-stepping; while an answer is being shown nothing is judged; without feedback both tracks are unchanged; mode and language are kept |
| Interactive.InteractiveController.StackTextAsWritten | experiment/simulation/js/interactive.js:219 | as written: the already reversed stack is formatted again, so the box lists the stack bottom first |
| Interactive.InteractiveController.StackText | experiment/simulation/js/interactive.js:209-220 | as intended: `[ empty ]` for an empty stack, otherwise `[ ` + the scripted stack reversed (top first) joined by `, ` + ` ]` |
| Interactive.StackShownBottomFirst | experiment/simulation/js/interactive.js:219 | for the stack Z, A (A on top) the box shows `[ Z, A ]` instead of `[ A, Z ]` |
| Diagram.FindState | simulation/js/pda-visualizer.js:284-285 | `states.find` by id: a state with that id, present iff one exists |
| Diagram.Kept | simulation/js/pda-visualizer.js:283-287 | exactly the transitions whose two ends are states |
| Diagram.KeysOf | simulation/js/pda-visualizer.js:289-299 | each (source, target) pair of the drawn transitions, once |
| Diagram.Members | simulation/js/pda-visualizer.js:301 | exactly the transitions with that key; none for a key that does not occur |
| Diagram.MembersOfAppend | simulation/js/pda-visualizer.js:281-302 | the members of a concatenation are those of the first part followed by those of the second, so a group keeps source order and repeats |
| Diagram.MembersOfOne | simulation/js/pda-visualizer.js:292-301 | one transition is a member of its own key's group only |
| Diagram.GroupsOf | simulation/js/pda-visualizer.js:281-302 | one group per key, holding that key's transitions, flag unset |
| Diagram.FindGroup | simulation/js/pda-visualizer.js:292 | `Map.has`: the index of the group with these ends, -1 iff none |
| Diagram.WithReverse | simulation/js/pda-visualizer.js:305-310 | a group's reverse flag is set iff the opposite pair is also a group; everything else is kept |
| Diagram.GroupsOfNew | simulation/js/pda-visualizer.js:292-299 | a transition with a new key opens a group at the end |
| Diagram.GroupsOfKnown | simulation/js/pda-visualizer.js:301 | a transition with a known key is appended to that group |
| Diagram.GroupsOfStepAt | simulation/js/pda-visualizer.js:292-301 | appending a transition keeps every existing group at its place and adds the transition to its own key's group only |
| Diagram.UnfoundKeyIsNew | simulation/js/pda-visualizer.js:292 | when `Map.has` finds no group with the transition's ends, its key has not occurred before |
| Diagram.NewKeyKeepsGroups | simulation/js/pda-visualizer.js:292-299 | a new key leaves the existing groups unchanged and adds one |
| Diagram.NewKeyGroup | simulation/js/pda-visualizer.js:292-301 | the group a new key opens holds that transition alone, flag unset |
| Diagram.GroupDrawable | simulation/js/pda-visualizer.js:281-302 | the grouping loop builds exactly the keyed groups of the drawable transitions |
| Diagram.FlagReverses | simulation/js/pda-visualizer.js:305-310 | the flagging loop sets each reverse flag as `WithReverse` states |
| Diagram.GroupTransitions | simulation/js/pda-visualizer.js:281-310 | the two loops build exactly the keyed groups with their reverse flags |
| Diagram.EachTransitionInOneGroup | simulation/js/pda-visualizer.js:283-302 | a drawable transition is in exactly one group, the one with its ends; one naming a missing state is in none |
| Diagram.FirstAt | simulation/js/pda-visualizer.js:292-299 | the index of the first transition with a key, no transition before it having that key; the length when none has it |
| Diagram.FirstAtOfKey | simulation/js/pda-visualizer.js:292-299 | a key that occurs is found at an index inside the list |
| Diagram.KeysInFirstOccurrenceOrder | simulation/js/pda-visualizer.js:281-302 | groups are listed in order of their key's first occurrence |
| Diagram.Classify | simulation/js/pda-visualizer.js:316-342 | exactly one shape: self-loop iff the ends agree; straight iff one transition and no reverse; curved iff a reverse exists; stacked otherwise |
| Diagram.ArrowCount | simulation/js/pda-visualizer.js:328-335 | a curved group draws one arrow per transition, the others one |
| Diagram.GroupsAreNonEmpty | simulation/js/pda-visualizer.js:292-301 | no group is empty, so a stacked group has at least two transitions |
| Diagram.CurvedComeInPairs | simulation/js/pda-visualizer.js:305-334 | the opposite group of a curved group exists and is curved as well |
| Diagram.SelfLoopLayout | simulation/js/pda-visualizer.js:389-401 | vertical for at most 2 transitions, compact for 3 or 4, two columns from 5 |
| Diagram.Evens | simulation/js/pda-visualizer.js:498 | the even-indexed transitions, in order |
| Diagram.Odds | simulation/js/pda-visualizer.js:499 | the odd-indexed transitions, in order |
| Diagram.ColumnsPartition | simulation/js/pda-visualizer.js:498-499 | the two columns together hold every transition, and taking them in turn gives the list back |
| Diagram.ColumnLabels | simulation/js/pda-visualizer.js:513-531 | one label per transition: the left column then the right, each row holding the transition at twice the row (plus one on the right) |
| Diagram.Rows | simulation/js/pda-visualizer.js:534-541 | the row numbers 0..n-1 |
| Diagram.TwoColumnLayout | simulation/js/pda-visualizer.js:491-551 | the loops produce exactly the column labels and one separator per row that has both columns |
| Diagram.ColumnLabelsPlaceEveryTransition | simulation/js/pda-visualizer.js:498-531 | transition k gets a label in column k mod 2, row k div 2 |
| Diagram.ColumnLabelsShowTheirTransition | simulation/js/pda-visualizer.js:498-531 | every label shows the transition its column and row stand for |
| Diagram.SeparatorRowsAreFull | simulation/js/pda-visualizer.js:491-551 | every separator row holds transition 2r on the left and transition 2r+1 on the right |
| Diagram.RightColumnEndsAtSeparators | simulation/js/pda-visualizer.js:491-551 | no right-column label lies below the separator rows, so separators mark exactly the rows with two labels |
| Diagram.PdaVisualizer.constructor | simulation/js/pda-visualizer.js:104-109 | the visualizer after its constructor and `initialize`: no PDA (line 15), no state or transition, an empty stack and input |
| Diagram.PdaVisualizer.SetPda | simulation/js/pda-visualizer.js:113-117 | the PDA is stored and the current state is its start state |
| Diagram.PdaVisualizer.UpdateState | simulation/js/pda-visualizer.js:120-139 | the given state and label are stored; a missing stack or input is stored as empty |
| Diagram.PdaVisualizer.Reset | simulation/js/pda-visualizer.js:1069-1079 | nothing without a PDA; otherwise back to its start state with no transition, stack or input |
| Diagram.KeyTextAsWritten | simulation/js/pda-visualizer.js:290 | as written: the key is the source id, a dash, then the target id |
| Diagram.DashedIdsCollide | simulation/js/pda-visualizer.js:290 | the pairs (`a-b`, `c`) and (`a`, `b-c`) get the same text key although they are different pairs |
| Diagram.GroupEndsAreDistinct | simulation/js/pda-visualizer.js:281-302 | with pair keys, no two groups share both ends |
| App.Required | simulation/js/main.js:51-56 | the four required globals, in the order they are checked |
| App.Missing | simulation/js/main.js:58 | the names of exactly the failing dependencies; empty iff all are present |
| App.MissingOfAppend | simulation/js/main.js:58 | the filter distributes over concatenation, so names keep declaration order |
| App.CheckDependencies | simulation/js/main.js:50-63 | an error iff some dependency is missing, with the message `Missing dependencies: ` and the failing names joined by `, ` |
| App.AllPresentPasses | simulation/js/main.js:58-62 | with every global present there is no error |
| App.OneMissingNamed | simulation/js/main.js:58-62 | a single missing global is named on its own |
| App.TwoMissingInOrder | simulation/js/main.js:58-62 | two missing globals are named in declaration order |
| App.LayoutClasses | simulation/js/main.js:152-163 | `mobile-layout` iff width < 768; `tablet-layout` iff 768 ≤ width < 1024; no other class |
| App.AtMostOneLayout | simulation/js/main.js:152-163 | never both classes; none from 1024 on |
| App.Relayout | simulation/js/main.js:144-164 | after an update the body's layout classes are exactly those of the width, and its other classes are those it had |
| App.LastResizeWins | simulation/js/main.js:144-164 | two updates in a row leave the classes the last width alone gives |
| App.Window | simulation/js/main.js:284-286 | `slice(-100)`: the last 100 elements, or all when there are fewer |
| App.Logged | simulation/js/main.js:275-287 | at most 100 entries, the new entry last; below the cap the old log plus the entry; at the cap the oldest entry is dropped and the order kept |
| App.WindowStep | simulation/js/main.js:284-286 | trimming before or after appending gives the same window |
| App.LogIsRecentHistory | simulation/js/main.js:275-287 | after any run of interactions the log is exactly the last 100 entries of the whole history |
| App.EquivalenceExperiment.constructor | simulation/js/main.js:5-8 | not initialized; the log, which the code creates only in `initializeProgressTracking` (main.js:261), starts empty here |
| App.EquivalenceExperiment.UpdateLayout | simulation/js/main.js:144-164 | the body's classes become `Relayout` of the old ones |
| App.EquivalenceExperiment.Initialize | simulation/js/main.js:19-47 | a missing dependency aborts with its message and changes nothing; otherwise the layout is set, the log is emptied (261) and the application is marked initialized |
| App.EquivalenceExperiment.LogInteraction | simulation/js/main.js:275-287 | the log becomes `Logged` of the old log and the new entry, so it never exceeds 100 |

## Left out

- Rendering: all D3/SVG/DOM drawing, styles, legends and tooltips. The floating-point geometry is left out too: label positions, widths, `atan2`/`cos`/`sin` and state scaling. `createTwoColumnLayout` keeps only its columns and separator rows.
- `Math.round` is modelled with integers on non-negative counts (exact round half up). A language with no steps at all gives `NaN`, modelled as `None`.
- Helper.RoundedPercent: the code rounds the floating-point value `(done/total)*100`, which can fall just below an exact half. For 23 of 40 steps that value is 57.49999999999999, so the code shows 57 where the model gives 58. The first such total is 40, and the example table's languages have at most 14 steps, so the table never reaches a case where the two differ.
- Timers and events. The `setTimeout`/`setInterval` callbacks of `selectChoice`, `checkModeSwitch` and auto-stepping are separate methods. The caller invokes them in the order the timers fire, so timer interleavings beyond that order are not modelled. Toasts, `UIHelper`, `showFeedback` and animations are left out.
- `localStorage`, `exportProgress`/`exportState`, `importProgress`/`importState`, `generateSummary`, `getLanguageStats`, `getSummary` and `getDerivationHistory` are persistence or reporting. The two import functions copy unchecked data into the progress records and would break the track invariant.
- `getHint`, `getCompletedSteps` and `showHint` are display helpers over the same state and are not modelled.
- `updateDerivation` (experiment/simulation/js/cfg-visualizer.js:660-670) is not modelled. It overwrites the form with its argument and rebuilds the tree only when that argument is the start symbol alone.
  - The controller passes each step's text, such as `"aSb"` (experiment/simulation/js/interactive.js:301-306). After the first step, the form is a string rather than a sequence of cells, and the tree is left as it was.
  - This is the only way the controller updates the form. The agreement between tree and form proved here (`StepKeepsFrontier`, `CfgVisualizer.ApplyProduction`) therefore covers derivations made with `applyProduction`, not the display the controller drives.
- `checkForAutoTabSwitch` (experiment/simulation/js/interactive.js:666-674) calls `isPDACompleted`, which `EquivalenceHelper` does not define. Nothing calls it, so it is not modelled.
- `handleResize`/`resize`, the resize debounce, theme handling, accessibility announcements, performance monitoring and the global error handlers are left out.
- Every DOM container is assumed to exist. Under that assumption `updateActionChoices` always synchronises the helper's mode; the early return when a container is missing is not modelled.
- The derivation tree is a value, and a node is reached by its path of child indices. JavaScript's shared node objects and in-place mutation of `children` become a rebuilt tree. Aliasing between nodes is not modelled, since the code never shares a node between two parents.
- Grammar.StepKeepsFrontier, Grammar.RewriteStep, CfgVisualizer.Rewrite and CfgVisualizer.ApplyProduction: the tree and the form are proved to stay in agreement only for grammars in which `ε` is neither the start symbol nor a nonterminal (`ProperCfg`), and for right-hand sides that are `ε`, or non-empty and free of `ε` (`ProperRight`). For other grammars the code's two structures can drift apart. For example, an empty right-hand side `""` deletes the form's cell (`"".split('')` is `[]`) but gives the tree's leaf no children, so the leaf stays in the frontier (`Grammar.EmptyRightDrifts`). The aⁿbⁿ grammar meets both conditions, and no right-hand side in the example table is empty.
- The browser globals checked by `checkDependencies` become booleans. The viewport width is an integer argument, and the timestamp and page URL of a log entry are parameters. The other start-up steps of `initialize` (creating the controller, event wiring, tooltips, theme) are left out.
- `Text.Chars` models `split('')` as splitting a string into its characters (Unicode code points), while JavaScript splits into UTF-16 code units. The two agree on text within the Basic Multilingual Plane, which covers every symbol in the example table.
- Helper.FormatStack states only the shape of its output (the element shown first and the closing bracket), not the full joined text.

## Findings

| source | as written | input that shows it | evidently intended | confidence | as-written member | corrected member |
|---|---|---|---|---|---|---|
| experiment/simulation/js/interactive.js:219 | `getCurrentPDAState` already reverses the stack to list it top first (helper.js:145); `formatStack` reverses it again (helper.js:185), so the box lists it bottom first | the aⁿbⁿ step with stack Z, A (A on top) shows `[ Z, A ]` | the top of the stack first: `[ A, Z ]` | not executed; follows from the two reversals | Interactive.InteractiveController.StackTextAsWritten | Interactive.InteractiveController.StackText |
| experiment/simulation/js/helper.js:196 | the literal for the empty form is the two characters `Î` and `µ` (the bytes of `ε` read as Latin-1) | an empty sentential form | `ε`, as used everywhere else | not executed; the literal is visible in the file | Helper.FormatCfgStringAsWritten | Helper.FormatCfgString |
| simulation/js/pda-visualizer.js:290 | groups are keyed by the text `from-to` | states `a-b`, `c`, `a`, `b-c` with transitions a-b→c and a→b-c share one group | one group per (source, target) pair | not executed; needs state ids containing a dash, which the example table does not use | Diagram.KeyTextAsWritten | Diagram.GroupTransitions |
