/**
 * The records of the static example table: a language with its PDA, its CFG
 * and the two scripted step lists. Display positions and labels with sub- or
 * superscripts are kept only where the core reads them.
 */
module Data {

  datatype Mode = PdaMode | CfgMode

  datatype State = State(id: string, isStart: bool, isAccept: bool)

  datatype Transition = Transition(
    from: string, to: string, input: string, stackPop: string, stackPush: string, labelText: string)

  datatype Pda = Pda(
    states: seq<State>,
    alphabet: seq<string>,
    stackAlphabet: seq<string>,
    startState: string,
    acceptStates: seq<string>,
    transitions: seq<Transition>)

  datatype Production = Production(left: string, right: string, id: string)

  datatype Cfg = Cfg(
    startSymbol: string,
    nonTerminals: seq<string>,
    terminals: seq<string>,
    productions: seq<Production>)

  /** A scripted step. Both kinds carry a fixed list of choices and the index of
      the correct one (-1 on a closing step that offers no choice). */
  datatype Step =
    | PdaStep(
        stepNumber: int, currentState: string, remainingInput: string, stack: seq<string>,
        description: string, choices: seq<string>, correctAnswer: int,
        explanation: string, hint: string)
    | CfgStep(
        stepNumber: int, currentString: string, targetString: string,
        description: string, choices: seq<string>, correctAnswer: int,
        explanation: string, hint: string)

  datatype Language = Language(
    id: int,
    name: string,
    description: string,
    testString: string,
    pda: Pda,
    cfg: Cfg,
    pdaSteps: seq<Step>,
    cfgSteps: seq<Step>)

  /** The other of the two modes. */
  function Other(m: Mode): (r: Mode)
    ensures r != m
  {
    if m == PdaMode then CfgMode else PdaMode
  }

  /** Every step in a PDA list is a PDA step and every step in a CFG list a CFG step. */
  predicate WellTyped(lang: Language)
  {
    && (forall i :: 0 <= i < |lang.pdaSteps| ==> lang.pdaSteps[i].PdaStep?)
    && (forall i :: 0 <= i < |lang.cfgSteps| ==> lang.cfgSteps[i].CfgStep?)
  }

  /** The scripted steps of one mode. */
  function StepsFor(lang: Language, m: Mode): seq<Step>
  {
    if m == PdaMode then lang.pdaSteps else lang.cfgSteps
  }

  // The first entry of the table: L = { a^n b^n | n >= 0 }.

  const AnBnPda := Pda(
    [State("q0", true, false), State("q1", false, false), State("q2", false, true)],
    ["a", "b"],
    ["Z", "A"],
    "q0",
    ["q2"],
    [ Transition("q0", "q0", "a", "Z", "AZ", "a, Z → AZ"),
      Transition("q0", "q0", "a", "A", "AA", "a, A → AA"),
      Transition("q0", "q1", "b", "A", "", "b, A → ε"),
      Transition("q1", "q1", "b", "A", "", "b, A → ε"),
      Transition("q1", "q2", "ε", "Z", "Z", "ε, Z → Z") ])

  const AnBnCfg := Cfg(
    "S", ["S"], ["a", "b"],
    [ Production("S", "aSb", "p1"), Production("S", "ε", "p2") ])

  const AnBnPdaSteps := [
    PdaStep(1, "q0", "aaabbb", ["Z"], "Initial configuration",
      ["δ(q0, a, Z) = {(q0, AZ)}", "δ(q0, b, Z) = {(q1, ε)}", "δ(q0, ε, Z) = {(q2, Z)}", "δ(q1, a, A) = {(q1, AA)}"],
      0, "Read 'a' and push 'A' onto stack with Z at bottom",
      "We need to process the first 'a' by pushing it onto the stack"),
    PdaStep(2, "q0", "aabbb", ["Z", "A"], "After reading first 'a'",
      ["δ(q0, a, A) = {(q0, AA)}", "δ(q0, b, A) = {(q1, ε)}", "δ(q0, ε, A) = {(q2, A)}", "δ(q1, a, A) = {(q1, AA)}"],
      0, "Read second 'a' and push another 'A' onto stack",
      "Continue reading a's and pushing them onto the stack"),
    PdaStep(3, "q0", "abbb", ["Z", "A", "A"], "After reading second 'a'",
      ["δ(q0, a, A) = {(q0, AA)}", "δ(q0, b, A) = {(q1, ε)}", "δ(q0, ε, A) = {(q2, A)}", "δ(q1, b, A) = {(q1, ε)}"],
      0, "Read third 'a' and push another 'A' onto stack",
      "We still have more a's to process"),
    PdaStep(4, "q0", "bbb", ["Z", "A", "A", "A"], "After reading all a's",
      ["δ(q0, a, A) = {(q0, AA)}", "δ(q0, b, A) = {(q1, ε)}", "δ(q0, ε, A) = {(q2, A)}", "δ(q1, b, A) = {(q1, ε)}"],
      1, "Read first 'b', transition to q1 and pop 'A' from stack",
      "Now we switch to reading b's and popping from the stack"),
    PdaStep(5, "q1", "bb", ["Z", "A", "A"], "After reading first 'b'",
      ["δ(q0, b, A) = {(q1, ε)}", "δ(q1, b, A) = {(q1, ε)}", "δ(q1, ε, Z) = {(q2, Z)}", "δ(q1, a, A) = {(q1, AA)}"],
      1, "Read second 'b' and pop another 'A' from stack",
      "Continue matching b's with the A's on the stack"),
    PdaStep(6, "q1", "b", ["Z", "A"], "After reading second 'b'",
      ["δ(q0, b, A) = {(q1, ε)}", "δ(q1, b, A) = {(q1, ε)}", "δ(q1, ε, Z) = {(q2, Z)}", "δ(q1, a, A) = {(q1, AA)}"],
      1, "Read third 'b' and pop the last 'A' from stack",
      "Match the final b with the last A"),
    PdaStep(7, "q1", "", ["Z"], "After reading all input",
      ["δ(q0, b, A) = {(q1, ε)}", "δ(q1, b, A) = {(q1, ε)}", "δ(q1, ε, Z) = {(q2, Z)}", "δ(q1, a, A) = {(q1, AA)}"],
      2, "Make epsilon transition to accept state q2 with Z on stack",
      "With only Z left on stack and no input, transition to accept state")
  ]

  const AnBnCfgSteps := [
    CfgStep(1, "S", "aaabbb", "Start with start symbol", ["S → aSb", "S → ε"],
      0, "Apply production S → aSb to generate outer a and b",
      "We need to generate the structure for multiple a's and b's"),
    CfgStep(2, "aSb", "aaabbb", "After first production", ["S → aSb", "S → ε"],
      0, "Apply S → aSb again to the middle S",
      "We still need to generate more a's and b's"),
    CfgStep(3, "aaSbb", "aaabbb", "After second production", ["S → aSb", "S → ε"],
      0, "Apply S → aSb once more to the middle S",
      "We need one more layer of a's and b's"),
    CfgStep(4, "aaaSbbb", "aaabbb", "After third production", ["S → aSb", "S → ε"],
      1, "Apply S → ε to eliminate the remaining S",
      "No more a's and b's needed, remove the S"),
    CfgStep(5, "aaabbb", "aaabbb", "Final derivation complete", [],
      -1, "Derivation complete: aaabbb successfully generated",
      "Success! The string has been fully derived")
  ]

  const AnBn := Language(
    1, "L = {aⁿbⁿ | n ≥ 0}", "Language of equal numbers of a's followed by b's", "aaabbb",
    AnBnPda, AnBnCfg, AnBnPdaSteps, AnBnCfgSteps)
}
