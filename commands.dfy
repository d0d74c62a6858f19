/** The two editor commands, `sv-statemachine.generate` (fast mode) and
    `sv-statemachine.generate-advanced`, from the text typed into the input
    boxes to the generated code. An input box hands back `None` when the user
    cancels, and closes with a value only once its validator accepts it; the
    editor that receives the code is not modelled. */
module Commands {
  import opened Wrappers
  import opened Text
  import opened StateInput
  import opened TransitionInput
  import opened Fsm
  import opened Render

  /** What a box with the state-name validator closes with: the entry, when the
      user confirmed one the validator accepted and it is not empty. */
  function AcceptedEntry(entry: Option<string>, message: Option<string>): (r: Option<string>)
    ensures r.Some? <==> entry.Some? && entry.value != "" && message == None
    ensures r.Some? ==> r == entry
  {
    if entry.None? || entry.value == "" || message.Some? then None else entry
  }

  /** The state list both commands take from the first box. */
  function AcceptedStates(entry: Option<string>): (states: Option<seq<string>>)
    ensures states.Some? <==> entry.Some? && ValidateStateInput(entry.value) == None
    ensures states.Some? ==> states.value == ParseStates(entry.value)
    ensures states.Some? ==> |states.value| >= 2 && forall s :: s in states.value ==> IsValidIdentifier(s)
  {
    var value := AcceptedEntry(entry, if entry.Some? then ValidateStateInput(entry.value) else None);
    if value.None? then None
    else
      ValidateStateInputAccepts(value.value);
      Some(ParseStates(value.value))
  }

  /** `sv-statemachine.generate`: the fast-mode code for the confirmed state
      list, or nothing when the user cancels. */
  function FastCommand(entry: Option<string>): (code: Option<string>)
    ensures code.Some? <==> entry.Some? && ValidateStateInput(entry.value) == None
    ensures code.Some? ==>
      |ParseStates(entry.value)| >= 2 &&
      code.value == RenderMachine(FastLayout, CyclicMachine(ParseStates(entry.value)))
  {
    var states := AcceptedStates(entry);
    if states.None? then None
    else
      FastRendersCycle(states.value);
      Some(GenerateFast(states.value))
  }

  /** `states.map((s, i) => `${i+1} = ${s}`).join(', ')`: the numbering shown
      to the user before the transitions are asked for. */
  function StateMapping(states: seq<string>): string {
    Join(seq(|states|, i requires 0 <= i < |states| => NatToDecimal(i + 1) + " = " + states[i]), ", ")
  }

  /** `sv-statemachine.generate-advanced`: the advanced-mode code for the
      confirmed state list and the confirmed transition list. */
  function AdvancedCommand(stateEntry: Option<string>, transitionEntry: Option<string>): (code: Option<string>)
    ensures code.Some? <==>
      stateEntry.Some? && ValidateStateInput(stateEntry.value) == None &&
      transitionEntry.Some? && TransitionInputError(transitionEntry.value, |ParseStates(stateEntry.value)|) == None
    ensures code.Some? ==>
      var states := ParseStates(stateEntry.value);
      var ts := ParseTransitions(transitionEntry.value);
      |states| >= 2 && AllInRange(ts, |states|) &&
      code.value == RenderMachine(AdvancedLayout, ExplicitMachine(states, ts))
  {
    var states := AcceptedStates(stateEntry);
    if states.None? then None
    else
      var n := |states.value|;
      var value := AcceptedEntry(transitionEntry,
                                 if transitionEntry.Some? then TransitionInputError(transitionEntry.value, n) else None);
      if value.None? then
        assert transitionEntry.Some? && transitionEntry.value == "" ==>
          TransitionInputError(transitionEntry.value, n).Some?;
        None
      else
        ParseAcceptedTransitions(value.value, n);
        assert AllInRange(ParseTransitions(value.value), n);
        Some(GenerateAdvanced(states.value, ParseTransitions(value.value)))
  }

  // ---------------------------------------------------------------------------
  // Properties of the whole commands
  // ---------------------------------------------------------------------------

  /** The fast command's output declares the confirmed states, in order, and
      resets to the first of them. */
  lemma FastCommandOutput(entry: Option<string>)
    requires FastCommand(entry).Some?
    ensures var states := ParseStates(entry.value);
      var code := FastCommand(entry).value;
      Tokens(EnumText(states), ',') == states &&
      Occurs(EnumText(states), code) &&
      Occurs(ResetPrefix + states[0] + ";", code)
  {
    var states := ParseStates(entry.value);
    var m := CyclicMachine(states);
    ValidateStateInputAccepts(entry.value);
    EnumReadsBack(states);
    ConcatHasPart(Parts(FastLayout, m), 1);
    FirstStateIsReset(FastLayout, m);
  }

  /** The advanced command's output declares one flag per record the
      transition box's text parses to, in input order. */
  lemma AdvancedCommandOutput(stateEntry: Option<string>, transitionEntry: Option<string>)
    requires AdvancedCommand(stateEntry, transitionEntry).Some?
    ensures var states := ParseStates(stateEntry.value);
      var ts := ParseTransitions(transitionEntry.value);
      |states| >= 1 && AllInRange(ts, |states|) &&
      Tokens(FlagsText(ExplicitMachine(states, ts).flags), '\n') ==
        seq(|ts|, k requires 0 <= k < |ts| => Declaration(TransitionFlag(states, ts[k])))
  {
    var states := ParseStates(stateEntry.value);
    ValidateStateInputAccepts(stateEntry.value);
    AdvancedFlagsDeclared(states, ParseTransitions(transitionEntry.value));
  }

  /** State `i` is listed under the number `i + 1`. */
  lemma StateMappingLists(states: seq<string>, i: nat)
    requires i < |states|
    ensures Occurs(NatToDecimal(i + 1) + " = " + states[i], StateMapping(states))
  {
    JoinHasPart(seq(|states|, j requires 0 <= j < |states| => NatToDecimal(j + 1) + " = " + states[j]), ", ", i);
  }

  lemma NumeralChars(a: string)
    requires IsNumeral(a)
    ensures !IsJsWhitespace(a[0]) && !IsJsWhitespace(a[|a| - 1])
    ensures ';' !in a && '-' !in a
  {
    assert forall i :: 0 <= i < |a| ==> IsDigit(a[i]);
  }

  /** A token made of two numerals around a dash is one trimmed token. */
  lemma {:induction false} NumeralPairIsToken(a: string, b: string)
    requires IsNumeral(a) && IsNumeral(b)
    ensures var t := a + "-" + b;
      t[..|a|] == a && t[|a| + 1..] == b && t[|a|] == '-' && Tokens(t, ';') == [t]
  {
    var t := a + "-" + b;
    assert t[..|a|] == a && t[|a| + 1..] == b;
    NumeralChars(a);
    NumeralChars(b);
    assert t[0] == a[0] && t[|t| - 1] == b[|b| - 1];
    assert ';' !in t;
    TrimUnpadded(t);
    TokensJoin([t], ';');
    assert Join([t], [';']) == t;
  }

  /** ... and parsed as that token. */
  lemma SingleTokenParsed(t: string)
    requires Tokens(t, ';') == [t]
    ensures ParseTransitions(t) == [ParseTransition(t)]
  {
  }

  /** Two numerals around a dash whose values are state numbers pass the
      validator ... */
  lemma NumeralPairAccepted(a: string, b: string, stateCount: nat)
    requires IsNumeral(a) && IsNumeral(b)
    requires 1 <= DecimalValue(a) <= stateCount && 1 <= DecimalValue(b) <= stateCount
    ensures TransitionInputError(a + "-" + b, stateCount) == None
  {
    var t := a + "-" + b;
    NumeralPairIsToken(a, b);
    TokenErrorSpec(t, stateCount);
    assert TokenAccepted(t, stateCount);
    SingleTokenJudged(t, stateCount);
  }

  /** ... and parse to the transition between their values. */
  lemma NumeralPairParsed(a: string, b: string, p: nat, q: nat)
    requires IsNumeral(a) && IsNumeral(b) && DecimalValue(a) == p && DecimalValue(b) == q
    ensures ParseTransitions(a + "-" + b) == [Transition(Num(p), Num(q))]
  {
    var t := a + "-" + b;
    NumeralPairIsToken(a, b);
    ParseTransitionOfPattern(t, |a|);
    SingleTokenParsed(t);
  }

  /** Typing the numbers from the mapping selects the listed states: the token
      `<i+1>-<j+1>` passes the validator ... */
  lemma MappedNumbersAccepted(stateCount: nat, i: nat, j: nat)
    requires i < stateCount && j < stateCount
    ensures TransitionInputError(NatToDecimal(i + 1) + "-" + NatToDecimal(j + 1), stateCount) == None
  {
    NumeralPairAccepted(NatToDecimal(i + 1), NatToDecimal(j + 1), stateCount);
  }

  /** ... and reads as the transition from state `i` to state `j`. */
  lemma MappedNumbersParsed(i: nat, j: nat)
    ensures ParseTransitions(NatToDecimal(i + 1) + "-" + NatToDecimal(j + 1)) == [Transition(Num(i + 1), Num(j + 1))]
  {
    NumeralPairParsed(NatToDecimal(i + 1), NatToDecimal(j + 1), i + 1, j + 1);
  }
}
