# SystemVerilog state-machine generator, modelled in Dafny

The VS Code extension `sv-statemachine` offers two commands. Each one inserts a
SystemVerilog finite-state-machine skeleton into the editor.

- **Fast mode** (`sv-statemachine.generate`). It asks for a `;`-separated list
  of state names. It then generates a ring in which every state moves to the
  next one and the last state moves back to the first.
- **Advanced mode** (`sv-statemachine.generate-advanced`). It asks for the same
  list and shows the state numbering. It then asks for `source-target` pairs of
  1-based state numbers, such as `1-2;2-3;2-1`. It generates one flag per pair.
  Each state gets an `if / else if` chain in declaration order, and a comment
  arm if it has no pair.

Both skeletons contain these blocks:

- the `fsm_state` enum;
- the `fsm_transition_flags` packed struct with one `logic <src>2<dst>;` per
  transition;
- a `transition_condition_gen` case block with placeholder flag assignments;
- a `state_transition` case block whose `default` arm loads the first state;
- a `state_register` block that resets to the first state.

The model is organised in these modules:

- `Text`: JavaScript `split`, `join` and `trim` (over the exact ECMAScript
  whitespace set), `toLowerCase` on ASCII letters, and decimal numerals.
- `StateInput`: the identifier pattern, the state-list parser and the
  state-box validator. The validator message is `None` for `null`.
- `TransitionInput`: JavaScript `parseInt` and `parseTransitions`. It also
  holds `validateTransitionInput` as a method whose loop returns at the first
  bad token. That method is proved equal to a function of the input.
- `Fsm`: the flag-naming rule and the machine both generators describe. A
  machine has states, flag declarations, and one arm per state whose
  branches are `(flag, target)` pairs in priority order. The module also
  gives the next-state value the generated `state_transition` block computes.
- `Render`: the exact text of both templates. It also holds the
  `ifChain` accumulation loop as a method, and proofs that the text holds
  the machine.
- `Commands`: the two commands from box input to generated code, including
  the cancel and validation gates.

The validators do not use an error type. Each one returns either `null`,
which accepts the input, or a message string. In the model these are `None`
and `Some(message)`.

Both generators compute a timestamp (`src/extension.ts:183-184` and
`355-356`) that no template uses. The generated text is therefore a function
of the states and the transitions alone, and the model reflects this.

## Model

| member | source | states |
|---|---|---|
| Text.Trim | src/extension.ts:16 | The result is the input with its leading and trailing ECMAScript whitespace removed. It is empty exactly when the input is all whitespace. Otherwise it starts and ends with a non-whitespace character. |
| Text.TrimPadded | src/extension.ts:16 | Trimming whitespace + x + whitespace gives back x, whenever x starts and ends with non-whitespace. |
| Text.TrimIdempotent | src/extension.ts:16 | Trimming twice equals trimming once. |
| Text.Split | src/extension.ts:16 | `split` yields at least one piece, and no piece contains the separator. |
| Text.JoinSplit | src/extension.ts:16 | Joining the pieces of a split with the separator restores the input. |
| Text.SplitJoin | src/extension.ts:16 | Splitting a join of separator-free pieces gives back the pieces. |
| Text.Join | src/extension.ts:25 | JavaScript `join`. Its meaning is stated by JoinSplit and SplitJoin (the inverse of `split`), TokensJoin and TokensPaddedJoin. |
| Text.NonEmptyTrimmed | src/extension.ts:16 | The `map(s => s.trim()).filter(s => s !== '')` step. It never lengthens the list, and every kept piece is non-empty and trimmed; TokensJoin and TokensBlank state what it returns. |
| Text.Tokens | src/extension.ts:16 | Every token of split-trim-filter is non-empty and left unchanged by trim. |
| Text.TokensJoin | src/extension.ts:16 | Non-empty, trimmed, separator-free names joined by the separator tokenise back to the same list. |
| Text.TokensBlank | src/extension.ts:12-16 | A blank input has no tokens. |
| Text.TokensPaddedJoin | src/extension.ts:152 | Joining names with a separator followed by whitespace padding, as in `join(',\n    ')`, tokenises back to the names. |
| Text.Lower | src/extension.ts:157-158 | `toLowerCase` keeps the length and lowers each character independently. |
| Text.LowerIdempotent | src/extension.ts:157-158 | Lowering twice equals lowering once. |
| Text.NatToDecimal | src/extension.ts:103 | The printed number is a numeral without leading zeros whose decimal value is the number. |
| StateInput.IdentifierShape | src/extension.ts:23 | A name matching `^[a-zA-Z_][a-zA-Z0-9_]*$` contains no whitespace, `;`, `,`, line break or `-`, and trim leaves it unchanged. |
| StateInput.IsValidIdentifier | src/extension.ts:23 | The regular expression `^[a-zA-Z_][a-zA-Z0-9_]*$` as a predicate. What it implies is stated by IdentifierShape; LeadingDigitNameTrimmed shows a name it rejects. |
| StateInput.ParseStates | src/extension.ts:36-38 | Every parsed state name is non-empty, trimmed and free of `;`. |
| StateInput.InvalidNames | src/extension.ts:23 | The filter keeps exactly the names that fail the identifier pattern. |
| StateInput.InvalidNamesSingle | src/extension.ts:23 | A one-name list yields the name itself when it fails the pattern, and nothing otherwise. |
| StateInput.InvalidNamesAppend | src/extension.ts:23 | The bad names of a concatenation are those of the first part followed by those of the second, so input order and repetitions are kept. |
| StateInput.ValidateStateInputAccepts | src/extension.ts:11-28 | The state box accepts an input exactly when it parses to at least two names and every name is an identifier. |
| StateInput.ValidateStateInput | src/extension.ts:11-28 | The state box's validator. When it accepts is stated by ValidateStateInputAccepts, and the message it returns otherwise by ValidateStateInputMessage. |
| StateInput.ValidateStateInputMessage | src/extension.ts:12-26 | The message depends only on the parsed names: too few names gives the count message; otherwise every bad name is listed, in order, joined by ", ". |
| StateInput.ParseStatesDropsEmptySegments | src/extension.ts:36-38 | `a;;b;` parses to `[a, b]`: empty segments between or after names are dropped. |
| StateInput.ParseStatesExample | src/extension.ts:36-38 | `IDLE;;RUN;` parses to `["IDLE", "RUN"]`. |
| StateInput.MalformedNameReported | src/extension.ts:23-26 | With one malformed name before a valid one, the message names exactly the malformed one. |
| StateInput.LeadingDigitRejected | src/extension.ts:23-26 | `1BAD;OK` is rejected with `Invalid state names: 1BAD`. |
| StateInput.SingleStateRejected | src/extension.ts:18-20 | `ONLY` is rejected with the at-least-two-states message. |
| TransitionInput.ParseIntNumeral | src/extension.ts:252-253 | `parseInt` of a string of decimal digits is its decimal value. |
| TransitionInput.ParseIntOfDecimal | src/extension.ts:252-253 | `parseInt` reads back every printed natural number. |
| TransitionInput.ParseInt | src/extension.ts:252-253 | JavaScript `parseInt` on a digit string, with NaN for no leading digit. What it returns is stated by ParseIntNumeral and ParseIntOfDecimal. |
| TransitionInput.ParseTransitionOfPattern | src/extension.ts:251-253 | For a token `digits-digits`, `split('-')` yields the two digit runs and the record holds their decimal values. |
| TransitionInput.ParseTransition | src/extension.ts:251-253 | One token split at `-` and read by `parseInt`. ParseTransitionOfPattern and NaNBranchUnreachable state the record it gives for a token of the pattern. |
| TransitionInput.NaNBranchUnreachable | src/extension.ts:255-257 | Once the token matches `^\d+-\d+$`, neither number is NaN, and the record reads as the two digit runs. |
| TransitionInput.TokenErrorSpec | src/extension.ts:247-261 | One token passes exactly when it is two numerals around a dash with values in `[1, stateCount]`. A passing token parses to an in-range record. A token in the right format but out of range gets the message naming `1-stateCount`. |
| TransitionInput.TokenError | src/extension.ts:247-261 | The loop body's verdict on one token. TokenErrorSpec, TokenAcceptedIff and TokenErrorAt state when it passes and which message it gives otherwise. |
| TransitionInput.ValidateTransitionInput | src/extension.ts:240-265 | The early-returning loop over the tokens returns exactly what the validator function defines for that input. |
| TransitionInput.TransitionInputError | src/extension.ts:240-265 | The transition box's validator as a function. The loop method is proved equal to it, and TransitionInputAccepts, FirstTokenErrorNone and FirstTokenErrorFirst state what it returns. |
| TransitionInput.FirstTokenErrorNone | src/extension.ts:245-262 | The loop accepts exactly when every token is acceptable. |
| TransitionInput.FirstTokenErrorFirst | src/extension.ts:245-262 | When the loop rejects, the result is the message of some token all of whose predecessors were acceptable. |
| TransitionInput.TokenAcceptedIff | src/extension.ts:247-261 | A token is acceptable exactly when it is two numerals around a dash, with values in `[1, stateCount]`. |
| TransitionInput.TokenErrorAt | src/extension.ts:247-261 | A token that is two numerals around a dash parses to the transition between their values. It passes when both values are in `[1, stateCount]`, and otherwise gets the message naming `1-stateCount`. |
| TransitionInput.TransitionInputAccepts | src/extension.ts:240-265 | The transition box accepts exactly a non-blank input whose every token is acceptable. A blank input gets the no-transition message. Any other rejection reports the first bad token. |
| TransitionInput.ParseTransitions | src/extension.ts:268-278 | There is one record per non-empty trimmed token. |
| TransitionInput.ParseTransitionsOfJoin | src/extension.ts:268-278 | Clean tokens joined by `;` parse to one record per token, each read from its token, in order. |
| TransitionInput.ParseAcceptedTransitions | src/extension.ts:268-278 | On an accepted input, record i is in range and holds the decimal values of token i's two numerals. |
| TransitionInput.SeparatorsOnlyAccepted | src/extension.ts:241-264 | `;` passes the validator (it is not blank and has no tokens) and parses to no transition. |
| TransitionInput.ParseTransitionsExample | src/extension.ts:268-278 | `1-2;2-3;2-1` parses to the records (1,2), (2,3), (2,1), in that order. |
| TransitionInput.OutOfRangeExample | src/extension.ts:259-261 | With three states, `0-1` is rejected with the message whose range text is `1-3`. |
| Fsm.FlagNameIgnoresCase | src/extension.ts:157-159 | A flag name depends on the state names only up to letter case, and it is the two lowered names around a `2`. |
| Fsm.FlagName | src/extension.ts:157-159 | The flag `lower(source)2lower(target)` of both modes. FlagNameIgnoresCase and FlagNamesCanCollide state its properties. |
| Fsm.FlagNamesCanCollide | src/extension.ts:296 | Two different transitions can get the same flag: (`a2b`, `c`) and (`a`, `b2c`). |
| Fsm.CyclicRing | src/extension.ts:155-181 | In fast mode there are n flags and n arms. Arm i belongs to state i. It has one branch, on the flag `state[i]2state[(i+1) mod n]`, whose target is the state of the next arm. |
| Fsm.CyclicMachine | src/extension.ts:155-181 | The machine of fast mode. CyclicRing gives its shape, and CyclicIsExplicitRing equates it with the advanced machine of the ring. |
| Fsm.Outgoing | src/extension.ts:302 | The filtered list holds only transitions of the list whose source is the given state number. |
| Fsm.OutgoingEmpty | src/extension.ts:302-304 | The filter is empty exactly when no transition has that source. |
| Fsm.OutgoingSingle | src/extension.ts:302 | A one-transition list keeps its transition exactly when it leaves the given state. |
| Fsm.OutgoingAppend | src/extension.ts:302 | Filtering a concatenation filters each part in turn, so the kept transitions stay in list order. |
| Fsm.ExplicitArmEmpty | src/extension.ts:300-308 | A state's advanced-mode arm has no branches exactly when no transition leaves that state. |
| Fsm.ExplicitArm | src/extension.ts:300-353 | The branches of one state in advanced mode. ExplicitArmEmpty, ExplicitArmsPartition and ExplicitStepFires state what they hold. |
| Fsm.ExplicitMachine | src/extension.ts:291-353 | The machine of advanced mode. AdvancedFlagsDeclared, ExplicitArmsPartition, ExplicitStepFires and ExplicitStepHolds state its properties. |
| Fsm.ExplicitArmsPartition | src/extension.ts:300-353 | Together, the arms hold every transition exactly once: the branch count over all arms equals the number of transitions. |
| Fsm.CyclicIsExplicitRing | src/extension.ts:155-181 | The fast machine is the advanced machine of the transitions `i+1 - (i+1 mod n)+1`. |
| Fsm.ChainNextPriority | src/extension.ts:333-348 | In an if / else-if chain, the earliest branch whose flag is raised decides the next state. |
| Fsm.ChainNextNoneRaised | src/extension.ts:389 | When no flag of the chain is raised, the state is unchanged. |
| Fsm.CaseNextAt | src/extension.ts:391-394 | The case block runs the chain of the first arm labelled with the current state. |
| Fsm.CaseNextMissing | src/extension.ts:393 | A value labelling no arm falls to the `default` arm. |
| Fsm.DefaultIsFirstState | src/extension.ts:217 | In both modes, a current value that is no state moves to the first state. |
| Fsm.CyclicStep | src/extension.ts:177-180 | In fast mode, with distinct state names, state i moves to state (i+1) mod n exactly when its flag is raised, and otherwise stays. |
| Fsm.ExplicitStepFires | src/extension.ts:333-352 | In advanced mode, with distinct state names, state i moves to the target of the first transition out of it whose flag is raised. |
| Fsm.ExplicitStepHolds | src/extension.ts:322-353 | In advanced mode, with distinct state names, state i stays put when no flag of a transition out of it is raised. |
| Render.BuildIfChain | src/extension.ts:333-348 | The `forEach` accumulation builds exactly the chain of clauses for the state's transitions joined by line break and `else `. |
| Render.IfChainSnoc | src/extension.ts:340-347 | Appending a branch appends its clause: as the whole chain if it is the first, after `else ` otherwise. |
| Render.FastRendersCycle | src/extension.ts:150-233 | The fast generator's text is the fast template filled in from the ring machine. |
| Render.GenerateFast | src/extension.ts:150-233 | generateFastStateMachineCode, written as the source builds it. FastRendersCycle equates it with the fast template over the ring machine. |
| Render.FastIsRingUnderFastLayout | src/extension.ts:283-408 | The fast text is the fast template over the advanced machine of the ring transitions. The advanced generator given the ring renders the ring machine. The two modes differ only in their fixed text. |
| Render.RenderMachine | src/extension.ts:283-408 | A template filled in from a machine. EnumReadsBack, FlagsReadBack, ArmsAppear and FirstStateIsReset state what the text holds. |
| Render.GenerateAdvanced | src/extension.ts:283-408 | generateAdvancedStateMachineCode: the advanced template over the explicit machine. AdvancedFlagsDeclared, CommentArmIffNoTransitions and SecondArmPriority state what it holds. |
| Render.EnumReadsBack | src/extension.ts:152 | For identifier state names, the enum body tokenised at `,` gives back the state list, in order. |
| Render.FlagsReadBack | src/extension.ts:160 | The flag-declaration text tokenised at line breaks gives back one `logic <flag>;` declaration per flag, in order. |
| Render.AdvancedFlagsDeclared | src/extension.ts:291-297 | In advanced mode the struct declares, line by line, one `logic` flag per transition, in input order, duplicates included. |
| Render.CyclicFlagsDeclared | src/extension.ts:155-160 | In fast mode the struct declares n flags, the i-th being `logic state[i]2state[(i+1) mod n];`. |
| Render.ArmsAppear | src/extension.ts:361-407 | Each arm's condition text and next-state text occur in the generated code. |
| Render.FirstStateIsReset | src/extension.ts:391-400 | The generated code holds `default: next_state = <first>;` and `cur_state <= <first>;`. |
| Render.ClausesAppear | src/extension.ts:333-348 | Every transition's clause occurs in its state's chain. |
| Render.CommentArmIffNoTransitions | src/extension.ts:322-330 | A state's next-state arm is the comment-only arm exactly when no transition leaves it. |
| Render.SecondArmPriority | src/extension.ts:322-353 | For `1-2;2-3;2-1` over three states, the second state's branches are the ones towards the third state and then the first. Its arm is the `if` on the first flag followed by `else if` on the second. |
| Render.SecondArmFlagsExample | src/extension.ts:157-159 | With states `A`, `B`, `C`, those two flags are `b2c` and `b2a`. |
| Commands.AcceptedStates | src/extension.ts:71-100 | The state list is available exactly when the validator accepts the entry. It then has at least two names, all of them identifiers. |
| Commands.FastCommand | src/extension.ts:5-41 | Fast mode produces code exactly when the state entry is accepted. The code is the fast template over the ring machine of the parsed names. |
| Commands.AdvancedCommand | src/extension.ts:68-118 | Advanced mode produces code exactly when both boxes accept their entries. The parsed transitions are then all in range, and the code is the advanced template over their machine. |
| Commands.FastCommandOutput | src/extension.ts:36-41 | The fast command's code contains the enum body, which tokenises back to the confirmed states, and it resets to the first state. |
| Commands.AdvancedCommandOutput | src/extension.ts:113-118 | The struct of the advanced command's code declares one flag per parsed transition, in input order. |
| Commands.StateMappingLists | src/extension.ts:103 | The mapping shown to the user lists state i under the number i+1. |
| Commands.StateMapping | src/extension.ts:103 | The numbering shown before the transitions are asked for. StateMappingLists states that each state appears under its number. |
| Commands.NumeralPairAccepted | src/extension.ts:107-115 | Two numerals around a dash whose values are state numbers pass the validator. |
| Commands.NumeralPairParsed | src/extension.ts:107-115 | Two numerals around a dash parse to the transition between their values. |
| Commands.MappedNumbersAccepted | src/extension.ts:103-115 | Typing `<i+1>-<j+1>` from the mapping passes the validator. |
| Commands.MappedNumbersParsed | src/extension.ts:103-115 | Typing `<i+1>-<j+1>` reads as the transition from state i to state j. |

## Left out

- VS Code interaction is not modelled: command registration, input-box
  prompts, editor insertion or the new document, information and error
  messages, `handleError`, `deactivate` (`src/extension.ts:3-145` apart from the
  validation and cancel gates, `410-421`). An input box is modelled as an
  `Option<string>` the host hands back, `None` when the user cancels. The model
  assumes a box closes only with an entry its validator accepts.
- The two state validators (`src/extension.ts:11-28` and `73-91`) are the same
  text. One function, `StateInput.ValidateStateInput`, models both.
- The timestamps (`src/extension.ts:183-184`, `355-356`) read the clock, and no
  template uses them. The unused `stateMapping` string of
  `src/extension.ts:359` is never output either.
- Text.Lower: it lowers ASCII `A`-`Z` only. JavaScript `toLowerCase` also
  lowers other Unicode letters, but accepted state names are ASCII.
- TransitionInput.ParseInt: it uses unbounded integers, not IEEE doubles. The
  source reaches `parseInt` only with digit runs, where it returns the exact
  decimal value as long as the digits fit a double; the rounding of very long
  runs is not modelled.
- Strings are sequences of Dafny `char`, not UTF-16 code units. This makes no
  difference to accepted inputs.
- Render.GenerateFast: it requires at least one state. For an empty list the
  source would print `undefined`, but the commands only call it with two or
  more states.
- Render.GenerateAdvanced: it requires every transition to be in range. The
  source would read `states[-1]` and throw otherwise, but the commands only
  pass transitions the validator accepted.
- Arbitrary, possibly simultaneous, sets of raised flags model the flag values
  SystemVerilog assigns (`= ...;` is a placeholder in the output). Clocked
  behaviour and the reset itself are not simulated.
- `esbuild.js` and `eslint.config.js` are build configuration and are not part
  of this model.
