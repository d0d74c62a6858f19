/** The SystemVerilog text both generators emit: the `fsm_state` enum, the
    `fsm_transition_flags` packed struct, the `transition_condition_gen` and
    `state_transition` case blocks and the `state_register` block, filled in
    from a `Machine`. The two modes share every per-state text and differ only
    in the fixed template around it. */
module Render {
  import opened Text
  import opened StateInput
  import opened TransitionInput
  import opened Fsm

  /** Between two case arms, and before `end` of an arm. */
  const ArmIndent := "\n        "
  /** Between two lines inside an arm. */
  const BodyIndent := ArmIndent + "    "
  /** Before the `next_state = ...;` line of an `if`. */
  const TargetIndent := BodyIndent + "    "
  const EmptyArmBody := TargetIndent + "// No transitions defined for this state" + BodyIndent + "end"
  const DefaultPrefix := "default: next_state = "
  const ResetPrefix := "cur_state <= "

  /** `states.join(',\n    ')`. */
  function EnumText(states: seq<string>): string {
    Join(states, ",\n    ")
  }

  /** `logic <flag>;` */
  function Declaration(flag: string): string {
    "logic " + flag + ";"
  }

  function Declarations(flags: seq<string>): seq<string> {
    seq(|flags|, k requires 0 <= k < |flags| => Declaration(flags[k]))
  }

  /** The flag declarations, joined with `'\n    '`. */
  function FlagsText(flags: seq<string>): string {
    Join(Declarations(flags), "\n    ")
  }

  /** `trans_flags.<flag> = ...; ` */
  function Assignment(flag: string): string {
    "trans_flags." + flag + " = ...; "
  }

  /** `if (trans_flags.<flag>)` / `next_state = <target>;` */
  function Clause(b: Branch): string {
    "if (trans_flags." + b.flag + ")" + TargetIndent + "next_state = " + b.target + ";"
  }

  /** The if / else-if chain: the clauses joined by a line break and `else `. */
  function IfChain(bs: seq<Branch>): string {
    Join(Clauses(bs), BodyIndent + "else ")
  }

  function Clauses(bs: seq<Branch>): seq<string> {
    seq(|bs|, j requires 0 <= j < |bs| => Clause(bs[j]))
  }

  /** `<state>: begin` ... `end` around a non-empty body. */
  function ArmBlock(state: string, body: string): string {
    state + ": begin" + BodyIndent + body + ArmIndent + "end"
  }

  /** The arm of a state without transitions: a comment in place of a body. */
  function EmptyArm(state: string): string {
    state + ": begin" + EmptyArmBody
  }

  /** The arm of `transition_condition_gen`: one placeholder assignment per
      branch, one per line. */
  function ConditionArm(a: Arm): string {
    if a.branches == [] then EmptyArm(a.state)
    else ArmBlock(a.state, Join(seq(|a.branches|, j requires 0 <= j < |a.branches| =>
                                      Assignment(a.branches[j].flag)), BodyIndent))
  }

  /** The arm of `state_transition`: the if / else-if chain. */
  function TransitionArm(a: Arm): string {
    if a.branches == [] then EmptyArm(a.state) else ArmBlock(a.state, IfChain(a.branches))
  }

  function ConditionTexts(arms: seq<Arm>): seq<string> {
    seq(|arms|, i requires 0 <= i < |arms| => ConditionArm(arms[i]))
  }

  function TransitionTexts(arms: seq<Arm>): seq<string> {
    seq(|arms|, i requires 0 <= i < |arms| => TransitionArm(arms[i]))
  }

  function ConditionArms(arms: seq<Arm>): string {
    Join(ConditionTexts(arms), ArmIndent)
  }

  function TransitionArms(arms: seq<Arm>): string {
    Join(TransitionTexts(arms), ArmIndent)
  }

  /** The fixed text of a template around its holes: before the enum entries,
      after them, after the flag declarations, after the condition arms,
      between the `default` arm and the reset assignment, and after the reset
      state. */
  datatype Layout = Layout(head: string, afterEnum: string, afterFlags: string,
                           afterConditions: string, beforeReset: string, tail: string)

  const FastLayout := Layout(
    "\n\n// State encoding definition\ntypedef enum {      \n    ",
    "\n} fsm_state;\n\n// Packed struct definition \ntypedef struct packed {          \n    ",
    "\n} fsm_transition_flags;\n\nfsm_state cur_state, next_state;\nfsm_transition_flags trans_flags; // Transition condition flags\n\n// State transition condition generation \nalways_comb begin : transition_condition_gen\n    trans_flags = '{default:'0}; \n    \n    unique case (cur_state)  \n        ",
    "\n        default: trans_flags = '{default:'0};\n    endcase\nend\n\n// State transition logic (combinational)\nalways_comb begin : state_transition\n    next_state = cur_state; \n    \n    unique case (cur_state)\n        ",
    " \n    endcase\nend\n\n// State register (sequential logic)\nalways_ff @(posedge clk or negedge rst_n) begin : state_register\n    if (!rst_n) begin\n        ",
    "      // Reset initialization\n    end else begin\n        cur_state <= next_state; // State update\n    end\nend\n\n")

  const AdvancedLayout := Layout(
    "\n\n// State encoding definition \ntypedef enum {\n    ",
    "\n} fsm_state;\n\n// Packed struct definition \ntypedef struct packed {\n    ",
    "\n} fsm_transition_flags;\n\n// State registers\nfsm_state cur_state, next_state;\nfsm_transition_flags trans_flags;\n\n// State transition condition generation\nalways_comb begin : transition_condition_gen\n    trans_flags = '{default:'0}; \n    \n    unique case (cur_state)\n        ",
    "\n        default: trans_flags = '{default:'0};\n    endcase\nend\n\n// State transition logic\nalways_comb begin : state_transition\n    next_state = cur_state; \n    \n    unique case (cur_state)\n        ",
    " \n    endcase\nend\n\n// State register \nalways_ff @(posedge clk or negedge rst_n) begin : state_register\n    if (!rst_n) begin\n        ",
    " // Reset initialization\n    end else begin\n        cur_state <= next_state; // State update\n    end\nend\n\n\n")

  /** The part of the output that reads the first state: the `default` arm of
      `state_transition` and the reset assignment of `state_register`. */
  function ResetText(l: Layout, first: string): string {
    Concat([DefaultPrefix + first + ";", l.beforeReset, ResetPrefix + first + ";"])
  }

  /** The pieces of the output, in order. */
  function Parts(l: Layout, m: Machine): seq<string>
    requires |m.states| >= 1
  {
    [l.head, EnumText(m.states), l.afterEnum, FlagsText(m.flags), l.afterFlags,
     ConditionArms(m.arms), l.afterConditions, TransitionArms(m.arms), ArmIndent,
     ResetText(l, m.states[0]), l.tail]
  }

  /** The template `l` filled in from `m`. */
  function RenderMachine(l: Layout, m: Machine): string
    requires |m.states| >= 1
  {
    Concat(Parts(l, m))
  }

  // ---------------------------------------------------------------------------
  // The two generators
  // ---------------------------------------------------------------------------

  function FastDeclarations(states: seq<string>): seq<string>
    requires |states| >= 1
  {
    seq(|states|, i requires 0 <= i < |states| => Declaration(CyclicFlag(states, i)))
  }

  function FastConditions(states: seq<string>): seq<string>
    requires |states| >= 1
  {
    seq(|states|, i requires 0 <= i < |states| => ArmBlock(states[i], Assignment(CyclicFlag(states, i))))
  }

  function FastNexts(states: seq<string>): seq<string>
    requires |states| >= 1
  {
    seq(|states|, i requires 0 <= i < |states| =>
      ArmBlock(states[i], Clause(Branch(CyclicFlag(states, i), states[(i + 1) % |states|]))))
  }

  /** generateFastStateMachineCode, as the source writes it: per state `i`, the
      flag `lower(s_i)2lower(s_(i+1) mod n)`, one placeholder assignment and one
      `if` to the next state. */
  function GenerateFast(states: seq<string>): string
    requires |states| >= 1
  {
    Concat([FastLayout.head, Join(states, ",\n    "), FastLayout.afterEnum,
            Join(FastDeclarations(states), "\n    "), FastLayout.afterFlags,
            Join(FastConditions(states), ArmIndent), FastLayout.afterConditions,
            Join(FastNexts(states), ArmIndent), ArmIndent,
            ResetText(FastLayout, states[0]), FastLayout.tail])
  }

  /** generateAdvancedStateMachineCode: the advanced template filled in from the
      explicit machine of the transition list. */
  function GenerateAdvanced(states: seq<string>, ts: seq<Transition>): string
    requires |states| >= 1 && AllInRange(ts, |states|)
  {
    RenderMachine(AdvancedLayout, ExplicitMachine(states, ts))
  }

  /** The `forEach` that builds one state's if / else-if chain: the first clause
      opens with `if`, every later one with a line break and `else if`. */
  method BuildIfChain(states: seq<string>, stateTransitions: seq<Transition>) returns (ifChain: string)
    requires AllInRange(stateTransitions, |states|)
    ensures ifChain == IfChain(Branches(states, stateTransitions))
  {
    ifChain := "";
    for i := 0 to |stateTransitions|
      invariant AllInRange(stateTransitions[..i], |states|)
      invariant ifChain == IfChain(Branches(states, stateTransitions[..i]))
    {
      var t := stateTransitions[i];
      assert InRange(t, |states|);
      var sourceState := states[t.source.value - 1];
      var targetState := states[t.target.value - 1];
      var clause := "if (trans_flags." + FlagName(sourceState, targetState) + ")" + TargetIndent +
                    "next_state = " + targetState + ";";
      assert clause == Clause(TransitionBranch(states, t));
      BranchesSnoc(states, stateTransitions[..i], t);
      assert stateTransitions[..i + 1] == stateTransitions[..i] + [t];
      if i == 0 {
        assert stateTransitions[..i] == [];
        IfChainSnoc([], TransitionBranch(states, t));
        ifChain := ifChain + clause;
      } else {
        IfChainSnoc(Branches(states, stateTransitions[..i]), TransitionBranch(states, t));
        ifChain := ifChain + BodyIndent + "else " + clause;
      }
    }
    assert stateTransitions[..|stateTransitions|] == stateTransitions;
  }

  lemma {:induction false} BranchesSnoc(states: seq<string>, ts: seq<Transition>, t: Transition)
    requires AllInRange(ts, |states|) && InRange(t, |states|)
    ensures AllInRange(ts + [t], |states|)
    ensures Branches(states, ts + [t]) == Branches(states, ts) + [TransitionBranch(states, t)]
  {
    assert forall k :: 0 <= k < |ts| ==> (ts + [t])[k] == ts[k];
    if ts != [] {
      assert (ts + [t])[1..] == ts[1..] + [t];
      assert forall k :: 0 <= k < |ts| - 1 ==> ts[1..][k] == ts[k + 1];
      BranchesSnoc(states, ts[1..], t);
    }
  }

  /** One more branch extends the chain by `else` and its clause. */
  lemma IfChainSnoc(bs: seq<Branch>, b: Branch)
    ensures IfChain(bs + [b]) == if bs == [] then Clause(b) else IfChain(bs) + BodyIndent + "else " + Clause(b)
  {
    var cs := seq(|bs|, j requires 0 <= j < |bs| => Clause(bs[j]));
    assert seq(|bs + [b]|, j requires 0 <= j < |bs + [b]| => Clause((bs + [b])[j])) == cs + [Clause(b)];
    if bs != [] {
      JoinSnoc(cs, Clause(b), BodyIndent + "else ");
    }
  }

  // ---------------------------------------------------------------------------
  // What the text says
  // ---------------------------------------------------------------------------

  /** Fast mode's hand-written arms and flags are the general renderer applied
      to the cyclic machine. */
  lemma FastRendersCycle(states: seq<string>)
    requires |states| >= 1
    ensures GenerateFast(states) == RenderMachine(FastLayout, CyclicMachine(states))
  {
    var m := CyclicMachine(states);
    FastDeclarationsOfCycle(states);
    FastConditionsOfCycle(states);
    FastNextsOfCycle(states);
    assert Parts(FastLayout, m) ==
      [FastLayout.head, Join(states, ",\n    "), FastLayout.afterEnum,
       Join(FastDeclarations(states), "\n    "), FastLayout.afterFlags,
       Join(FastConditions(states), ArmIndent), FastLayout.afterConditions,
       Join(FastNexts(states), ArmIndent), ArmIndent,
       ResetText(FastLayout, states[0]), FastLayout.tail];
  }

  lemma FastDeclarationsOfCycle(states: seq<string>)
    requires |states| >= 1
    ensures FastDeclarations(states) == Declarations(CyclicMachine(states).flags)
  {
    var m := CyclicMachine(states);
    forall i | 0 <= i < |states| ensures FastDeclarations(states)[i] == Declarations(m.flags)[i] {
      assert m.flags[i] == CyclicFlag(states, i);
    }
  }

  lemma FastConditionsOfCycle(states: seq<string>)
    requires |states| >= 1
    ensures FastConditions(states) == ConditionTexts(CyclicMachine(states).arms)
  {
    var m := CyclicMachine(states);
    forall i | 0 <= i < |states| ensures FastConditions(states)[i] == ConditionTexts(m.arms)[i] {
      var a := m.arms[i];
      assert a == CyclicArm(states, i);
      var fs := seq(|a.branches|, j requires 0 <= j < |a.branches| => Assignment(a.branches[j].flag));
      assert fs == [Assignment(CyclicFlag(states, i))];
    }
  }

  lemma FastNextsOfCycle(states: seq<string>)
    requires |states| >= 1
    ensures FastNexts(states) == TransitionTexts(CyclicMachine(states).arms)
  {
    var m := CyclicMachine(states);
    forall i | 0 <= i < |states| ensures FastNexts(states)[i] == TransitionTexts(m.arms)[i] {
      var b := Branch(CyclicFlag(states, i), states[(i + 1) % |states|]);
      assert m.arms[i] == CyclicArm(states, i) == Arm(states[i], [b]);
      assert Clauses([b]) == [Clause(b)];
      assert IfChain([b]) == Clause(b);
    }
  }

  /** Fast mode is the renderer on the ring of transitions `1-2; 2-3; ...; n-1`:
      the two generators share everything but the fixed template text. */
  lemma FastIsRingUnderFastLayout(states: seq<string>)
    requires |states| >= 1
    ensures GenerateFast(states) == RenderMachine(FastLayout, ExplicitMachine(states, Ring(|states|)))
    ensures GenerateAdvanced(states, Ring(|states|)) == RenderMachine(AdvancedLayout, CyclicMachine(states))
  {
    FastRendersCycle(states);
    CyclicIsExplicitRing(states);
  }

  /** The enum block reads back as the state list: splitting it at `,` and
      trimming gives the states, in order. */
  lemma EnumReadsBack(states: seq<string>)
    requires forall s :: s in states ==> IsValidIdentifier(s)
    ensures Tokens(EnumText(states), ',') == states
  {
    forall s | s in states ensures s != "" && Trim(s) == s && ',' !in s {
      IdentifierShape(s);
    }
    assert AllWhitespace("\n    ") by {
      assert forall i :: 0 <= i < 5 ==> IsJsWhitespace("\n    "[i]);
    }
    assert [','] + "\n    " == ",\n    ";
    TokensPaddedJoin(states, ',', "\n    ");
  }

  lemma DeclarationShape(flag: string)
    requires '\n' !in flag
    ensures Declaration(flag) != "" && Trim(Declaration(flag)) == Declaration(flag)
    ensures '\n' !in Declaration(flag)
  {
    var d := Declaration(flag);
    assert d[0] == 'l' && d[|d| - 1] == ';';
    TrimUnpadded(d);
  }

  /** The struct block holds one `logic` line per flag, in order, duplicates
      included. */
  lemma FlagsReadBack(flags: seq<string>)
    requires forall k :: 0 <= k < |flags| ==> '\n' !in flags[k]
    ensures Tokens(FlagsText(flags), '\n') == Declarations(flags)
  {
    var ds := Declarations(flags);
    forall d | d in ds ensures d != "" && Trim(d) == d && '\n' !in d {
      var k :| 0 <= k < |flags| && ds[k] == d;
      DeclarationShape(flags[k]);
    }
    assert AllWhitespace("    ") by {
      assert forall i :: 0 <= i < 4 ==> IsJsWhitespace("    "[i]);
    }
    assert ['\n'] + "    " == "\n    ";
    TokensPaddedJoin(ds, '\n', "    ");
  }

  lemma FlagNameHasNoLineBreak(source: string, target: string)
    requires '\n' !in source && '\n' !in target
    ensures '\n' !in FlagName(source, target)
  {
    var f := FlagName(source, target);
    forall i | 0 <= i < |f| ensures f[i] != '\n' {
      if i < |source| {
        assert f[i] == LowerChar(source[i]);
      } else if i > |source| {
        assert f[i] == LowerChar(target[i - |source| - 1]);
      }
    }
  }

  /** In advanced mode the struct declares exactly one flag per transition, in
      input order; a transition listed twice is declared twice. */
  lemma AdvancedFlagsDeclared(states: seq<string>, ts: seq<Transition>)
    requires |states| >= 1 && AllInRange(ts, |states|)
    requires forall s :: s in states ==> IsValidIdentifier(s)
    ensures Tokens(FlagsText(ExplicitMachine(states, ts).flags), '\n') ==
      seq(|ts|, k requires 0 <= k < |ts| => Declaration(TransitionFlag(states, ts[k])))
  {
    var flags := ExplicitMachine(states, ts).flags;
    forall k | 0 <= k < |flags| ensures '\n' !in flags[k] {
      assert InRange(ts[k], |states|);
      var a, b := states[ts[k].source.value - 1], states[ts[k].target.value - 1];
      IdentifierShape(a);
      IdentifierShape(b);
      FlagNameHasNoLineBreak(a, b);
    }
    FlagsReadBack(flags);
  }

  /** In fast mode the struct declares exactly one flag per state, flag `i`
      naming the step from state `i` to state `(i + 1) mod n`. */
  lemma CyclicFlagsDeclared(states: seq<string>)
    requires |states| >= 1
    requires forall s :: s in states ==> IsValidIdentifier(s)
    ensures var decls := Tokens(FlagsText(CyclicMachine(states).flags), '\n');
      |decls| == |states| &&
      forall i :: 0 <= i < |states| ==>
        decls[i] == Declaration(FlagName(states[i], states[(i + 1) % |states|]))
  {
    var flags := CyclicMachine(states).flags;
    forall i | 0 <= i < |flags| ensures '\n' !in flags[i] {
      var a, b := states[i], states[(i + 1) % |states|];
      IdentifierShape(a);
      IdentifierShape(b);
      FlagNameHasNoLineBreak(a, b);
    }
    FlagsReadBack(flags);
  }

  /** Every state's arm appears in both case blocks. */
  lemma ArmsAppear(l: Layout, m: Machine, i: nat)
    requires |m.states| >= 1 && i < |m.arms|
    ensures Occurs(ConditionArm(m.arms[i]), RenderMachine(l, m))
    ensures Occurs(TransitionArm(m.arms[i]), RenderMachine(l, m))
  {
    JoinHasPart(ConditionTexts(m.arms), ArmIndent, i);
    ConcatHasPart(Parts(l, m), 5);
    OccursTransitive(ConditionArm(m.arms[i]), ConditionArms(m.arms), RenderMachine(l, m));
    JoinHasPart(TransitionTexts(m.arms), ArmIndent, i);
    ConcatHasPart(Parts(l, m), 7);
    OccursTransitive(TransitionArm(m.arms[i]), TransitionArms(m.arms), RenderMachine(l, m));
  }

  /** The `default` arm of `state_transition` and the reset of `state_register`
      both load the first state. */
  lemma FirstStateIsReset(l: Layout, m: Machine)
    requires |m.states| >= 1
    ensures Occurs(DefaultPrefix + m.states[0] + ";", RenderMachine(l, m))
    ensures Occurs(ResetPrefix + m.states[0] + ";", RenderMachine(l, m))
  {
    var s0 := m.states[0];
    var reset := [DefaultPrefix + s0 + ";", l.beforeReset, ResetPrefix + s0 + ";"];
    ConcatHasPart(Parts(l, m), 9);
    ConcatHasPart(reset, 0);
    ConcatHasPart(reset, 2);
    OccursTransitive(DefaultPrefix + s0 + ";", ResetText(l, s0), RenderMachine(l, m));
    OccursTransitive(ResetPrefix + s0 + ";", ResetText(l, s0), RenderMachine(l, m));
  }

  /** Every branch of a chain has its clause in it. */
  lemma ClausesAppear(bs: seq<Branch>, j: nat)
    requires j < |bs|
    ensures Occurs(Clause(bs[j]), IfChain(bs))
  {
    JoinHasPart(Clauses(bs), BodyIndent + "else ", j);
  }

  /** A state gets the "No transitions defined" comment arm exactly when no
      transition leaves it. */
  lemma CommentArmIffNoTransitions(states: seq<string>, ts: seq<Transition>, i: nat)
    requires |states| >= 1 && AllInRange(ts, |states|) && i < |states|
    ensures TransitionArm(ExplicitMachine(states, ts).arms[i]) == EmptyArm(states[i]) <==>
      forall k :: 0 <= k < |ts| ==> ts[k].source != Num(i + 1)
  {
    var a := ExplicitMachine(states, ts).arms[i];
    ExplicitArmEmpty(states, ts, i);
    if a.branches != [] {
      ArmBlockIsNotEmptyArm(states[i], IfChain(a.branches), a.branches);
    }
  }

  lemma ArmBlockIsNotEmptyArm(state: string, chain: string, bs: seq<Branch>)
    requires bs != [] && chain == IfChain(bs)
    ensures ArmBlock(state, chain) != EmptyArm(state)
  {
    var cs := Clauses(bs);
    var c := Clause(bs[0]);
    assert c[0] == 'i';
    assert chain[0] == 'i' by {
      if |cs| == 1 {
        assert chain == c;
      } else {
        assert chain == c + (BodyIndent + "else ") + Join(cs[1..], BodyIndent + "else ");
      }
    }
    var u := state + ": begin";
    assert ArmBlock(state, chain) == u + BodyIndent + chain + ArmIndent + "end";
    assert |BodyIndent| == 13;
    assert ArmBlock(state, chain)[|u| + 13] == chain[0];
    assert EmptyArmBody == BodyIndent + "    " + "// No transitions defined for this state" + BodyIndent + "end";
    assert EmptyArm(state)[|u| + 13] == "    "[0];
  }

  /** For three states and the transitions `1-2;2-3;2-1`, the second state's
      `state_transition` arm tests the flag towards the third state before the
      flag back to the first: declaration order is priority order. */
  lemma {:induction false} SecondArmPriority(a: string, b: string, c: string)
    ensures var ts := [Transition(Num(1), Num(2)), Transition(Num(2), Num(3)), Transition(Num(2), Num(1))];
      AllInRange(ts, 3) &&
      var m := ExplicitMachine([a, b, c], ts);
      m.arms[1].branches == [Branch(FlagName(b, c), c), Branch(FlagName(b, a), a)] &&
      TransitionArm(m.arms[1]) ==
        ArmBlock(b, Clause(Branch(FlagName(b, c), c)) + BodyIndent + "else " + Clause(Branch(FlagName(b, a), a)))
  {
    var states := [a, b, c];
    var ts := [Transition(Num(1), Num(2)), Transition(Num(2), Num(3)), Transition(Num(2), Num(1))];
    assert AllInRange(ts, 3);
    assert Outgoing(ts[2..], 2) == [ts[2]] by {
      assert ts[2..][1..] == [];
    }
    assert Outgoing(ts[1..], 2) == [ts[1], ts[2]] by {
      assert ts[1..][1..] == ts[2..];
    }
    assert Outgoing(ts, 2) == [ts[1], ts[2]];
    var out := [ts[1], ts[2]];
    assert Branches(states, out) == [TransitionBranch(states, ts[1]), TransitionBranch(states, ts[2])] by {
      assert out[1..] == [ts[2]];
      assert out[1..][1..] == [];
    }
    var bs := [Branch(FlagName(b, c), c), Branch(FlagName(b, a), a)];
    assert ExplicitMachine(states, ts).arms[1] == ExplicitArm(states, ts, 1);
    assert ExplicitArm(states, ts, 1).branches == bs;
    assert Clauses(bs) == [Clause(bs[0]), Clause(bs[1])];
    var cs := Clauses(bs);
    assert |cs| == 2 && cs[1..] == [Clause(bs[1])];
    assert Join(cs[1..], BodyIndent + "else ") == Clause(bs[1]);
    assert IfChain(bs) == Clause(bs[0]) + (BodyIndent + "else ") + Clause(bs[1]);
    assert IfChain(bs) == Clause(bs[0]) + BodyIndent + "else " + Clause(bs[1]);
  }

  /** With the states `A`, `B`, `C` the two flags are `b2c` and `b2a`. */
  lemma SecondArmFlagsExample()
    ensures FlagName("B", "C") == "b2c" && FlagName("B", "A") == "b2a"
  {
    assert Lower("B") == "b" && Lower("C") == "c" && Lower("A") == "a";
  }
}
