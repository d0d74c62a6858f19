/** The structure both renderers emit before it becomes text: the enum
    entries, the flag declarations and one case arm per state whose branches
    are that state's outgoing transitions in priority order. Beside it, the
    meaning of the generated `state_transition` block: which state
    `next_state` takes for a given current state and a given set of raised
    flags. */
module Fsm {
  import opened Text
  import opened TransitionInput

  /** `lower(source) + "2" + lower(target)`: the name of a transition's flag. */
  function FlagName(source: string, target: string): string {
    Lower(source) + "2" + Lower(target)
  }

  /** A flag name depends on the two state names only up to letter case. */
  lemma FlagNameIgnoresCase(source: string, target: string)
    ensures FlagName(source, target) == FlagName(Lower(source), Lower(target))
    ensures |FlagName(source, target)| == |source| + 1 + |target|
    ensures FlagName(source, target)[|source|] == '2'
  {
    LowerIdempotent(source);
    LowerIdempotent(target);
  }

  /** Flag names are not made unique: two different transitions between four
      different identifiers can share one flag name. */
  lemma FlagNamesCanCollide()
    ensures FlagName("a2b", "c") == FlagName("a", "b2c")
  {
    assert Lower("a2b") == "a2b" && Lower("c") == "c";
    assert Lower("a") == "a" && Lower("b2c") == "b2c";
  }

  /** One `if (trans_flags.<flag>) next_state = <target>;` branch. */
  datatype Branch = Branch(flag: string, target: string)

  /** The case arm of `state`: its branches in priority order. An arm without
      branches is the "No transitions defined for this state" comment arm. */
  datatype Arm = Arm(state: string, branches: seq<Branch>)

  /** The enum entries, the flag declarations of the packed struct, and the
      case arms; the first state is the reset and default state. */
  datatype Machine = Machine(states: seq<string>, flags: seq<string>, arms: seq<Arm>)

  // ---------------------------------------------------------------------------
  // Fast mode: the cyclic machine
  // ---------------------------------------------------------------------------

  /** The flag of state `i` in fast mode. */
  function CyclicFlag(states: seq<string>, i: nat): string
    requires i < |states|
  {
    FlagName(states[i], states[(i + 1) % |states|])
  }

  /** The arm of state `i` in fast mode: one branch, to state `(i + 1) mod n`. */
  function CyclicArm(states: seq<string>, i: nat): Arm
    requires i < |states|
  {
    Arm(states[i], [Branch(CyclicFlag(states, i), states[(i + 1) % |states|])])
  }

  /** generateFastStateMachineCode: state `i` has the single transition to
      state `(i + 1) mod n`. */
  function CyclicMachine(states: seq<string>): Machine
    requires |states| >= 1
  {
    var n := |states|;
    Machine(states,
      seq(n, i requires 0 <= i < n => CyclicFlag(states, i)),
      seq(n, i requires 0 <= i < n => CyclicArm(states, i)))
  }

  /** The fast machine is a ring: exactly `n` flags, and arm `i` holds one
      branch, on flag `i`, to the state of arm `(i + 1) mod n`. */
  lemma CyclicRing(states: seq<string>)
    requires |states| >= 1
    ensures var m := CyclicMachine(states);
      var n := |states|;
      m.states == states && |m.flags| == n && |m.arms| == n &&
      forall i :: 0 <= i < n ==>
        m.arms[i].state == states[i] && |m.arms[i].branches| == 1 &&
        m.arms[i].branches[0].flag == m.flags[i] &&
        m.flags[i] == FlagName(states[i], states[(i + 1) % n]) &&
        m.arms[i].branches[0].target == m.arms[(i + 1) % n].state
  {
    var m := CyclicMachine(states);
    var n := |states|;
    forall i | 0 <= i < n
      ensures m.arms[i] == CyclicArm(states, i) && m.flags[i] == CyclicFlag(states, i)
    {
    }
  }

  // ---------------------------------------------------------------------------
  // Advanced mode: the explicit machine
  // ---------------------------------------------------------------------------

  predicate AllInRange(ts: seq<Transition>, stateCount: int) {
    forall k :: 0 <= k < |ts| ==> InRange(ts[k], stateCount)
  }

  /** The flag of `{source, target}`: from `states[source - 1]` to `states[target - 1]`. */
  function TransitionFlag(states: seq<string>, t: Transition): string
    requires InRange(t, |states|)
  {
    FlagName(states[t.source.value - 1], states[t.target.value - 1])
  }

  function TransitionBranch(states: seq<string>, t: Transition): Branch
    requires InRange(t, |states|)
  {
    Branch(TransitionFlag(states, t), states[t.target.value - 1])
  }

  /** `transitions.filter(t => t.source === stateIndex)`. */
  function Outgoing(ts: seq<Transition>, stateIndex: int): (r: seq<Transition>)
    ensures |r| <= |ts|
    ensures forall t :: t in r ==> t in ts && t.source == Num(stateIndex)
  {
    if ts == [] then []
    else (if ts[0].source == Num(stateIndex) then [ts[0]] else []) + Outgoing(ts[1..], stateIndex)
  }

  lemma OutgoingInRange(ts: seq<Transition>, stateIndex: int, stateCount: int)
    requires AllInRange(ts, stateCount)
    ensures AllInRange(Outgoing(ts, stateIndex), stateCount)
  {
    var r := Outgoing(ts, stateIndex);
    forall k | 0 <= k < |r| ensures InRange(r[k], stateCount) {
      assert r[k] in r;
      var j :| 0 <= j < |ts| && ts[j] == r[k];
    }
  }

  /** The filter is empty exactly when no transition leaves `stateIndex`. */
  lemma {:induction false} OutgoingEmpty(ts: seq<Transition>, stateIndex: int)
    ensures Outgoing(ts, stateIndex) == [] <==> forall k :: 0 <= k < |ts| ==> ts[k].source != Num(stateIndex)
  {
    if ts != [] {
      assert forall k :: 0 <= k < |ts| - 1 ==> ts[1..][k] == ts[k + 1];
      OutgoingEmpty(ts[1..], stateIndex);
      if ts[0].source != Num(stateIndex) {
        assert forall k :: 1 <= k < |ts| ==> ts[k] == ts[1..][k - 1];
      }
    }
  }

  /** The branch of each transition, in list order. */
  function Branches(states: seq<string>, ts: seq<Transition>): (bs: seq<Branch>)
    requires AllInRange(ts, |states|)
    ensures |bs| == |ts|
  {
    if ts == [] then [] else [TransitionBranch(states, ts[0])] + Branches(states, ts[1..])
  }

  /** The arm of state `i` in advanced mode: the transitions whose source is
      `i + 1`, in list order. */
  function ExplicitArm(states: seq<string>, ts: seq<Transition>, i: nat): Arm
    requires i < |states| && AllInRange(ts, |states|)
  {
    OutgoingInRange(ts, i + 1, |states|);
    Arm(states[i], Branches(states, Outgoing(ts, i + 1)))
  }

  /** A state's advanced-mode arm has no branches exactly when no transition
      has that state as its source. */
  lemma ExplicitArmEmpty(states: seq<string>, ts: seq<Transition>, i: nat)
    requires i < |states| && AllInRange(ts, |states|)
    ensures ExplicitArm(states, ts, i).state == states[i]
    ensures ExplicitArm(states, ts, i).branches == [] <==>
      forall k :: 0 <= k < |ts| ==> ts[k].source != Num(i + 1)
  {
    OutgoingEmpty(ts, i + 1);
  }

  /** generateAdvancedStateMachineCode: one flag per transition, in list order;
      the arm of state `i` holds the transitions whose source is `i + 1`. */
  function ExplicitMachine(states: seq<string>, ts: seq<Transition>): Machine
    requires |states| >= 1 && AllInRange(ts, |states|)
  {
    Machine(states,
      seq(|ts|, k requires 0 <= k < |ts| => TransitionFlag(states, ts[k])),
      seq(|states|, i requires 0 <= i < |states| => ExplicitArm(states, ts, i)))
  }

  /** The transitions of fast mode written out explicitly: `i+1 - ((i+1) mod n)+1`. */
  function Ring(n: nat): (ts: seq<Transition>)
    ensures |ts| == n && AllInRange(ts, n)
  {
    seq(n, i requires 0 <= i < n => Transition(Num(i + 1), Num((i + 1) % n + 1)))
  }

  /** Filtering a list whose sources count up from `base` keeps at most the
      one transition with the wanted source. */
  lemma {:induction false} OutgoingOfConsecutive(ts: seq<Transition>, base: int, s: int)
    requires forall j :: 0 <= j < |ts| ==> ts[j].source == Num(base + j)
    ensures Outgoing(ts, s) == if base <= s < base + |ts| then [ts[s - base]] else []
  {
    if ts != [] {
      assert forall j :: 0 <= j < |ts| - 1 ==> ts[1..][j] == ts[j + 1];
      OutgoingOfConsecutive(ts[1..], base + 1, s);
      if s == base {
        assert Outgoing(ts[1..], s) == [];
      } else if base < s < base + |ts| {
        assert ts[1..][s - (base + 1)] == ts[s - base];
      }
    }
  }

  /** Fast mode is advanced mode on the ring: the cyclic machine is exactly the
      explicit machine of the transitions `1-2; 2-3; ...; n-1`. */
  lemma CyclicIsExplicitRing(states: seq<string>)
    requires |states| >= 1
    ensures CyclicMachine(states) == ExplicitMachine(states, Ring(|states|))
  {
    var n := |states|;
    var c, e := CyclicMachine(states), ExplicitMachine(states, Ring(n));
    forall k | 0 <= k < n ensures c.flags[k] == e.flags[k] {
      RingFlag(states, k);
    }
    forall i | 0 <= i < n ensures c.arms[i] == e.arms[i] {
      RingArm(states, i);
    }
    assert c.flags == e.flags;
    assert c.arms == e.arms;
  }

  lemma RingFlag(states: seq<string>, k: nat)
    requires k < |states|
    ensures CyclicFlag(states, k) == TransitionFlag(states, Ring(|states|)[k])
  {
  }

  lemma RingArm(states: seq<string>, i: nat)
    requires i < |states|
    ensures CyclicArm(states, i) == ExplicitArm(states, Ring(|states|), i)
  {
    var ring := Ring(|states|);
    OutgoingOfConsecutive(ring, 1, i + 1);
    assert Outgoing(ring, i + 1) == [ring[i]];
    assert [ring[i]][1..] == [];
    RingFlag(states, i);
  }

  // ---------------------------------------------------------------------------
  // Every transition lands in exactly one arm
  // ---------------------------------------------------------------------------

  /** The number of branches over all of `arms`. */
  function BranchCount(arms: seq<Arm>): nat {
    if arms == [] then 0 else BranchCount(arms[..|arms| - 1]) + |arms[|arms| - 1].branches|
  }

  /** The number of transitions whose source lies in `[1, k]`. */
  function SourcesUpTo(ts: seq<Transition>, k: nat): nat {
    if k == 0 then 0 else SourcesUpTo(ts, k - 1) + |Outgoing(ts, k)|
  }

  lemma {:induction false} SourcesUpToCons(ts: seq<Transition>, k: nat)
    requires ts != []
    ensures SourcesUpTo(ts, k) ==
      SourcesUpTo(ts[1..], k) + (if ts[0].source.Num? && 1 <= ts[0].source.value <= k then 1 else 0)
  {
    if k > 0 {
      SourcesUpToCons(ts, k - 1);
      assert Outgoing(ts, k) == (if ts[0].source == Num(k) then [ts[0]] else []) + Outgoing(ts[1..], k);
    }
  }

  lemma {:induction false} SourcesUpToEmpty(k: nat)
    ensures SourcesUpTo([], k) == 0
  {
    if k > 0 {
      SourcesUpToEmpty(k - 1);
    }
  }

  lemma {:induction false} SourcesUpToAll(ts: seq<Transition>, n: nat)
    requires AllInRange(ts, n)
    ensures SourcesUpTo(ts, n) == |ts|
  {
    if ts == [] {
      SourcesUpToEmpty(n);
    } else {
      assert InRange(ts[0], n);
      assert AllInRange(ts[1..], n) by {
        forall k | 0 <= k < |ts| - 1 ensures InRange(ts[1..][k], n) {
          assert ts[1..][k] == ts[k + 1];
        }
      }
      SourcesUpToCons(ts, n);
      SourcesUpToAll(ts[1..], n);
    }
  }

  /** Arms whose branch counts are those of the filters by state number count,
      over their first `k`, the transitions with source in `[1, k]`. */
  lemma {:induction false} ArmsPrefixCount(arms: seq<Arm>, ts: seq<Transition>, k: nat)
    requires k <= |arms|
    requires forall i :: 0 <= i < |arms| ==> |arms[i].branches| == |Outgoing(ts, i + 1)|
    ensures BranchCount(arms[..k]) == SourcesUpTo(ts, k)
  {
    if k > 0 {
      assert arms[..k][..k - 1] == arms[..k - 1];
      ArmsPrefixCount(arms, ts, k - 1);
    }
  }

  /** The arms of the advanced machine partition the transition list: their
      branch counts add up to the number of transitions. */
  lemma ExplicitArmsPartition(states: seq<string>, ts: seq<Transition>)
    requires |states| >= 1 && AllInRange(ts, |states|)
    ensures BranchCount(ExplicitMachine(states, ts).arms) == |ts|
  {
    var arms := ExplicitMachine(states, ts).arms;
    assert arms[..|states|] == arms;
    assert forall i :: 0 <= i < |arms| ==> arms[i] == ExplicitArm(states, ts, i);
    ArmsPrefixCount(arms, ts, |states|);
    SourcesUpToAll(ts, |states|);
  }

  /** The filter keeps a transition exactly when it leaves `stateIndex` ... */
  lemma OutgoingSingle(t: Transition, stateIndex: int)
    ensures Outgoing([t], stateIndex) == if t.source == Num(stateIndex) then [t] else []
  {
  }

  /** ... and keeps the kept transitions in list order. */
  lemma {:induction false} OutgoingAppend(xs: seq<Transition>, ys: seq<Transition>, stateIndex: int)
    ensures Outgoing(xs + ys, stateIndex) == Outgoing(xs, stateIndex) + Outgoing(ys, stateIndex)
  {
    if xs == [] {
      assert xs + ys == ys;
    } else {
      assert (xs + ys)[1..] == xs[1..] + ys;
      OutgoingAppend(xs[1..], ys, stateIndex);
    }
  }

  // ---------------------------------------------------------------------------
  // What the generated next-state logic does
  // ---------------------------------------------------------------------------

  /** The if / else-if chain of one arm: the first branch whose flag is raised
      decides; when none is raised `next_state` keeps `cur_state`. */
  function ChainNext(branches: seq<Branch>, raised: set<string>, current: string): string {
    if branches == [] then current
    else if branches[0].flag in raised then branches[0].target
    else ChainNext(branches[1..], raised, current)
  }

  /** Priority is list order: the earliest branch with a raised flag wins. */
  lemma {:induction false} ChainNextPriority(branches: seq<Branch>, raised: set<string>, current: string, k: nat)
    requires k < |branches| && branches[k].flag in raised
    requires forall j :: 0 <= j < k ==> branches[j].flag !in raised
    ensures ChainNext(branches, raised, current) == branches[k].target
  {
    if k > 0 {
      assert forall j :: 0 <= j < k - 1 ==> branches[1..][j] == branches[j + 1];
      ChainNextPriority(branches[1..], raised, current, k - 1);
    }
  }

  lemma {:induction false} ChainNextNoneRaised(branches: seq<Branch>, raised: set<string>, current: string)
    requires forall j :: 0 <= j < |branches| ==> branches[j].flag !in raised
    ensures ChainNext(branches, raised, current) == current
  {
    if branches != [] {
      assert forall j :: 0 <= j < |branches| - 1 ==> branches[1..][j] == branches[j + 1];
      ChainNextNoneRaised(branches[1..], raised, current);
    }
  }

  /** `unique case (cur_state)`: the arm labelled with the current state runs;
      with no such arm the `default` arm loads `reset`. */
  function CaseNext(arms: seq<Arm>, current: string, raised: set<string>, reset: string): string {
    if arms == [] then reset
    else if arms[0].state == current then ChainNext(arms[0].branches, raised, current)
    else CaseNext(arms[1..], current, raised, reset)
  }

  /** The value the `state_transition` block assigns to `next_state`. */
  function NextState(m: Machine, current: string, raised: set<string>): string
    requires |m.states| >= 1
  {
    CaseNext(m.arms, current, raised, m.states[0])
  }

  lemma {:induction false} CaseNextAt(arms: seq<Arm>, current: string, raised: set<string>, reset: string, i: nat)
    requires i < |arms| && arms[i].state == current
    requires forall j :: 0 <= j < i ==> arms[j].state != current
    ensures CaseNext(arms, current, raised, reset) == ChainNext(arms[i].branches, raised, current)
  {
    if i > 0 {
      assert forall j :: 0 <= j < i - 1 ==> arms[1..][j] == arms[j + 1];
      CaseNextAt(arms[1..], current, raised, reset, i - 1);
    }
  }

  lemma {:induction false} CaseNextMissing(arms: seq<Arm>, current: string, raised: set<string>, reset: string)
    requires forall j :: 0 <= j < |arms| ==> arms[j].state != current
    ensures CaseNext(arms, current, raised, reset) == reset
  {
    if arms != [] {
      assert forall j :: 0 <= j < |arms| - 1 ==> arms[1..][j] == arms[j + 1];
      CaseNextMissing(arms[1..], current, raised, reset);
    }
  }

  predicate Distinct(states: seq<string>) {
    forall i, j :: 0 <= i < j < |states| ==> states[i] != states[j]
  }

  /** A current value that is no state name falls to the `default` arm, which
      loads the first state, in both modes. */
  lemma DefaultIsFirstState(states: seq<string>, ts: seq<Transition>, current: string, raised: set<string>)
    requires |states| >= 1 && AllInRange(ts, |states|)
    requires current !in states
    ensures NextState(CyclicMachine(states), current, raised) == states[0]
    ensures NextState(ExplicitMachine(states, ts), current, raised) == states[0]
  {
    assert forall j :: 0 <= j < |states| ==> states[j] in states;
    CaseNextMissing(CyclicMachine(states).arms, current, raised, states[0]);
    CaseNextMissing(ExplicitMachine(states, ts).arms, current, raised, states[0]);
  }

  /** In fast mode state `i` moves to state `(i + 1) mod n` exactly when its
      flag is raised, and stays otherwise. */
  lemma CyclicStep(states: seq<string>, i: nat, raised: set<string>)
    requires |states| >= 1 && Distinct(states) && i < |states|
    ensures NextState(CyclicMachine(states), states[i], raised) ==
      if FlagName(states[i], states[(i + 1) % |states|]) in raised then states[(i + 1) % |states|]
      else states[i]
  {
    var m := CyclicMachine(states);
    CaseNextAt(m.arms, states[i], raised, states[0], i);
    assert m.arms[i].branches[1..] == [];
  }

  /** The chain of state `s` over the list: the earliest transition from `s`
      whose flag is raised decides. */
  /** Branch `i` is the branch of transition `i`. */
  lemma {:induction false} BranchesAt(states: seq<string>, ts: seq<Transition>, i: nat)
    requires AllInRange(ts, |states|) && i < |ts|
    ensures Branches(states, ts)[i] == TransitionBranch(states, ts[i])
  {
    if i > 0 {
      assert AllInRange(ts[1..], |states|) by {
        assert forall j :: 0 <= j < |ts| - 1 ==> ts[1..][j] == ts[j + 1];
      }
      BranchesAt(states, ts[1..], i - 1);
    }
  }

  /** The chain of the transitions leaving `s` follows the first of them, in
      list order, whose flag is raised. */
  lemma ChainOverOutgoing(states: seq<string>, ts: seq<Transition>, s: int,
                          raised: set<string>, current: string, k: nat)
    requires AllInRange(ts, |states|)
    requires k < |ts| && ts[k].source == Num(s) && TransitionFlag(states, ts[k]) in raised
    requires forall j :: 0 <= j < k && ts[j].source == Num(s) ==> TransitionFlag(states, ts[j]) !in raised
    ensures ChainNext(Branches(states, Outgoing(ts, s)), raised, current) == states[ts[k].target.value - 1]
  {
    var before := ts[..k];
    assert ts == before + [ts[k]] + ts[k + 1..];
    OutgoingAppend(before + [ts[k]], ts[k + 1..], s);
    OutgoingAppend(before, [ts[k]], s);
    OutgoingSingle(ts[k], s);
    var out := Outgoing(ts, s);
    var m := |Outgoing(before, s)|;
    assert out[m] == ts[k];
    OutgoingInRange(ts, s, |states|);
    var bs := Branches(states, out);
    BranchesAt(states, out, m);
    forall j | 0 <= j < m ensures bs[j].flag !in raised {
      BranchesAt(states, out, j);
      assert out[j] == Outgoing(before, s)[j];
      assert out[j] in Outgoing(before, s);
      var i :| 0 <= i < k && before[i] == out[j];
    }
    ChainNextPriority(bs, raised, current, m);
  }

  lemma {:induction false} ChainOverOutgoingNone(states: seq<string>, ts: seq<Transition>, s: int,
                                                raised: set<string>, current: string)
    requires AllInRange(ts, |states|)
    requires forall j :: 0 <= j < |ts| && ts[j].source == Num(s) ==> TransitionFlag(states, ts[j]) !in raised
    ensures ChainNext(Branches(states, Outgoing(ts, s)), raised, current) == current
  {
    if ts != [] {
      assert forall j :: 0 <= j < |ts| - 1 ==> ts[1..][j] == ts[j + 1];
      ChainOverOutgoingNone(states, ts[1..], s, raised, current);
      if ts[0].source == Num(s) {
        assert Outgoing(ts, s) == [ts[0]] + Outgoing(ts[1..], s);
      } else {
        assert Outgoing(ts, s) == Outgoing(ts[1..], s);
      }
    }
  }

  /** In advanced mode state `i` moves along the first transition from `i + 1`,
      in list order, whose flag is raised. */
  lemma ExplicitStepFires(states: seq<string>, ts: seq<Transition>, i: nat, raised: set<string>, k: nat)
    requires |states| >= 1 && AllInRange(ts, |states|) && Distinct(states) && i < |states|
    requires k < |ts| && ts[k].source == Num(i + 1) && TransitionFlag(states, ts[k]) in raised
    requires forall j :: 0 <= j < k && ts[j].source == Num(i + 1) ==> TransitionFlag(states, ts[j]) !in raised
    ensures NextState(ExplicitMachine(states, ts), states[i], raised) == states[ts[k].target.value - 1]
  {
    var m := ExplicitMachine(states, ts);
    CaseNextAt(m.arms, states[i], raised, states[0], i);
    ChainOverOutgoing(states, ts, i + 1, raised, states[i], k);
  }

  /** ... and stays where it is when no transition from `i + 1` has its flag
      raised, which includes a state with no outgoing transition at all. */
  lemma ExplicitStepHolds(states: seq<string>, ts: seq<Transition>, i: nat, raised: set<string>)
    requires |states| >= 1 && AllInRange(ts, |states|) && Distinct(states) && i < |states|
    requires forall j :: 0 <= j < |ts| && ts[j].source == Num(i + 1) ==> TransitionFlag(states, ts[j]) !in raised
    ensures NextState(ExplicitMachine(states, ts), states[i], raised) == states[i]
  {
    var m := ExplicitMachine(states, ts);
    CaseNextAt(m.arms, states[i], raised, states[0], i);
    ChainOverOutgoingNone(states, ts, i + 1, raised, states[i]);
  }
}
