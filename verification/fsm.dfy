/** The finite state machine macros: state codes and case labels, the loop behind `FSM_Switch`, and
  * what one `FSM_Switch` does for arbitrary Exit and Enter code. */
module FiniteStateMachine {

  // ---------- State codes and case labels (32-bit `int`, two's complement) ----------

  datatype Phase = Exit | Enter

  predicate Negative(s: bv32) {
    s & 0x8000_0000 != 0
  }

  /** The macro's test: a code is transient exactly when its signed value is negative. */
  lemma NegativeIsSigned(s: bv32)
    ensures Negative(s) <==> s >= 0x8000_0000
  {
  }

  /** What FSM_Transient and FSM_Steady make of the number k. */
  lemma DeclaredKinds(k: bv32)
    requires 1 <= k <= 0x7fff_ffff
    ensures Negative(0 - k) && !Negative(k) && !Negative(0)
  {
    assert Negative(0 - k) <==> (0 - k) & 0x8000_0000 != 0;
  }

  function Doubled(s: bv32): bv32 {
    s << 1
  }

  /** The macro's case distinction for negative codes. */
  function EnterExit(s: bv32): bv32 {
    if Negative(s) then 0 - Doubled(0 - s) else Doubled(s)
  }

  function Tag(x: bv32, phase: Phase): bv32 {
    if phase == Exit then x | 1 else x | 0
  }

  /** The label of the case for a state and a phase. */
  function Label(s: bv32, phase: Phase): bv32 {
    Tag(EnterExit(s), phase)
  }

  /** The value that the loop switches on: exiting at odd counts, entering at even ones. */
  function SwitchValue(s: bv32, phase: Phase): bv32 {
    Tag(Doubled(s), phase)
  }

  lemma NegatedTwice(s: bv32)
    ensures 0 - ((0 - s) << 1) == s << 1
  {
  }

  lemma DoubledIs(s: bv32)
    ensures Doubled(s) == s << 1
  {
  }

  lemma NegatedDouble(s: bv32)
    ensures 0 - Doubled(0 - s) == 0 - ((0 - s) << 1)
  {
    DoubledIs(0 - s);
  }

  /** For every code, negative ones included, the label is the value switched on. */
  lemma LabelIsSwitchValue(s: bv32, phase: Phase)
    ensures Label(s, phase) == SwitchValue(s, phase)
  {
    hide Doubled, Negative, Tag;
    NegatedTwice(s);
    NegatedDouble(s);
    DoubledIs(s);
  }

  /** The code without its top bit, which the doubling drops. */
  function Kept(s: bv32): bv32 {
    s & 0x7fff_ffff
  }

  function Half(v: bv32): bv32 {
    v >> 1
  }

  function PhaseOf(v: bv32): Phase {
    if v & 1 == 1 then Exit else Enter
  }

  lemma HalfRaw(s: bv32)
    ensures Half((s << 1) | 1) == Kept(s) && Half((s << 1) | 0) == Kept(s)
  {
  }

  lemma PhaseRaw(s: bv32)
    ensures PhaseOf((s << 1) | 1) == Exit && PhaseOf((s << 1) | 0) == Enter
  {
  }

  lemma SwitchValueIs(s: bv32, phase: Phase)
    ensures SwitchValue(s, phase) == if phase == Exit then (s << 1) | 1 else (s << 1) | 0
  {
    assert Tag(s << 1, phase) == if phase == Exit then (s << 1) | 1 else (s << 1) | 0;
  }

  lemma KeptRaw(s: bv32, phase: Phase)
    ensures SwitchValue(s & 0x7fff_ffff, phase) == if phase == Exit then (s << 1) | 1 else (s << 1) | 0
  {
    assert Tag((s & 0x7fff_ffff) << 1, phase) == if phase == Exit then (s << 1) | 1 else (s << 1) | 0;
  }

  lemma KeptIs(s: bv32)
    ensures Kept(s) == s & 0x7fff_ffff
  {
  }

  /** Labels differ exactly when the phases or the codes, top bit aside, differ. */
  lemma LabelsDistinct(s: bv32, phase: Phase, s': bv32, phase': Phase)
    ensures Label(s, phase) == SwitchValue(s', phase') <==> phase == phase' && Kept(s) == Kept(s')
  {
    hide Label, SwitchValue, Kept, Half, PhaseOf;
    LabelIsSwitchValue(s, phase);
    SwitchValueIs(s, phase);
    SwitchValueIs(s', phase');
    HalfRaw(s);
    HalfRaw(s');
    PhaseRaw(s);
    PhaseRaw(s');
    KeptRaw(s, phase);
    KeptRaw(s', phase');
    KeptIs(s);
    KeptIs(s');
  }

  /** Codes whose doubling keeps the sign. */
  predicate InRange(s: bv32) {
    s & 0xc000_0000 == 0 || s & 0xc000_0000 == 0xc000_0000
  }

  /** In signed values: from -2^30 to 2^30 - 1. */
  lemma InRangeIsSigned(s: bv32)
    ensures InRange(s) <==> s < 0x4000_0000 || s >= 0xc000_0000
  {
  }

  lemma InRangeDistinct(s: bv32, s': bv32)
    requires InRange(s) && InRange(s')
    ensures Kept(s) == Kept(s') <==> s == s'
  {
  }

  // ---------- The user's code ----------

  /** The state of the machine and of everything else the blocks may use. */
  datatype Config<U> = Config(state: bv32, env: U)

  /** What one block of code does, calls of FSM_Goto included. */
  type Block<!U> = Config<U> -> Config<U>

  /** A case of the switch body, with the state and phase its label was made from. */
  datatype Case<!U> = Case(state: bv32, phase: Phase, code: Block<U>)

  type Program<!U> = seq<Case<U>>

  /** The switch: the first case with this label, or nothing. */
  function Switch<U>(prog: Program<U>, value: bv32, c: Config<U>): Config<U> {
    if prog == [] then c
    else if Label(prog[0].state, prog[0].phase) == value then prog[0].code(c)
    else Switch(prog[1..], value, c)
  }

  /** The block that the program declares for a state and a phase. */
  function Declared<U>(prog: Program<U>, state: bv32, phase: Phase, c: Config<U>): Config<U> {
    if prog == [] then c
    else if prog[0].state == state && prog[0].phase == phase then prog[0].code(c)
    else Declared(prog[1..], state, phase, c)
  }

  predicate CodesInRange<U>(prog: Program<U>) {
    forall k :: 0 <= k < |prog| ==> InRange(prog[k].state)
  }

  /** The switch runs exactly the block declared for the current state and phase. */
  lemma {:induction false} SwitchRunsDeclared<U>(prog: Program<U>, state: bv32, phase: Phase, c: Config<U>)
    requires CodesInRange(prog) && InRange(state)
    ensures Switch(prog, SwitchValue(state, phase), c) == Declared(prog, state, phase, c)
  {
    hide Label, SwitchValue, InRange, Kept;
    if prog != [] {
      LabelsDistinct(prog[0].state, prog[0].phase, state, phase);
      InRangeDistinct(prog[0].state, state);
      SwitchRunsDeclared(prog[1..], state, phase, c);
    }
  }

  // ---------- The loop ----------

  const MAXT: nat := 64

  datatype Outcome = Settled | InfiniteLoop | StateChanged

  /** How a run ends: the outcome, the configuration, and the bodies run, as (phase, state before). */
  datatype Result<U> = Result(outcome: Outcome, config: Config<U>, bodies: seq<(Phase, bv32)>)

  function PhaseAt(i: nat): Phase {
    if i % 2 == 1 then Exit else Enter
  }

  function Body<U>(prog: Program<U>, phase: Phase, c: Config<U>): Config<U> {
    Switch(prog, SwitchValue(c.state, phase), c)
  }

  /** The loop from count i on; an error ends it. */
  function Loop<U>(prog: Program<U>, i: nat, saved: bv32, c: Config<U>, bodies: seq<(Phase, bv32)>): Result<U>
    decreases 2 * MAXT - i
  {
    if !(i < 3 || i % 2 == 0 || Negative(c.state)) then
      Result(Settled, c, bodies)
    else if !(i < 2 * MAXT) then
      Result(InfiniteLoop, c, bodies)
    else
      var d := Body(prog, PhaseAt(i), c);
      var run := bodies + [(PhaseAt(i), c.state)];
      if i % 2 == 0 && saved != d.state then
        Result(StateChanged, d, run)
      else
        Loop(prog, i + 1, d.state, d, run)
  }

  // ---------- What it amounts to: rounds of one Exit and one Enter ----------

  function AfterExit<U>(prog: Program<U>, c: Config<U>): Config<U> {
    Body(prog, Exit, c)
  }

  function Round<U>(prog: Program<U>, c: Config<U>): Config<U> {
    Body(prog, Enter, AfterExit(prog, c))
  }

  /** The configuration after m rounds. */
  function Rounds<U>(prog: Program<U>, c: Config<U>, m: nat): Config<U> {
    if m == 0 then c else Round(prog, Rounds(prog, c, m - 1))
  }

  /** Enter code of round m changes the state. */
  predicate Changes<U>(prog: Program<U>, c: Config<U>, m: nat)
    requires m > 0
  {
    AfterExit(prog, Rounds(prog, c, m - 1)).state != Rounds(prog, c, m).state
  }

  /** Round m does not lead on to another. */
  predicate Ends<U>(prog: Program<U>, c: Config<U>, m: nat)
    requires m > 0
  {
    Changes(prog, c, m) || !Negative(Rounds(prog, c, m).state)
  }

  /** The bodies of m rounds: Exit and Enter by turns. */
  function RoundBodies<U>(prog: Program<U>, c: Config<U>, m: nat): (b: seq<(Phase, bv32)>)
    ensures |b| == 2 * m
  {
    if m == 0 then [] else
    var before := Rounds(prog, c, m - 1);
    RoundBodies(prog, c, m - 1) + [(Exit, before.state), (Enter, AfterExit(prog, before).state)]
  }

  /** The result in terms of rounds: `last` is the round that ends the run, or 0 if none of the
    * first 63 does. */
  function Verdict<U>(prog: Program<U>, c: Config<U>, last: nat): Result<U> {
    if last == 0 then
      var before := Rounds(prog, c, MAXT - 1);
      Result(InfiniteLoop, AfterExit(prog, before), RoundBodies(prog, c, MAXT - 1) + [(Exit, before.state)])
    else
      Result(if Changes(prog, c, last) then StateChanged else Settled,
             Rounds(prog, c, last), RoundBodies(prog, c, last))
  }

  /** No block stores a code whose doubling would change the sign. */
  ghost predicate KeepsRange<U(!new)>(prog: Program<U>) {
    forall k, c: Config<U> :: 0 <= k < |prog| && InRange(c.state) ==> InRange(prog[k].code(c).state)
  }

  lemma {:induction false} DeclaredInRange<U(!new)>(prog: Program<U>, state: bv32, phase: Phase, c: Config<U>)
    requires KeepsRange(prog) && InRange(c.state)
    ensures InRange(Declared(prog, state, phase, c).state)
  {
    hide InRange;
    if prog != [] {
      assert InRange(prog[0].code(c).state);
      forall k, d: Config<U> | 0 <= k < |prog[1..]| && InRange(d.state)
        ensures InRange(prog[1..][k].code(d).state)
      {
        assert prog[1..][k] == prog[k + 1];
      }
      DeclaredInRange(prog[1..], state, phase, c);
    }
  }

  lemma BodyIsDeclared<U(!new)>(prog: Program<U>, phase: Phase, c: Config<U>)
    requires CodesInRange(prog) && KeepsRange(prog) && InRange(c.state)
    ensures Body(prog, phase, c) == Declared(prog, c.state, phase, c)
    ensures InRange(Body(prog, phase, c).state)
  {
    hide InRange, SwitchValue, Switch, Declared, KeepsRange, CodesInRange;
    SwitchRunsDeclared(prog, c.state, phase, c);
    DeclaredInRange(prog, c.state, phase, c);
  }

  /** Every body of every round is the block declared for the state and the phase it runs in. */
  lemma {:induction false} RoundsRunDeclared<U(!new)>(prog: Program<U>, c: Config<U>, m: nat)
    requires CodesInRange(prog) && KeepsRange(prog) && InRange(c.state)
    ensures var before := Rounds(prog, c, m);
            var middle := AfterExit(prog, before);
            && InRange(before.state)
            && middle == Declared(prog, before.state, Exit, before)
            && Rounds(prog, c, m + 1) == Declared(prog, middle.state, Enter, middle)
  {
    hide InRange, Body, Declared, KeepsRange, CodesInRange;
    if m > 0 {
      RoundsRunDeclared(prog, c, m - 1);
      BodyIsDeclared(prog, Exit, Rounds(prog, c, m - 1));
      BodyIsDeclared(prog, Enter, AfterExit(prog, Rounds(prog, c, m - 1)));
    }
    BodyIsDeclared(prog, Exit, Rounds(prog, c, m));
    BodyIsDeclared(prog, Enter, AfterExit(prog, Rounds(prog, c, m)));
  }

  /** Round m + 1 of the loop, entered at its odd count. */
  lemma LoopRound<U>(prog: Program<U>, m: nat, saved: bv32, c: Config<U>)
    requires m < MAXT
    requires m > 0 ==> Negative(Rounds(prog, c, m).state)
    ensures var before := Rounds(prog, c, m);
            var after := Rounds(prog, c, m + 1);
            var run := RoundBodies(prog, c, m);
            Loop(prog, 2 * m + 1, saved, before, run)
            == if m == MAXT - 1 then Verdict(prog, c, 0)
               else if Ends(prog, c, m + 1) then Verdict(prog, c, m + 1)
               else Loop(prog, 2 * m + 3, after.state, after, RoundBodies(prog, c, m + 1))
  {
    hide Body, Negative;
    var before := Rounds(prog, c, m);
    var middle := AfterExit(prog, before);
    var after := Rounds(prog, c, m + 1);
    var run := RoundBodies(prog, c, m) + [(Exit, before.state)];
    assert Loop(prog, 2 * m + 1, saved, before, RoundBodies(prog, c, m))
        == Loop(prog, 2 * m + 2, middle.state, middle, run);
    if m < MAXT - 1 {
      var both := run + [(Enter, middle.state)];
      assert both == RoundBodies(prog, c, m + 1);
      assert Loop(prog, 2 * m + 2, middle.state, middle, run)
          == if middle.state != after.state then Result(StateChanged, after, both)
             else Loop(prog, 2 * m + 3, after.state, after, both);
    }
  }

  /** From round m + 1 on, up to the first round that ends the run. */
  lemma {:induction false} LoopFrom<U>(prog: Program<U>, m: nat, saved: bv32, c: Config<U>) returns (last: nat)
    requires m < MAXT
    requires forall j :: 1 <= j <= m ==> !Ends(prog, c, j)
    ensures Loop(prog, 2 * m + 1, saved, Rounds(prog, c, m), RoundBodies(prog, c, m)) == Verdict(prog, c, last)
    ensures last < MAXT
    ensures last == 0 ==> forall j :: 1 <= j < MAXT ==> !Ends(prog, c, j)
    ensures last > 0 ==> Ends(prog, c, last) && forall j :: 1 <= j < last ==> !Ends(prog, c, j)
    decreases MAXT - m
  {
    hide Body, Negative, Loop, Rounds, RoundBodies, Verdict, Changes;
    assert m > 0 ==> !Ends(prog, c, m);
    LoopRound(prog, m, saved, c);
    if m == MAXT - 1 {
      last := 0;
    } else if Ends(prog, c, m + 1) {
      last := m + 1;
    } else {
      last := LoopFrom(prog, m + 1, Rounds(prog, c, m + 1).state, c);
    }
  }

  /** One FSM_Switch: the first of the first 63 rounds that ends in a steady state or whose Enter code
    * changes the state decides, and nothing runs after it; if there is none, the infinite loop is
    * reported after 127 bodies. */
  lemma RunBound<U>(prog: Program<U>, saved: bv32, c: Config<U>) returns (last: nat)
    ensures Loop(prog, 1, saved, c, []) == Verdict(prog, c, last)
    ensures last < MAXT
    ensures last == 0 ==> forall j :: 1 <= j < MAXT ==> !Ends(prog, c, j)
    ensures last > 0 ==> Ends(prog, c, last) && forall j :: 1 <= j < last ==> !Ends(prog, c, j)
  {
    last := LoopFrom(prog, 0, saved, c);
  }

  /** Enter code of round m keeps the state, and its signed value is negative. */
  predicate GoesOn<U>(prog: Program<U>, c: Config<U>, m: nat)
    requires m > 0
  {
    AfterExit(prog, Rounds(prog, c, m - 1)).state == Rounds(prog, c, m).state >= 0x8000_0000
  }

  /** None of the first m rounds ends the run. */
  predicate Passed<U>(prog: Program<U>, c: Config<U>, m: nat) {
    forall j :: 1 <= j <= m ==> GoesOn(prog, c, j)
  }

  /** Round m is the first in which Enter code changes the state, if none ends steady before it. */
  predicate BreaksAt<U>(prog: Program<U>, c: Config<U>, m: nat) {
    1 <= m < 64 && Passed(prog, c, m - 1)
    && AfterExit(prog, Rounds(prog, c, m - 1)).state != Rounds(prog, c, m).state
  }

  /** Round m is the first that ends in a state whose signed value is not negative, all Enter code up to
    * it keeping the state. */
  predicate SettlesAt<U>(prog: Program<U>, c: Config<U>, m: nat) {
    1 <= m < 64 && Passed(prog, c, m - 1)
    && AfterExit(prog, Rounds(prog, c, m - 1)).state == Rounds(prog, c, m).state < 0x8000_0000
  }

  lemma GoesOnMeans<U>(prog: Program<U>, c: Config<U>, m: nat)
    requires m > 0
    ensures GoesOn(prog, c, m) <==> !Ends(prog, c, m)
  {
    hide Body, Negative, Rounds, AfterExit;
    NegativeIsSigned(Rounds(prog, c, m).state);
  }

  /** The first round that ends the run is the one that settles or breaks it. */
  lemma FirstEnd<U>(prog: Program<U>, c: Config<U>, m: nat)
    requires 1 <= m < 64
    ensures BreaksAt(prog, c, m)
            <==> Ends(prog, c, m) && Changes(prog, c, m) && forall j :: 1 <= j < m ==> !Ends(prog, c, j)
    ensures SettlesAt(prog, c, m)
            <==> Ends(prog, c, m) && !Changes(prog, c, m) && forall j :: 1 <= j < m ==> !Ends(prog, c, j)
  {
    hide Body, Negative, Rounds, AfterExit, GoesOn;
    NegativeIsSigned(Rounds(prog, c, m).state);
    forall j | 1 <= j <= m
      ensures GoesOn(prog, c, j) <==> !Ends(prog, c, j)
    {
      GoesOnMeans(prog, c, j);
    }
  }

  lemma {:induction false} RoundBodiesAt<U>(prog: Program<U>, c: Config<U>, m: nat, k: nat)
    requires k < 2 * m
    ensures RoundBodies(prog, c, m)[k]
         == if k % 2 == 0 then (Exit, Rounds(prog, c, k / 2).state)
            else (Enter, AfterExit(prog, Rounds(prog, c, k / 2)).state)
  {
    hide Body, AfterExit;
    if k < 2 * (m - 1) {
      RoundBodiesAt(prog, c, m - 1, k);
    }
  }

  /** Exactly when each of the three outcomes occurs, and where it leaves the machine; there is at most
    * one round that settles or breaks the run. */
  lemma OutcomesExactly<U>(prog: Program<U>, saved: bv32, c: Config<U>)
    ensures var r := Loop(prog, 1, saved, c, []);
            && (r.outcome == InfiniteLoop <==> Passed(prog, c, 63))
            && (r.outcome == Settled <==> exists m: nat :: SettlesAt(prog, c, m))
            && (r.outcome == StateChanged <==> exists m: nat :: BreaksAt(prog, c, m))
            && (forall m: nat :: SettlesAt(prog, c, m) || BreaksAt(prog, c, m) ==>
                  r.config == Rounds(prog, c, m) && |r.bodies| == 2 * m)
            && (r.outcome == InfiniteLoop ==>
                  r.config == AfterExit(prog, Rounds(prog, c, 63)) && |r.bodies| == 127)
  {
    hide Body, Loop, Rounds, AfterExit, RoundBodies, Ends, Changes, GoesOn, BreaksAt, SettlesAt;
    var last := RunBound(prog, saved, c);
    forall m | 1 <= m < 64
      ensures GoesOn(prog, c, m) <==> !Ends(prog, c, m)
    {
      GoesOnMeans(prog, c, m);
    }
    forall m: nat | SettlesAt(prog, c, m) || BreaksAt(prog, c, m)
      ensures 1 <= m < 64
    {
      EndsWithin(prog, c, m);
    }
    forall m | 1 <= m < 64
      ensures BreaksAt(prog, c, m) <==> m == last && Changes(prog, c, m)
      ensures SettlesAt(prog, c, m) <==> m == last && !Changes(prog, c, m)
    {
      FirstEnd(prog, c, m);
    }
    if last > 0 {
      EndedBodies(prog, c, last);
    }
  }

  lemma EndedBodies<U>(prog: Program<U>, c: Config<U>, last: nat)
    requires 1 <= last
    ensures Verdict(prog, c, last).config == Rounds(prog, c, last)
    ensures |Verdict(prog, c, last).bodies| == 2 * last
    ensures Verdict(prog, c, last).outcome == if Changes(prog, c, last) then StateChanged else Settled
  {
    hide Rounds, AfterExit, Changes;
  }

  lemma EndsWithin<U>(prog: Program<U>, c: Config<U>, m: nat)
    requires SettlesAt(prog, c, m) || BreaksAt(prog, c, m)
    ensures 1 <= m < 64
  {
    hide GoesOn, Rounds, AfterExit;
  }

  /** The bodies of a run alternate, Exit first, each in the state that the one before it left. */
  lemma BodiesAlternate<U>(prog: Program<U>, saved: bv32, c: Config<U>, k: nat)
    requires k < |Loop(prog, 1, saved, c, []).bodies|
    ensures Loop(prog, 1, saved, c, []).bodies[k]
         == if k % 2 == 0 then (Exit, Rounds(prog, c, k / 2).state)
            else (Enter, AfterExit(prog, Rounds(prog, c, k / 2)).state)
  {
    hide Body, Negative, Loop, Rounds, AfterExit, RoundBodies, Ends, Changes;
    var last := RunBound(prog, saved, c);
    var rounds := if last == 0 then MAXT - 1 else last;
    if k < 2 * rounds {
      RoundBodiesAt(prog, c, rounds, k);
    }
  }

  /** Enter code that leaves the state alone never raises the state-change error. */
  lemma QuietEnter<U>(prog: Program<U>, saved: bv32, c: Config<U>)
    requires forall m :: 0 <= m < 63 ==>
               var d := AfterExit(prog, Rounds(prog, c, m)); Body(prog, Enter, d).state == d.state
    ensures Loop(prog, 1, saved, c, []).outcome != StateChanged
  {
    hide Body, Negative, Loop, RoundBodies;
    var last := RunBound(prog, saved, c);
  }

  // ---------- The object and the loop as it runs ----------

  /** The object that stores the state. */
  class FSM {
    var state: bv32

    constructor ()
      ensures state == 0
    {
      state := 0;
    }

    function GetState(): bv32
      reads this
    {
      state
    }

    predicate IsInTransientState()
      reads this
    {
      Negative(state)
    }

    method SetState(s: bv32)
      modifies this
      ensures state == s
    {
      state := s;
    }
  }

  /** The for-loop of the macro around the program's switch, until it ends or an error is raised. */
  method FsmSwitch<U>(fsm: FSM, prog: Program<U>, env: U)
    returns (outcome: Outcome, env': U, ghost bodies: seq<(Phase, bv32)>)
    modifies fsm
    ensures Result(outcome, Config(fsm.state, env'), bodies) == Loop(prog, 1, 0, Config(old(fsm.state), env), [])
  {
    hide Body, Negative;
    env' := env;
    bodies := [];
    var i: nat := 1;
    var saved: bv32 := 0;
    ghost var all := Loop(prog, 1, 0, Config(fsm.state, env), []);
    while (i < 3 || i % 2 == 0 || fsm.IsInTransientState())
      invariant i <= 2 * MAXT
      invariant Loop(prog, i, saved, Config(fsm.state, env'), bodies) == all
      decreases 2 * MAXT - i
    {
      if !(i < 2 * MAXT) {
        return InfiniteLoop, env', bodies;
      }
      bodies := bodies + [(PhaseAt(i), fsm.state)];
      var after := Body(prog, PhaseAt(i), Config(fsm.GetState(), env'));
      fsm.SetState(after.state);
      env' := after.env;
      if i % 2 == 0 && saved != fsm.GetState() {
        return StateChanged, env', bodies;
      }
      saved := fsm.GetState();
      i := i + 1;
    }
    outcome := Settled;
  }
}
