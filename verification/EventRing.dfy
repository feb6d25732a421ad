/** The event ring of os/src/xhci/ring.rs: the controller writes events, software pops them, in any
    interleaving (section 4.9.4 of the xHCI specification). */
module EventRing {
  import opened Trb
  import opened Ring
  import opened Common

  /** An event the controller is writing: its control word, with the cycle bit, comes last. */
  datatype Pending = Nothing | Event(event: Entry, data: bool, option: bool)

  /** Where a `pop` is: not running; past its look at the cycle bit and reading the words of the
      slot, each flag telling that its word has been read; or past the slot, with the register
      still to write. */
  datatype Pc =
    | Idle
    | Reading(got: Entry, data: bool, option: bool, control: bool)
    | Passed(slot: nat)

  /** `ring`, `ours`, `pc` and `erdp`, the slot the dequeue pointer register names, are software's;
      `enqueue`, `cycle` and `pending` are the controller's. `written` and `popped` record, without
      cycle bits, the completed events and those software has read. */
  datatype State = State(
    ring: Ring,
    ours: bool,
    pc: Pc,
    erdp: nat,
    enqueue: nat,
    cycle: bool,
    pending: Pending,
    written: seq<Entry>,
    popped: seq<Entry>)

  /** `EventRing::new` after `init_irs`, and a controller that starts with cycle 1. */
  ghost predicate IsInit(s: State) {
    && s.ring == Ring(ZeroedTrbs(), 0) && s.ours && s.pc.Idle? && s.erdp == 0
    && s.enqueue == 0 && s.cycle && s.pending == Nothing && s.written == [] && s.popped == []
  }

  datatype Action =
    | Start(event: Entry)
    | WriteData
    | WriteOption
    | WriteControl
    | Look
    | ReadData
    | ReadOption
    | ReadControl
    | Pass
    | SetErdp

  /** The controller starts an event only if that does not make its enqueue pointer reach the slot
      named by the dequeue pointer register. */
  ghost predicate Enabled(s: State, a: Action) {
    match a
    case Start(_) => s.pending.Nothing? && (s.enqueue + 1) % NUM_TRB != s.erdp
    case WriteData => s.pending.Event? && !s.pending.data
    case WriteOption => s.pending.Event? && !s.pending.option
    case WriteControl => s.pending.Event? && s.pending.data && s.pending.option
    case Look => s.pc.Idle?
    case ReadData => s.pc.Reading? && !s.pc.data
    case ReadOption => s.pc.Reading? && !s.pc.option
    case ReadControl => s.pc.Reading? && !s.pc.control
    case Pass => s.pc.Reading? && s.pc.data && s.pc.option && s.pc.control
    case SetErdp => s.pc.Passed?
  }

  predicate HasNextEvent(s: State)
    requires s.ring.Valid()
  {
    s.ring.trb[s.ring.index].cycle == s.ours
  }

  /** `pop` without interference; the register is set to the slot just consumed. */
  function PopStep(s: State): State
    requires s.ring.Valid()
  {
    if !HasNextEvent(s) then s else
      var i := s.ring.index;
      var i' := (i + 1) % NUM_TRB;
      s.(ring := s.ring.(index := i'), erdp := i, ours := if i' == 0 then !s.ours else s.ours, popped := s.popped + [Strip(s.ring.trb[i])])
  }

  function SetSlot(s: State, t: Entry): State
    requires s.enqueue < |s.ring.trb|
  {
    s.(ring := s.ring.(trb := s.ring.trb[s.enqueue := t]))
  }

  /** A step of the controller. */
  function Produce(s: State, a: Action): State
    requires s.ring.Valid() && s.enqueue < NUM_TRB && Enabled(s, a)
    requires a.Start? || a.WriteData? || a.WriteOption? || a.WriteControl?
  {
    match a
    case Start(e) => s.(pending := Event(e, false, false))
    case WriteData =>
      SetSlot(s, s.ring.trb[s.enqueue].(data := s.pending.event.data)).(pending := s.pending.(data := true))
    case WriteOption =>
      SetSlot(s, s.ring.trb[s.enqueue].(option := s.pending.event.option)).(pending := s.pending.(option := true))
    case WriteControl =>
      var t := s.ring.trb[s.enqueue];
      var e' := (s.enqueue + 1) % NUM_TRB;
      SetSlot(s, s.pending.event.(data := t.data, option := t.option, cycle := s.cycle)).(
      pending := Nothing,
      enqueue := e',
      cycle := if e' == 0 then !s.cycle else s.cycle,
      written := s.written + [Strip(s.pending.event)])
  }

  /** A step of `pop`; `Err` is its error return when the cycle bit has changed under it. */
  function Consume(s: State, a: Action): Result<State>
    requires s.ring.Valid() && Enabled(s, a)
    requires a.Look? || a.ReadData? || a.ReadOption? || a.ReadControl? || a.Pass? || a.SetErdp?
  {
    var t := s.ring.trb[s.ring.index];
    match a
    case Look => Ok(if HasNextEvent(s) then s.(pc := Reading(ZERO, false, false, false)) else s)
    case ReadData => Ok(s.(pc := s.pc.(got := s.pc.got.(data := t.data), data := true)))
    case ReadOption => Ok(s.(pc := s.pc.(got := s.pc.got.(option := t.option), option := true)))
    case ReadControl => Ok(s.(pc := s.pc.(got := t.(data := s.pc.got.data, option := s.pc.got.option), control := true)))
    case Pass =>
      if !HasNextEvent(s) then Err
      else Ok(s.(ring := s.ring.(index := (s.ring.index + 1) % NUM_TRB), pc := Passed(s.ring.index), popped := s.popped + [Strip(s.pc.got)]))
    case SetErdp => Ok(s.(pc := Idle, erdp := s.pc.slot, ours := if s.ring.index == 0 then !s.ours else s.ours))
  }

  function Step(s: State, a: Action): Result<State>
    requires s.ring.Valid() && s.enqueue < NUM_TRB && Enabled(s, a)
  {
    if a.Start? || a.WriteData? || a.WriteOption? || a.WriteControl? then Ok(Produce(s, a)) else Consume(s, a)
  }

  //
  // Invariant
  //

  /** How often slot `j` has been written when `w` events have been. */
  function Laps16(w: nat, j: nat): nat
    requires j < NUM_TRB
  {
    (w + 15 - j) / 16
  }

  ghost predicate Cycles(trb: seq<Entry>, w: nat) {
    |trb| == NUM_TRB && forall j :: 0 <= j < NUM_TRB ==> (trb[j].cycle <==> Odd(Laps16(w, j)))
  }

  /** The last 15 events written are in their slots. */
  ghost predicate Holds(trb: seq<Entry>, written: seq<Entry>)
    requires |trb| == NUM_TRB
  {
    forall a :: 0 <= a < |written| <= a + 15 ==> Strip(trb[a % 16]) == written[a]
  }

  /** Since the register names the last consumed slot and not the next one, the controller stops one
      event earlier once something has been popped. */
  function Capacity(popped: nat): nat { if popped == 0 then 15 else 14 }

  /** How many pops the register and the expected cycle reflect. */
  function Settled(s: State): int { if s.pc.Passed? then |s.popped| - 1 else |s.popped| }

  /** What has been read of the slot is what was written there. */
  ghost predicate ReadSoFar(pc: Pc, e: Entry) {
    pc.Reading? ==>
      && (pc.data ==> pc.got.data == e.data)
      && (pc.option ==> pc.got.option == e.option)
      && (pc.control ==> Strip(pc.got) == e.(data := pc.got.data, option := pc.got.option))
  }

  ghost predicate PcOk(s: State) {
    var w, m := |s.written|, |s.popped|;
    && (s.pc.Reading? ==> m < w && ReadSoFar(s.pc, s.written[m]))
    && (s.pc.Passed? ==> m > 0 && s.pc.slot == (m - 1) % 16)
  }

  ghost predicate Inv(s: State) {
    var w, m, d := |s.written|, |s.popped|, Settled(s);
    && 0 <= d && m <= w <= d + Capacity(d)
    && (s.pending.Event? ==> w + 1 <= d + Capacity(d))
    && s.enqueue == w % 16 && (s.cycle <==> !Odd(w / 16))
    && s.ring.index == m % 16 && (s.ours <==> !Odd(d / 16))
    && s.erdp == (if d == 0 then 0 else (d - 1) % 16)
    && Cycles(s.ring.trb, w)
    && Holds(s.ring.trb, s.written)
    && s.popped == s.written[..m]
    && PcOk(s)
    && (s.pending.Event? ==>
          && (s.pending.data ==> s.ring.trb[s.enqueue].data == s.pending.event.data)
          && (s.pending.option ==> s.ring.trb[s.enqueue].option == s.pending.event.option))
  }

  lemma InitInv(s: State)
    requires IsInit(s)
    ensures Inv(s)
  {
    forall j | 0 <= j < NUM_TRB ensures s.ring.trb[j].cycle <==> Odd(Laps16(0, j)) {
      assert Laps16(0, j) == 0;
    }
  }

  /** Software sees an event exactly when one is complete and not yet popped. */
  lemma PopSees(s: State)
    requires Inv(s) && !s.pc.Passed?
    ensures HasNextEvent(s) <==> |s.popped| < |s.written|
  {
    var w, m := |s.written|, |s.popped|;
    assert Laps16(w, m % 16) == m / 16 + if m < w then 1 else 0;
  }

  lemma NextOfSixteen(n: nat)
    ensures (n + 1) % 16 == (n % 16 + 1) % 16 == if n % 16 == 15 then 0 else n % 16 + 1
    ensures (n + 1) / 16 == n / 16 + if n % 16 == 15 then 1 else 0
    ensures Odd((n + 1) / 16) == if n % 16 == 15 then !Odd(n / 16) else Odd(n / 16)
  {
  }

  /** The next event stays in its slot, word for word, while `pop` reads it. */
  lemma SlotStable(s: State)
    requires Inv(s) && |s.popped| < |s.written|
    ensures Strip(s.ring.trb[s.ring.index]) == s.written[|s.popped|]
  {
    assert Strip(s.ring.trb[|s.popped| % 16]) == s.written[|s.popped|];
  }

  lemma ReadKeeps(s: State, a: Action)
    requires Inv(s) && Enabled(s, a) && (a.Look? || a.ReadData? || a.ReadOption? || a.ReadControl?)
    ensures Consume(s, a).Ok? && Inv(Consume(s, a).value)
  {
    if a.Look? {
      PopSees(s);
    } else {
      SlotStable(s);
    }
  }

  /** What `pop` has put together when it passes the slot is the next event, whole. */
  lemma PassKeeps(s: State)
    requires Inv(s) && Enabled(s, Pass)
    ensures Consume(s, Pass).Ok? && Inv(Consume(s, Pass).value)
  {
    var m := |s.popped|;
    PopSees(s);
    NextOfSixteen(m);
    assert Strip(s.pc.got) == s.written[m];
    assert s.written[..m + 1] == s.written[..m] + [s.written[m]];
  }

  lemma SetErdpKeeps(s: State)
    requires Inv(s) && Enabled(s, SetErdp)
    ensures Consume(s, SetErdp).Ok? && Inv(Consume(s, SetErdp).value)
  {
    NextOfSixteen(|s.popped| - 1);
  }

  lemma SixteenApart(a: nat, m: nat)
    ensures a == m + 15 ==> a % 16 == (m - 1) % 16
  {
  }

  lemma StartKeeps(s: State, e: Entry)
    requires Inv(s) && Enabled(s, Start(e))
    ensures Inv(Produce(s, Start(e)))
  {
    NextOfSixteen(|s.written|);
    SixteenApart(|s.written| + 1, Settled(s));
  }

  lemma OtherSlot16(w: nat, a: nat)
    requires a < w <= a + 15
    ensures a % 16 != w % 16
  {
  }

  /** Writing the slot at the enqueue pointer without touching its cycle bit disturbs nothing. */
  lemma SetSlotKeeps(s: State, t: Entry)
    requires Inv(s) && s.pending.Event? && t.cycle == s.ring.trb[s.enqueue].cycle
    ensures Cycles(SetSlot(s, t).ring.trb, |s.written|) && Holds(SetSlot(s, t).ring.trb, s.written)
  {
    forall a | 0 <= a < |s.written| <= a + 15
      ensures Strip(SetSlot(s, t).ring.trb[a % 16]) == s.written[a]
    {
      OtherSlot16(|s.written|, a);
    }
  }

  lemma CyclesNext(trb: seq<Entry>, w: nat, t: Entry)
    requires Cycles(trb, w) && (t.cycle <==> !Odd(w / 16))
    ensures Cycles(trb[w % 16 := t], w + 1)
  {
    var trb' := trb[w % 16 := t];
    forall j | 0 <= j < NUM_TRB
      ensures trb'[j].cycle <==> Odd(Laps16(w + 1, j))
    {
      assert Laps16(w + 1, j) == Laps16(w, j) + if j == w % 16 then 1 else 0;
      assert Laps16(w, w % 16) == w / 16;
    }
  }

  lemma HoldsNext(trb: seq<Entry>, written: seq<Entry>, t: Entry)
    requires |trb| == NUM_TRB && Holds(trb, written)
    ensures Holds(trb[|written| % 16 := t], written + [Strip(t)])
  {
    forall a | 0 <= a < |written| + 1 <= a + 15
      ensures Strip(trb[|written| % 16 := t][a % 16]) == (written + [Strip(t)])[a]
    {
      if a < |written| {
        OtherSlot16(|written|, a);
      }
    }
  }

  lemma WroteSlot(s: State)
    requires Inv(s) && Enabled(s, WriteControl)
    ensures var s' := Produce(s, WriteControl);
            Cycles(s'.ring.trb, |s.written| + 1) && Holds(s'.ring.trb, s'.written) && s'.ring.index == s.ring.index
  {
    var w := |s.written|;
    var t := s.pending.event.(cycle := s.cycle);
    CyclesNext(s.ring.trb, w, t);
    HoldsNext(s.ring.trb, s.written, t);
    assert Produce(s, WriteControl).ring.trb == s.ring.trb[w % 16 := t];
    assert Strip(t) == Strip(s.pending.event);
  }

  lemma WriteControlKeeps(s: State)
    requires Inv(s) && Enabled(s, WriteControl)
    ensures Inv(Produce(s, WriteControl))
  {
    NextOfSixteen(|s.written|);
    WroteSlot(s);
    assert Produce(s, WriteControl).written[..|s.popped|] == s.written[..|s.popped|];
  }

  predicate IsProduce(a: Action) { a.Start? || a.WriteData? || a.WriteOption? || a.WriteControl? }

  lemma ProduceKeeps(s: State, a: Action)
    requires Inv(s) && Enabled(s, a) && IsProduce(a)
    ensures Inv(Produce(s, a))
  {
    match a
    case Start(e) => StartKeeps(s, e);
    case WriteData => WriteDataKeeps(s);
    case WriteOption => WriteOptionKeeps(s);
    case WriteControl => WriteControlKeeps(s);
  }

  lemma WriteDataKeeps(s: State)
    requires Inv(s) && Enabled(s, WriteData)
    ensures Inv(Produce(s, WriteData))
  {
    SetSlotKeeps(s, s.ring.trb[s.enqueue].(data := s.pending.event.data));
  }

  lemma WriteOptionKeeps(s: State)
    requires Inv(s) && Enabled(s, WriteOption)
    ensures Inv(Produce(s, WriteOption))
  {
    SetSlotKeeps(s, s.ring.trb[s.enqueue].(option := s.pending.event.option));
  }

  lemma ConsumeKeeps(s: State, a: Action)
    requires Inv(s) && Enabled(s, a) && !IsProduce(a)
    ensures Consume(s, a).Ok? && Inv(Consume(s, a).value)
  {
    match a
    case Look => ReadKeeps(s, a);
    case ReadData => ReadKeeps(s, a);
    case ReadOption => ReadKeeps(s, a);
    case ReadControl => ReadKeeps(s, a);
    case Pass => PassKeeps(s);
    case SetErdp => SetErdpKeeps(s);
  }

  /** No step of either side makes `pop` fail, and every step keeps the invariant. */
  lemma StepKeeps(s: State, a: Action)
    requires Inv(s) && Enabled(s, a)
    ensures Step(s, a).Ok? && Inv(Step(s, a).value)
  {
    if IsProduce(a) {
      ProduceKeeps(s, a);
    } else {
      ConsumeKeeps(s, a);
    }
  }

  //
  // Runs
  //

  ghost predicate LegalRun(s: State, run: seq<Action>)
    requires Inv(s)
    decreases |run|
  {
    run == [] || (Enabled(s, run[0]) && (StepKeeps(s, run[0]); LegalRun(Step(s, run[0]).value, run[1..])))
  }

  ghost function Run(s: State, run: seq<Action>): (s': State)
    requires Inv(s) && LegalRun(s, run)
    ensures Inv(s')
    decreases |run|
  {
    if run == [] then s else
      StepKeeps(s, run[0]);
      Run(Step(s, run[0]).value, run[1..])
  }

  /** What software has popped is a prefix of what the controller wrote; every event that is still
      unread is intact in its slot; and a look finds an event exactly when one is unread. */
  ghost predicate Delivers(s: State) {
    && s.ring.Valid()
    && s.popped <= s.written
    && (forall a :: |s.popped| <= a < |s.written| ==> Strip(s.ring.trb[a % 16]) == s.written[a])
    && (s.pc.Idle? ==> (HasNextEvent(s) <==> |s.popped| < |s.written|))
  }

  lemma InvDelivers(s: State)
    requires Inv(s)
    ensures Delivers(s)
  {
    if s.pc.Idle? {
      PopSees(s);
    }
  }

  lemma RunDelivers(s0: State, run: seq<Action>)
    requires IsInit(s0) && Inv(s0) && LegalRun(s0, run)
    ensures Delivers(Run(s0, run))
  {
    InvDelivers(Run(s0, run));
  }

  /** A step that the program order allows, and where it leads. */
  ghost predicate Goes(s: State, a: Action, s': State) {
    s.ring.Valid() && s.enqueue < NUM_TRB && Enabled(s, a) && Step(s, a) == Ok(s')
  }

  ghost predicate PopChain(s: State, s1: State, s2: State, s3: State, s4: State, s5: State, s6: State) {
    && Goes(s, Look, s1) && Goes(s1, ReadData, s2) && Goes(s2, ReadOption, s3)
    && Goes(s3, ReadControl, s4) && Goes(s4, Pass, s5) && Goes(s5, SetErdp, s6)
  }

  lemma PopStates(s: State) returns (s1: State, s2: State, s3: State, s4: State, s5: State)
    requires s.ring.Valid() && s.enqueue < NUM_TRB && s.pc.Idle? && HasNextEvent(s)
    ensures PopChain(s, s1, s2, s3, s4, s5, PopStep(s))
  {
    var t := s.ring.trb[s.ring.index];
    s1 := s.(pc := Reading(ZERO, false, false, false));
    s2 := s.(pc := Reading(ZERO.(data := t.data), true, false, false));
    s3 := s.(pc := Reading(ZERO.(data := t.data, option := t.option), true, true, false));
    s4 := s.(pc := Reading(t, true, true, true));
    s5 := s.(ring := s.ring.(index := (s.ring.index + 1) % NUM_TRB), pc := Passed(s.ring.index), popped := s.popped + [Strip(t)]);
  }

  lemma GoesKeeps(s: State, a: Action, s': State)
    requires Inv(s) && Goes(s, a, s')
    ensures Inv(s')
  {
    StepKeeps(s, a);
  }

  lemma RunCons(s: State, a: Action, s': State, run: seq<Action>)
    requires Inv(s) && Inv(s') && Goes(s, a, s') && LegalRun(s', run)
    ensures LegalRun(s, [a] + run) && Run(s, [a] + run) == Run(s', run)
  {
    assert ([a] + run)[1..] == run;
  }

  lemma ChainRuns(s: State, s1: State, s2: State, s3: State, s4: State, s5: State, s6: State)
    requires Inv(s) && PopChain(s, s1, s2, s3, s4, s5, s6)
    ensures var run := [Look] + ([ReadData] + ([ReadOption] + ([ReadControl] + ([Pass] + ([SetErdp] + [])))));
            LegalRun(s, run) && Run(s, run) == s6
  {
    GoesKeeps(s, Look, s1);
    GoesKeeps(s1, ReadData, s2);
    GoesKeeps(s2, ReadOption, s3);
    GoesKeeps(s3, ReadControl, s4);
    GoesKeeps(s4, Pass, s5);
    GoesKeeps(s5, SetErdp, s6);
    RunCons(s5, SetErdp, s6, []);
    RunCons(s4, Pass, s5, [SetErdp] + []);
    RunCons(s3, ReadControl, s4, [Pass] + ([SetErdp] + []));
    RunCons(s2, ReadOption, s3, [ReadControl] + ([Pass] + ([SetErdp] + [])));
    RunCons(s1, ReadData, s2, [ReadOption] + ([ReadControl] + ([Pass] + ([SetErdp] + []))));
    RunCons(s, Look, s1, [ReadData] + ([ReadOption] + ([ReadControl] + ([Pass] + ([SetErdp] + [])))));
  }

  /** Run without interruption, the steps of `pop` are one call of it. */
  lemma StepsArePop(s: State)
    requires Inv(s) && s.pc.Idle?
    ensures !HasNextEvent(s) ==> Step(s, Look) == Ok(PopStep(s))
    ensures HasNextEvent(s) ==>
              var run := [Look] + ([ReadData] + ([ReadOption] + ([ReadControl] + ([Pass] + ([SetErdp] + [])))));
              LegalRun(s, run) && Run(s, run) == PopStep(s)
  {
    if HasNextEvent(s) {
      var s1, s2, s3, s4, s5 := PopStates(s);
      ChainRuns(s, s1, s2, s3, s4, s5, PopStep(s));
    }
  }
}
