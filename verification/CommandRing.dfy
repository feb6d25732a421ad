/** The command ring of os/src/xhci/ring.rs: software pushes word by word while the controller
    reads, in any interleaving (sections 4.9.2 and 4.9.3 of the xHCI specification). */
module CommandRing {
  import opened Common
  import opened Trb
  import opened Ring

  /** Where a `push` is: not running; writing the three words of the TRB, each flag telling that
      its word is there; or past the last slot, with the Link TRB still to hand over. */
  datatype Pc =
    | Idle
    | Writing(src: Entry, data: bool, option: bool, control: bool)
    | Linking

  /** `base` is the address of the ring. `cursor` and `passes` belong to the controller. `pushed` and `taken` record, without cycle
      bits, what was handed over and what the controller took. */
  datatype State = State(
    base: nat,
    ring: Ring,
    ours: bool,
    pc: Pc,
    cursor: Cursor,
    passes: nat,
    pushed: seq<Entry>,
    taken: seq<Entry>)

  /** A ring fresh from `default` or `reset`, and a controller started on it with cycle state 1. */
  ghost predicate IsInit(s: State) {
    FreshProducer(s.ring) && LinksTo(s.ring.trb[LAST], s.base) && !s.ours && s.pc.Idle? && s.cursor == Cursor(0, true) && s.passes == 0 && s.pushed == [] && s.taken == []
  }

  datatype Action =
    | Begin(src: Entry)
    | WriteData
    | WriteOption
    | WriteControl
    | HandOver
    | HandOverLink
    | Controller

  /** The caller's obligations at a `push`: no Link TRBs, and at most 13 TRBs the controller has not
      taken. The other software steps follow the program order. */
  ghost predicate Enabled(s: State, a: Action) {
    match a
    case Begin(src) => s.pc.Idle? && src.kind != LINK && |s.pushed| <= |s.taken| + 13
    case WriteData => s.pc.Writing? && !s.pc.data
    case WriteOption => s.pc.Writing? && !s.pc.option
    case WriteControl => s.pc.Writing? && !s.pc.control
    case HandOver => s.pc.Writing? && s.pc.data && s.pc.option && s.pc.control
    case HandOverLink => s.pc.Linking?
    case Controller => true
  }

  function Current(s: State): Entry
    requires s.ring.Valid()
  {
    s.ring.trb[s.ring.index]
  }

  function SetCurrent(s: State, t: Entry): State
    requires s.ring.Valid()
  {
    s.(ring := s.ring.(trb := s.ring.trb[s.ring.index := t]))
  }

  /** The control word of `src`, carrying our cycle, over that of `t`. */
  function WithControl(t: Entry, src: Entry, ours: bool): Entry {
    src.(data := t.data, option := t.option, cycle := ours)
  }

  /** The slot at an address, or the one past the ring, where the controller finds nothing. */
  function SlotAt(base: nat, addr: nat): nat {
    if base <= addr < base + 16 * NUM_TRB && (addr - base) % 16 == 0 then (addr - base) / 16 else NUM_TRB
  }

  /** What the controller does when it looks at the ring; at a Link TRB it goes where that points. */
  function ControllerStep(s: State): State
    requires s.ring.Valid()
  {
    if s.cursor.at >= NUM_TRB then s else
      var t := s.ring.trb[s.cursor.at];
      if t.cycle != s.cursor.cycle then s
      else if t.kind == LINK then
        s.(cursor := Cursor(SlotAt(s.base, t.data), if t.toggle then !s.cursor.cycle else s.cursor.cycle), passes := s.passes + 1)
      else s.(cursor := s.cursor.(at := s.cursor.at + 1), taken := s.taken + [Strip(t)])
  }

  /** One step; `Err` is an error return of `push`. */
  function Step(s: State, a: Action): Result<State>
    requires s.ring.Valid() && Enabled(s, a)
  {
    match a
    case Begin(src) =>
      if Current(s).cycle != s.ours then Err else Ok(s.(pc := Writing(src, false, false, false)))
    case WriteData => Ok(SetCurrent(s, Current(s).(data := s.pc.src.data)).(pc := s.pc.(data := true)))
    case WriteOption => Ok(SetCurrent(s, Current(s).(option := s.pc.src.option)).(pc := s.pc.(option := true)))
    case WriteControl => Ok(SetCurrent(s, WithControl(Current(s), s.pc.src, s.ours)).(pc := s.pc.(control := true)))
    case HandOver =>
      (match Advance(s.ring, !s.ours)
       case Err => Err
       case Ok(r) =>
         var pc' := if r.trb[r.index].kind == LINK then Linking else Idle;
         Ok(s.(ring := r, pc := pc', pushed := s.pushed + [Strip(s.pc.src)])))
    case HandOverLink =>
      (match Advance(s.ring, !s.ours)
       case Err => Err
       case Ok(r) => Ok(s.(ring := r, ours := !s.ours, pc := Idle)))
    case Controller => Ok(ControllerStep(s))
  }

  //
  // Invariant
  //

  /** The last 14 TRBs handed over are in their slots. */
  ghost predicate Holds(trb: seq<Entry>, pushed: seq<Entry>)
    requires |trb| == NUM_TRB
  {
    forall a :: 0 <= a < |pushed| <= a + 14 ==> Strip(trb[a % 15]) == pushed[a]
  }

  ghost predicate Written(t: Entry, pc: Pc, ours: bool)
    requires pc.Writing?
  {
    && pc.src.kind != LINK
    && (pc.data ==> t.data == pc.src.data)
    && (pc.option ==> t.option == pc.src.option)
    && (pc.control ==> t == WithControl(t, pc.src, ours))
  }

  /** What software has made of the ring; the controller has no part in it. */
  ghost predicate ProducerOk(base: nat, r: Ring, ours: bool, pc: Pc, pushed: seq<Entry>) {
    && |r.trb| == NUM_TRB && LinksTo(r.trb[LAST], base)
    && (if pc.Linking? then MidLap(r, ours, |pushed|) else Lapped(r, ours, |pushed|))
    && (pc.Writing? ==> Written(r.trb[r.index], pc, ours))
    && Holds(r.trb, pushed)
  }

  ghost predicate Inv(s: State) {
    var n, m := |s.pushed|, |s.taken|;
    && m <= n <= m + 14 && (s.pc.Writing? ==> n <= m + 13)
    && CursorOk(s.cursor, m, s.passes)
    && s.taken == s.pushed[..m]
    && ProducerOk(s.base, s.ring, s.ours, s.pc, s.pushed)
  }

  lemma InitInv(s: State)
    requires IsInit(s)
    ensures Inv(s)
  {
    FreshIsLapped(s.ring);
  }

  /** Writing the current slot keeps everything the controller may look at. */
  lemma SetCurrentKeeps(s: State, t: Entry, pc: Pc)
    requires Inv(s) && s.pc.Writing? && t.kind != LINK && t.cycle == Current(s).cycle
    requires pc.Writing? && Written(t, pc, s.ours)
    ensures Inv(SetCurrent(s, t).(pc := pc))
  {
    var n := |s.pushed|;
    LappedCycles(s.ring, s.ours, n, s.ring.index);
    WriteCurrent(s.ring, s.ours, n, t);
    forall a | 0 <= a < n <= a + 14
      ensures Strip(SetCurrent(s, t).ring.trb[a % 15]) == s.pushed[a]
    {
      OtherSlot(n, a);
    }
  }

  lemma OtherSlot(n: nat, a: nat)
    requires a < n <= a + 14
    ensures a % 15 != n % 15
  {
  }

  lemma HoldsNext(trb: seq<Entry>, pushed: seq<Entry>, t: Entry)
    requires |trb| == NUM_TRB && Holds(trb, pushed)
    ensures Holds(trb[|pushed| % 15 := t], pushed + [Strip(t)])
  {
    forall a | 0 <= a < |pushed| + 1 <= a + 14
      ensures Strip(trb[|pushed| % 15 := t][a % 15]) == (pushed + [Strip(t)])[a]
    {
      if a < |pushed| {
        OtherSlot(|pushed|, a);
      }
    }
  }

  lemma HandOverKeeps(s: State)
    requires Inv(s) && Enabled(s, HandOver)
    ensures Step(s, HandOver).Ok? && Inv(Step(s, HandOver).value)
  {
    FlipCurrent(s.ring, s.ours, |s.pushed|);
    CurrentKind(s);
    assert Current(s) == s.pc.src.(cycle := s.ours);
    HoldsNext(s.ring.trb, s.pushed, s.pc.src.(cycle := !s.ours));
  }

  lemma HandOverLinkKeeps(s: State)
    requires Inv(s) && Enabled(s, HandOverLink)
    ensures Step(s, HandOverLink).Ok? && Inv(Step(s, HandOverLink).value)
  {
    FlipLink(s.ring, s.ours, |s.pushed|);
  }

  /** The controller sees a TRB exactly when one is waiting in its slot; at the Link TRB it goes on
      exactly when software has handed it over. */
  lemma ControllerSees(s: State)
    requires Inv(s)
    ensures var t := s.ring.trb[s.cursor.at];
            && (t.kind == LINK <==> s.cursor.at == LAST)
            && (s.cursor.at < LAST ==> (t.cycle == s.cursor.cycle <==> |s.taken| < |s.pushed|))
            && (s.cursor.at == LAST ==> (t.cycle == s.cursor.cycle <==> !s.pc.Linking?))
  {
    var n, m := |s.pushed|, |s.taken|;
    if s.pc.Linking? {
      CursorSeesMidLap(s.ring, s.ours, n, s.cursor, m, s.passes);
    } else {
      CursorSees(s.ring, s.ours, n, s.cursor, m, s.passes);
    }
  }

  /** What the controller takes is the next command. */
  lemma TakesNext(trb: seq<Entry>, pushed: seq<Entry>, m: nat, at: nat)
    requires |trb| == NUM_TRB && Holds(trb, pushed) && m < |pushed| <= m + 14 && at == m % 15
    ensures pushed[..m] + [Strip(trb[at])] == pushed[..m + 1]
  {
    assert Strip(trb[m % 15]) == pushed[m];
  }

  lemma ControllerKeeps(s: State)
    requires Inv(s)
    ensures Inv(ControllerStep(s))
  {
    ControllerSees(s);
    var t := s.ring.trb[s.cursor.at];
    if t.cycle == s.cursor.cycle {
      if s.cursor.at < LAST {
        TakeKeeps(s);
      } else {
        LinkKeeps(s);
      }
    }
  }

  /** A controller that has moved on with what it should have taken. */
  lemma MovedOn(s: State, c: Cursor, passes: nat, m: nat)
    requires Inv(s) && |s.taken| <= m <= |s.pushed| && CursorOk(c, m, passes)
    ensures Inv(s.(cursor := c, passes := passes, taken := s.pushed[..m]))
  {
  }

  lemma TakeKeeps(s: State)
    requires Inv(s) && s.cursor.at < LAST && s.ring.trb[s.cursor.at].kind != LINK
    requires s.ring.trb[s.cursor.at].cycle == s.cursor.cycle && |s.taken| < |s.pushed|
    ensures Inv(ControllerStep(s))
  {
    var m := |s.taken|;
    CursorMoves(s.cursor, m, s.passes);
    TakesNext(s.ring.trb, s.pushed, m, s.cursor.at);
    MovedOn(s, s.cursor.(at := s.cursor.at + 1), s.passes, m + 1);
  }

  lemma LinkKeeps(s: State)
    requires Inv(s) && s.cursor.at == LAST && s.ring.trb[LAST].kind == LINK && s.ring.trb[LAST].cycle == s.cursor.cycle
    ensures Inv(ControllerStep(s))
  {
    CursorMoves(s.cursor, |s.taken|, s.passes);
    LinkLeadsHome(s.base, s.ring.trb[LAST]);
    MovedOn(s, Cursor(0, !s.cursor.cycle), s.passes + 1, |s.taken|);
  }

  /** The address in the Link TRB is that of slot 0. */
  lemma LinkLeadsHome(base: nat, t: Entry)
    requires LinksTo(t, base)
    ensures t.toggle && SlotAt(base, t.data) == 0
  {
  }

  /** No step of a legal interleaving makes `push` fail, and every step keeps the invariant. */
  lemma StepKeeps(s: State, a: Action)
    requires Inv(s) && Enabled(s, a)
    ensures Step(s, a).Ok? && Inv(Step(s, a).value)
  {
    match a
    case Begin(src) => LappedCycles(s.ring, s.ours, |s.pushed|, s.ring.index);
    case WriteData =>
      CurrentKind(s);
      SetCurrentKeeps(s, Current(s).(data := s.pc.src.data), s.pc.(data := true));
    case WriteOption =>
      CurrentKind(s);
      SetCurrentKeeps(s, Current(s).(option := s.pc.src.option), s.pc.(option := true));
    case WriteControl =>
      CurrentKind(s);
      SetCurrentKeeps(s, WithControl(Current(s), s.pc.src, s.ours), s.pc.(control := true));
    case HandOver => HandOverKeeps(s);
    case HandOverLink => HandOverLinkKeeps(s);
    case Controller => ControllerKeeps(s);
  }

  lemma CurrentKind(s: State)
    requires Inv(s) && s.pc.Writing?
    ensures Current(s).kind != LINK && Current(s).cycle == s.ours
  {
    LappedCycles(s.ring, s.ours, |s.pushed|, s.ring.index);
    assert SlotOk(s.ring.trb[s.ring.index], |s.pushed|, s.ring.index);
  }

  //
  // Runs
  //

  ghost predicate LegalRun(s: State, run: seq<Action>)
    requires Inv(s)
    decreases |run|
  {
    run == [] || (Enabled(s, run[0]) && (StepKeeps(s, run[0]); LegalRun(Step(s, run[0]).value, run[1..])))
  }

  ghost function Run(s: State, run: seq<Action>): (s': State)
    requires Inv(s) && LegalRun(s, run)
    ensures Inv(s')
    decreases |run|
  {
    if run == [] then s else
      StepKeeps(s, run[0]);
      Run(Step(s, run[0]).value, run[1..])
  }

  /** The controller has taken a prefix of the pushed commands, in order and whole; and unless a
      `push` is about to hand over the Link TRB, a waiting command makes its next step a move. */
  ghost predicate Delivers(s: State) {
    && s.ring.Valid() && s.cursor.at < NUM_TRB
    && s.taken <= s.pushed
    && |s.pushed| <= |s.taken| + 14
    && (|s.taken| < |s.pushed| && !s.pc.Linking? ==> ControllerStep(s).cursor.at != s.cursor.at)
  }

  lemma InvDelivers(s: State)
    requires Inv(s)
    ensures Delivers(s)
  {
    ControllerSees(s);
  }

  lemma RunDeliversInOrder(s0: State, run: seq<Action>)
    requires IsInit(s0) && Inv(s0) && LegalRun(s0, run)
    ensures Delivers(Run(s0, run))
  {
    InvDelivers(Run(s0, run));
  }

  ghost predicate OnlyController(run: seq<Action>) {
    forall i :: 0 <= i < |run| ==> run[i] == Controller
  }

  /** Left alone, the controller takes everything that was pushed: here is the run that does it. */
  lemma {:induction false} ControllerDrains(s: State) returns (run: seq<Action>)
    requires Inv(s) && s.pc.Idle?
    ensures OnlyController(run) && LegalRun(s, run) && Run(s, run).taken == s.pushed
    decreases |s.pushed| - |s.taken|, if s.cursor.at == LAST then 1 else 0
  {
    if |s.taken| == |s.pushed| {
      run := [];
    } else {
      ControllerSees(s);
      ControllerKeeps(s);
      var rest := ControllerDrains(ControllerStep(s));
      run := [Controller] + rest;
      assert run[1..] == rest;
    }
  }

  //
  // `push` as one call
  //

  /** `push` on a ring nobody interferes with. */
  function Push(r: Ring, ours: bool, src: Entry): Result<(Ring, bool)>
    requires r.Valid()
  {
    if r.trb[r.index].cycle != ours then Err
    else Publish(r.(trb := r.trb[r.index := src.(cycle := ours)]), ours)
  }

  lemma PushPlain(r: Ring, ours: bool, n: nat, src: Entry)
    requires Lapped(r, ours, n) && src.kind != LINK
    ensures Push(r, ours, src).Ok?
    ensures var (r', ours') := Push(r, ours, src).value;
            Lapped(r', ours', n + 1) && r'.trb[n % 15] == src.(cycle := !ours)
  {
    LappedCycles(r, ours, n, r.index);
    var w := r.(trb := r.trb[r.index := src.(cycle := ours)]);
    WriteCurrent(r, ours, n, src.(cycle := ours));
    PublishAdvances(w, ours, n);
  }

  /** The type of the TRB that is pushed plays no part in the call. */
  lemma PushIgnoresKind(r: Ring, ours: bool, n: nat, src: Entry, kind: nat)
    requires Lapped(r, ours, n)
    ensures Push(r, ours, src).Ok? <==> Push(r, ours, src.(kind := kind)).Ok?
    ensures Push(r, ours, src).Ok? ==>
              var (r1, r2) := (Push(r, ours, src).value, Push(r, ours, src.(kind := kind)).value);
              r1.1 == r2.1 && r1.0.index == r2.0.index && r2.0.trb == r1.0.trb[n % 15 := r1.0.trb[n % 15].(kind := kind)]
  {
    LappedCycles(r, ours, n, r.index);
  }

  /** It never reports a full ring, and leaves the TRB in its slot with the flipped cycle. The ring is
      one TRB further in good order if and only if that was not a Link. */
  lemma PushSucceeds(r: Ring, ours: bool, n: nat, src: Entry)
    requires Lapped(r, ours, n)
    ensures Push(r, ours, src).Ok?
    ensures var (r', ours') := Push(r, ours, src).value;
            && r'.trb[n % 15] == src.(cycle := !ours)
            && (Lapped(r', ours', n + 1) <==> src.kind != LINK)
  {
    if src.kind != LINK {
      PushPlain(r, ours, n, src);
    } else {
      PushPlain(r, ours, n, src.(kind := NORMAL));
      PushIgnoresKind(r, ours, n, src.(kind := NORMAL), LINK);
      assert src.(kind := NORMAL).(kind := LINK) == src;
      var (r', ours') := Push(r, ours, src).value;
      if SlotsOk(r'.trb, n + 1) {
        NoLinkBefore(r'.trb, n + 1, n % 15);
      }
    }
  }

  /** On any ring, in order or not: `push` fails exactly if the current slot does not carry our cycle,
      or if a Link TRB comes next that carries the flipped one. */
  lemma PushErrsExactly(r: Ring, ours: bool, src: Entry)
    requires r.Valid()
    ensures Push(r, ours, src).Err? <==>
            var next := r.trb[(r.index + 1) % 16];
            r.trb[r.index].cycle != ours || (next.kind == 6 && next.cycle != ours)
  {
    assert (r.index + 1) % 16 != r.index;
  }

  /** What a Link in the middle does a lap later: the push before it hands over the stale slot too,
      and takes the lap for ended. */
  lemma StaleLinkIsHandedOver(r: Ring, ours: bool, n: nat, src: Entry)
    requires Lapped(r, ours, n) && n % 15 < 14
    ensures var j := n % 15 + 1;
            var r1 := r.(trb := r.trb[j := r.trb[j].(kind := LINK)]);
            && Push(r1, ours, src).Ok?
            && var (r', ours') := Push(r1, ours, src).value;
            r'.index == j + 1 && ours' != ours && r'.trb[j] == r1.trb[j].(cycle := !ours)
  {
    LappedCycles(r, ours, n, n % 15);
    LappedCycles(r, ours, n, n % 15 + 1);
  }

  /** The word-by-word steps, run without interruption, are that call. */
  lemma StepsArePush(s: State, src: Entry)
    requires Inv(s) && Enabled(s, Begin(src))
    ensures Push(s.ring, s.ours, src).Ok?
    ensures var s4 := s.(pc := Writing(src, true, true, true), ring := s.ring.(trb := s.ring.trb[s.ring.index := src.(cycle := s.ours)]));
            && Step(s, Begin(src)) == Ok(s.(pc := Writing(src, false, false, false)))
            && Inv(s4) && Step(s4, HandOver).Ok?
            && var s5 := Step(s4, HandOver).value;
            && (s5.pc.Idle? ==> (s5.ring, s5.ours) == Push(s.ring, s.ours, src).value)
            && (s5.pc.Linking? ==> Inv(s5) && Step(s5, HandOverLink).Ok?
                                   && var s6 := Step(s5, HandOverLink).value;
                                   s6.pc.Idle? && (s6.ring, s6.ours) == Push(s.ring, s.ours, src).value)
  {
    StepKeeps(s, Begin(src));
    PushPlain(s.ring, s.ours, |s.pushed|, src);
    var s1 := s.(pc := Writing(src, false, false, false));
    SetCurrentKeeps(s1, src.(cycle := s.ours), Writing(src, true, true, true));
    var s4 := SetCurrent(s1, src.(cycle := s.ours)).(pc := Writing(src, true, true, true));
    StepKeeps(s4, HandOver);
    var s5 := Step(s4, HandOver).value;
    if s5.pc.Linking? {
      StepKeeps(s5, HandOverLink);
    }
  }
}
