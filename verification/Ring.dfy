/** The ring of 16 TRBs shared by software and controller (os/src/xhci/ring.rs, `TrbRing`), and
    the cycle bits a producer leaves behind on its laps (section 4.9.2 of the xHCI
    specification). */
module Ring {
  import opened BitMath
  import opened Common
  import opened Trb

  const NUM_TRB: nat := 16
  const LAST: nat := 15 // the Link TRB of a producer ring

  datatype Ring = Ring(trb: seq<Entry>, index: nat) {
    ghost predicate Valid() {
      |trb| == NUM_TRB && index < NUM_TRB
    }
  }

  /** Fresh memory is all zero. */
  function ZeroedTrbs(): (trb: seq<Entry>)
    ensures |trb| == NUM_TRB && forall j :: 0 <= j < NUM_TRB ==> trb[j] == ZERO
  {
    seq(NUM_TRB, _ => ZERO)
  }

  /** Before the first hand-over: no slot is a Link or carries a set cycle bit, and the last TRB
      links back to the start. */
  ghost predicate FreshProducer(r: Ring) {
    && |r.trb| == NUM_TRB && r.index == 0
    && (forall j :: 0 <= j < LAST ==> r.trb[j].kind != LINK && !r.trb[j].cycle)
    && r.trb[LAST].kind == LINK && r.trb[LAST].toggle && !r.trb[LAST].cycle
  }

  /** The Link TRB of a ring at `base`, whatever its cycle bit. */
  ghost predicate LinksTo(t: Entry, base: nat) {
    t == LinkTo(base).(cycle := t.cycle)
  }

  lemma FreshIsLapped(r: Ring)
    requires FreshProducer(r)
    ensures Lapped(r, false, 0)
  {
    forall j | 0 <= j < LAST ensures SlotOk(r.trb[j], 0, j) {
      LapsByIndex(0, j);
    }
  }

  /** `advance_index` */
  function Advance(r: Ring, newCycle: bool): (r': Result<Ring>)
    requires r.Valid()
    ensures r'.Ok? ==> r'.value.Valid() && r'.value.trb[r.index].cycle != r.trb[r.index].cycle
  {
    if r.trb[r.index].cycle == newCycle then Err
    else Ok(Ring(r.trb[r.index := r.trb[r.index].(cycle := newCycle)], (r.index + 1) % NUM_TRB))
  }

  /** What `push` and `dequeue_trb` do after their own checks: hand the current TRB over, and when
      that reaches the Link TRB hand it over too and toggle the cycle. */
  function Publish(r: Ring, ours: bool): (r': Result<(Ring, bool)>)
    requires r.Valid()
    ensures r'.Ok? ==> r'.value.0.Valid()
  {
    match Advance(r, !ours)
    case Err => Err
    case Ok(r1) =>
      if r1.trb[r1.index].kind != LINK then Ok((r1, ours)) else
        match Advance(r1, !ours)
        case Err => Err
        case Ok(r2) => Ok((r2, !ours))
  }

  predicate Odd(n: nat) { n % 2 == 1 }

  /** How often slot `j` has been handed over when `n` TRBs have been. */
  function Laps(n: nat, j: nat): nat
    requires j < LAST
  {
    (n + 14 - j) / 15
  }

  ghost predicate SlotOk(t: Entry, n: nat, j: nat)
    requires j < LAST
  {
    t.kind != LINK && (t.cycle <==> Odd(Laps(n, j)))
  }

  ghost predicate SlotsOk(trb: seq<Entry>, n: nat) {
    |trb| == NUM_TRB && forall j :: 0 <= j < LAST ==> SlotOk(trb[j], n, j)
  }

  /** The ring between two calls of its producer, after handing over `n` TRBs in all. */
  ghost predicate Lapped(r: Ring, ours: bool, n: nat) {
    && |r.trb| == NUM_TRB
    && r.index == n % 15
    && (ours <==> Odd(n / 15))
    && SlotsOk(r.trb, n)
    && r.trb[LAST].kind == LINK && r.trb[LAST].toggle
    && (r.trb[LAST].cycle <==> Odd(n / 15))
  }

  /** In lap order: slots before the index carry the flipped cycle, slots from it on and the Link
      TRB still carry ours. */
  lemma LappedCycles(r: Ring, ours: bool, n: nat, j: nat)
    requires Lapped(r, ours, n) && j < NUM_TRB
    ensures r.trb[j].cycle == if j < r.index then !ours else ours
  {
    if j < LAST {
      LapsByIndex(n, j);
      assert SlotOk(r.trb[j], n, j);
    }
  }

  lemma LapsByIndex(n: nat, j: nat)
    requires j < LAST
    ensures Laps(n, j) == n / 15 + if j < n % 15 then 1 else 0
  {
  }

  lemma LapsNext(n: nat, j: nat)
    requires j < LAST
    ensures Laps(n + 1, j) == Laps(n, j) + if j == n % 15 then 1 else 0
  {
  }

  /** Only cycle bits differ. */
  ghost predicate SameButCycle(a: seq<Entry>, b: seq<Entry>) {
    |a| == |b| && forall j :: 0 <= j < |a| ==> b[j] == a[j].(cycle := b[j].cycle)
  }

  /** The ring when slot 14 has been handed over but the Link TRB has not. */
  ghost predicate MidLap(r: Ring, ours: bool, n: nat) {
    && |r.trb| == NUM_TRB && r.index == LAST
    && n % 15 == 0 && n > 0
    && (ours <==> Odd(n / 15 - 1))
    && SlotsOk(r.trb, n)
    && r.trb[LAST].kind == LINK && r.trb[LAST].toggle
    && (r.trb[LAST].cycle <==> Odd(n / 15 - 1))
  }

  /** One more hand-over, seen from one slot. */
  lemma SlotNext(t: Entry, n: nat, j: nat)
    requires j < LAST && SlotOk(t, n, j)
    ensures if j == n % 15 then SlotOk(t.(cycle := !Odd(n / 15)), n + 1, j) else SlotOk(t, n + 1, j)
  {
    LapsNext(n, j);
    LapsByIndex(n, j);
  }

  /** Flipping the cycle of the current slot, as the first half of a hand-over does. */
  lemma FlipCurrent(r: Ring, ours: bool, n: nat)
    requires Lapped(r, ours, n)
    ensures Advance(r, !ours).Ok?
    ensures var r' := Advance(r, !ours).value;
            && (r'.trb[r'.index].kind == LINK <==> n % 15 == 14)
            && (if n % 15 == 14 then MidLap(r', ours, n + 1) else Lapped(r', ours, n + 1))
            && r'.trb == r.trb[n % 15 := r.trb[n % 15].(cycle := !ours)]
  {
    LappedCycles(r, ours, n, n % 15);
    FlipSlots(r.trb, n);
    NextLap(n);
    NoLinkBefore(r.trb, n, n % 15 + 1);
  }

  lemma NextLap(n: nat)
    ensures (n + 1) / 15 == n / 15 + if n % 15 == 14 then 1 else 0
    ensures (n + 1) % 15 == if n % 15 == 14 then 0 else n % 15 + 1
  {
  }

  lemma NoLinkBefore(trb: seq<Entry>, n: nat, j: nat)
    requires SlotsOk(trb, n)
    ensures j < LAST ==> trb[j].kind != LINK
  {
    if j < LAST {
      assert SlotOk(trb[j], n, j);
    }
  }

  lemma FlipSlots(trb: seq<Entry>, n: nat)
    requires SlotsOk(trb, n)
    ensures SlotsOk(trb[n % 15 := trb[n % 15].(cycle := !Odd(n / 15))], n + 1)
  {
    var trb' := trb[n % 15 := trb[n % 15].(cycle := !Odd(n / 15))];
    forall j | 0 <= j < LAST ensures SlotOk(trb'[j], n + 1, j) {
      SlotNext(trb[j], n, j);
    }
  }

  /** Handing over the Link TRB ends the lap. */
  lemma FlipLink(r: Ring, ours: bool, n: nat)
    requires MidLap(r, ours, n)
    ensures Advance(r, !ours).Ok? && Lapped(Advance(r, !ours).value, !ours, n)
    ensures Advance(r, !ours).value.trb == r.trb[LAST := r.trb[LAST].(cycle := !ours)]
  {
    var r' := Advance(r, !ours).value;
    forall j | 0 <= j < LAST ensures SlotOk(r'.trb[j], n, j) {
      assert SlotOk(r.trb[j], n, j);
    }
  }

  /** Handing over the next TRB never fails: the ring is simply one TRB further. */
  lemma PublishAdvances(r: Ring, ours: bool, n: nat)
    requires Lapped(r, ours, n)
    ensures Publish(r, ours).Ok?
    ensures Lapped(Publish(r, ours).value.0, Publish(r, ours).value.1, n + 1)
    ensures SameButCycle(r.trb, Publish(r, ours).value.0.trb)
  {
    FlipCurrent(r, ours, n);
    if n % 15 == 14 {
      FlipLink(Advance(r, !ours).value, ours, n + 1);
    }
  }

  /** Writing a TRB that is not a Link into the current slot, with our cycle, keeps the ring. */
  lemma WriteCurrent(r: Ring, ours: bool, n: nat, t: Entry)
    requires Lapped(r, ours, n) && t.kind != LINK && t.cycle == ours
    ensures Lapped(r.(trb := r.trb[r.index := t]), ours, n)
  {
    var r' := r.(trb := r.trb[r.index := t]);
    LapsByIndex(n, r.index);
    forall j | 0 <= j < LAST ensures SlotOk(r'.trb[j], n, j) {
      assert SlotOk(r.trb[j], n, j);
    }
  }

  //
  // The consumer's view
  //

  /** A consumer that has taken `m` TRBs and passed the Link `k` times: the slot it looks at and the
      cycle it expects there. */
  datatype Cursor = Cursor(at: nat, cycle: bool)

  ghost predicate CursorOk(c: Cursor, m: nat, k: nat) {
    && 15 * k <= m <= 15 * k + 15
    && c.at == m - 15 * k
    && (c.cycle <==> !Odd(k))
  }

  lemma CursorMoves(c: Cursor, m: nat, k: nat)
    requires CursorOk(c, m, k)
    ensures c.at < LAST ==> c.at == m % 15 && CursorOk(c.(at := c.at + 1), m + 1, k)
    ensures c.at == LAST ==> CursorOk(Cursor(0, !c.cycle), m, k + 1)
  {
    if c.at < LAST {
      DivModUnique(m, 15, k, c.at);
    } else {
      OddNext(k);
    }
  }

  lemma OddNext(k: nat)
    ensures Odd(k + 1) <==> !Odd(k)
  {
  }

  /** With at most 14 TRBs not yet taken, the consumer finds a TRB for it exactly when there is
      one; it never mistakes a slot of another lap for its own. */
  lemma CursorSees(r: Ring, ours: bool, n: nat, c: Cursor, m: nat, k: nat)
    requires Lapped(r, ours, n) && CursorOk(c, m, k) && m <= n <= m + 14
    ensures c.at < LAST ==> (r.trb[c.at].cycle == c.cycle <==> m < n)
    ensures c.at == LAST ==> r.trb[c.at].cycle == c.cycle
    ensures r.trb[c.at].kind == LINK <==> c.at == LAST
  {
    if c.at < LAST {
      assert SlotOk(r.trb[c.at], n, c.at);
      assert Laps(n, c.at) == k + if m < n then 1 else 0;
    } else {
      assert n / 15 == k + 1;
    }
  }

  /** The same while the Link TRB is still to be handed over: a consumer that has come to it waits. */
  lemma CursorSeesMidLap(r: Ring, ours: bool, n: nat, c: Cursor, m: nat, k: nat)
    requires MidLap(r, ours, n) && CursorOk(c, m, k) && m <= n <= m + 14
    ensures c.at < LAST ==> (r.trb[c.at].cycle == c.cycle <==> m < n)
    ensures c.at == LAST ==> r.trb[c.at].cycle != c.cycle
    ensures r.trb[c.at].kind == LINK <==> c.at == LAST
  {
    if c.at < LAST {
      assert SlotOk(r.trb[c.at], n, c.at);
      assert Laps(n, c.at) == k + if m < n then 1 else 0;
    } else {
      assert n / 15 == k + 1;
    }
  }

  /** Fourteen is sharp: with 15 outstanding, a consumer that has not yet passed the Link is stuck
      there although TRBs are waiting. */
  lemma FifteenStalls(r: Ring, ours: bool, n: nat, c: Cursor, m: nat, k: nat)
    requires Lapped(r, ours, n) && CursorOk(c, m, k) && n == m + 15 && c.at == LAST
    ensures r.trb[c.at].cycle != c.cycle
  {
    assert n / 15 == k + 2;
  }
}
