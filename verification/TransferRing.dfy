/** The transfer ring of os/src/xhci/ring.rs: 15 buffers that software keeps handing to the
    controller (section 4.9.2.2 of the xHCI specification). */
module TransferRing {
  import opened Common
  import opened Trb
  import opened Ring

  const FILL: nat := 11 // TRBs handed over by `fill_ring`

  datatype Transfer = Transfer(ring: Ring, ours: bool, dequeue: nat, base: nat, buffers: seq<nat>, size: nat) {
    ghost predicate Valid() {
      ring.Valid() && |buffers| == LAST && dequeue < LAST
    }
    function TrbPtr(i: nat): nat { base + 16 * i }
  }

  /** Slot `i` describes buffer `i`, whatever its cycle bit. */
  ghost predicate Described(t: Transfer)
    requires t.Valid()
  {
    && (forall i :: 0 <= i < LAST ==> t.ring.trb[i] == NormalTrb(t.buffers[i], t.size % 0x1_0000).(cycle := t.ring.trb[i].cycle))
    && t.ring.trb[LAST] == LinkTo(t.base).(cycle := t.ring.trb[LAST].cycle)
  }

  /** `TransferRingInner::new`, which keeps 16 bits of the transfer size. */
  function NewTransfer(base: nat, buffers: seq<nat>, size: nat): Transfer
    requires |buffers| == LAST
  {
    var trb := seq(LAST, i requires 0 <= i < LAST => NormalTrb(buffers[i], size % 0x1_0000)) + [LinkTo(base)];
    Transfer(Ring(trb, 0), false, 0, base, buffers, size)
  }

  ghost predicate Fresh(t: Transfer) {
    t.Valid() && FreshProducer(t.ring) && !t.ours && t.dequeue == 0 && Described(t)
  }

  /** The words the controller reads: slot `i` holds the address of buffer `i`, the transfer size and
      the control word of a Normal TRB, the last slot the address of the ring and the control word of
      a Link TRB. */
  ghost predicate Words(trb: seq<Entry>, base: nat, buffers: seq<nat>, size: nat) {
    && |trb| == 16 && |buffers| == 15
    && (forall i :: 0 <= i < 15 ==>
          && trb[i].data == buffers[i] && trb[i].option == size % 0x1_0000
          && Control(trb[i]) == 1 * 1024 + 32 + 4 + if trb[i].cycle then 1 else 0)
    && trb[15].data == base && Control(trb[15]) == 6 * 1024 + 2 + if trb[15].cycle then 1 else 0
  }

  lemma DescribedWords(t: Transfer)
    requires t.Valid() && Described(t)
    ensures Words(t.ring.trb, t.base, t.buffers, t.size)
  {
    forall i | 0 <= i < 15
      ensures t.ring.trb[i].data == t.buffers[i] && t.ring.trb[i].option == t.size % 0x1_0000
      ensures Control(t.ring.trb[i]) == 1 * 1024 + 32 + 4 + if t.ring.trb[i].cycle then 1 else 0
    {
      NormalWords(t.buffers[i], t.size % 0x1_0000, t.ring.trb[i].cycle);
    }
    LinkWords(t.base, t.ring.trb[15].cycle);
  }

  lemma NewIsFresh(base: nat, buffers: seq<nat>, size: nat)
    requires |buffers| == LAST
    ensures Fresh(NewTransfer(base, buffers, size))
    ensures Words(NewTransfer(base, buffers, size).ring.trb, base, buffers, size)
  {
    DescribedWords(NewTransfer(base, buffers, size));
  }

  /** The loop of `fill_ring` from where the ring stands; it only ever runs on the first lap. */
  function Fill(t: Transfer): Result<Transfer>
    requires t.Valid() && t.ring.index <= FILL
    decreases FILL - t.ring.index
  {
    if (t.ring.index + 1) % (NUM_TRB - 1) == NUM_TRB - 4 then Ok(t) else
      match Advance(t.ring, !t.ours)
      case Err => Err
      case Ok(r) => Fill(t.(ring := r))
  }

  /** One turn of that loop. */
  lemma FillTurn(t: Transfer)
    requires t.Valid() && t.ring.index <= FILL && (t.ring.index + 1) % (NUM_TRB - 1) != NUM_TRB - 4
    ensures Advance(t.ring, !t.ours).Err? ==> Fill(t).Err?
    ensures Advance(t.ring, !t.ours).Ok? ==>
              var t' := t.(ring := Advance(t.ring, !t.ours).value);
              t'.Valid() && t'.ring.index == t.ring.index + 1 <= FILL && Fill(t) == Fill(t')
  {
  }

  /** `dequeue_trb` */
  function Dequeue(t: Transfer, ptr: nat): Result<Transfer>
    requires t.Valid()
  {
    if t.TrbPtr(t.dequeue) != ptr then Err else
      match Publish(t.ring, t.ours)
      case Err => Err
      case Ok((r, ours)) => Ok(t.(ring := r, ours := ours, dequeue := if t.dequeue + 1 == NUM_TRB - 1 then 0 else t.dequeue + 1))
  }

  /** Between calls, after `d` dequeued TRBs: eleven more than that have been handed over. */
  ghost predicate Inv(t: Transfer, d: nat) {
    t.Valid() && Lapped(t.ring, t.ours, d + FILL) && t.dequeue == d % 15 && Described(t)
  }

  lemma {:induction false} FillFrom(t: Transfer)
    requires t.Valid() && Described(t) && t.dequeue == 0 && t.ring.index <= FILL && Lapped(t.ring, t.ours, t.ring.index)
    ensures Fill(t).Ok? && Inv(Fill(t).value, 0)
    ensures Fill(t).value == t.(ring := Fill(t).value.ring)
    decreases FILL - t.ring.index
  {
    if t.ring.index < FILL {
      var n := t.ring.index;
      LappedCycles(t.ring, t.ours, n, n);
      PublishAdvances(t.ring, t.ours, n);
      var r := Advance(t.ring, !t.ours).value;
      assert SlotOk(t.ring.trb[n + 1], n, n + 1);
      assert Publish(t.ring, t.ours) == Ok((r, t.ours));
      FillFrom(t.(ring := r));
    }
  }

  /** `fill_ring` on a fresh ring succeeds and hands over eleven TRBs. */
  lemma FillSucceeds(t: Transfer)
    requires Fresh(t)
    ensures Fill(t).Ok? && Inv(Fill(t).value, 0)
    ensures Words(Fill(t).value.ring.trb, t.base, t.buffers, t.size)
  {
    FreshIsLapped(t.ring);
    FillFrom(t);
    DescribedWords(Fill(t).value);
  }

  /** Dequeuing the expected TRB always succeeds and hands over the next; any other pointer is
      refused, and `Err` leaves the caller with the state it had. */
  lemma DequeueKeeps(t: Transfer, d: nat, ptr: nat)
    requires Inv(t, d)
    ensures Dequeue(t, ptr).Ok? <==> ptr == t.base + 16 * (d % 15)
    ensures Dequeue(t, ptr).Ok? ==> Inv(Dequeue(t, ptr).value, d + 1)
  {
    PublishAdvances(t.ring, t.ours, d + FILL);
    NextLap(d);
  }

  /** `k` in-order calls of `dequeue_trb`. */
  function DequeueMany(t: Transfer, k: nat): Result<Transfer>
    requires t.Valid()
    decreases k
  {
    if k == 0 then Ok(t) else
      match Dequeue(t, t.TrbPtr(t.dequeue))
      case Err => Err
      case Ok(t') => DequeueMany(t', k - 1)
  }

  /** However long the ring is kept going, no call fails, it stays eleven TRBs ahead, and its slots
      describe the same buffers. */
  lemma {:induction false} DequeueForever(t: Transfer, d: nat, k: nat)
    requires Inv(t, d)
    ensures DequeueMany(t, k).Ok? && Inv(DequeueMany(t, k).value, d + k)
    ensures Words(DequeueMany(t, k).value.ring.trb, t.base, t.buffers, t.size)
    decreases k
  {
    DescribedWords(t);
    if k > 0 {
      DequeueKeeps(t, d, t.TrbPtr(t.dequeue));
      DequeueForever(Dequeue(t, t.TrbPtr(t.dequeue)).value, d + 1, k - 1);
    }
  }

  //
  // Ownership
  //

  /** By its cycle bit, slot `j` belongs to a controller that has completed `d` TRBs: slots still to
      come on this lap carry its cycle state, those before it carry the one of its next lap. */
  predicate Owned(t: Transfer, d: nat, j: nat)
    requires j < LAST && |t.ring.trb| == NUM_TRB
  {
    var cycleState := !Odd(d / 15);
    t.ring.trb[j].cycle == if j >= d % 15 then cycleState else !cycleState
  }

  predicate InWindow(d: nat, j: nat) {
    (j + 15 - d % 15) % 15 < FILL
  }

  /** The controller owns exactly the eleven slots from the dequeue index on. */
  lemma OwnedIsWindow(t: Transfer, d: nat, j: nat)
    requires Inv(t, d) && j < LAST
    ensures Owned(t, d, j) <==> InWindow(d, j)
  {
    assert SlotOk(t.ring.trb[j], d + FILL, j);
    LapsByIndex(d + FILL, j);
    WindowLaps(d, j);
  }

  lemma WindowLaps(d: nat, j: nat)
    requires j < LAST
    ensures InWindow(d, j) <==> Odd(Laps(d + FILL, j)) == if j >= d % 15 then !Odd(d / 15) else Odd(d / 15)
  {
    var q, e := d / 15, d % 15;
    assert Laps(d + FILL, j) == q + (e + FILL + 14 - j) / 15;
    if j >= e {
      assert InWindow(d, j) <==> j < e + FILL;
    } else {
      assert InWindow(d, j) <==> j + 15 < e + FILL;
    }
  }

  function CountOwned(t: Transfer, d: nat, n: nat): nat
    requires n <= LAST && |t.ring.trb| == NUM_TRB
  {
    if n == 0 then 0 else CountOwned(t, d, n - 1) + if Owned(t, d, n - 1) then 1 else 0
  }

  /** Slots of the window among the first `n`. */
  function WindowSize(d: nat, n: nat): nat {
    var e := d % 15;
    if e <= 4 then if n <= e then 0 else if n <= e + FILL then n - e else FILL
    else if n <= e - 4 then n else if n <= e then e - 4 else n - 4
  }

  lemma WindowByCases(d: nat, j: nat)
    requires j < LAST
    ensures InWindow(d, j) <==> var e := d % 15; if e <= 4 then e <= j < e + FILL else j >= e || j < e - 4
  {
    var e := d % 15;
    assert (j + 15 - e) % 15 == if j >= e then j - e else j + 15 - e;
  }

  lemma {:induction false} CountIsWindow(t: Transfer, d: nat, n: nat)
    requires Inv(t, d) && n <= LAST
    ensures CountOwned(t, d, n) == WindowSize(d, n)
  {
    if n > 0 {
      CountIsWindow(t, d, n - 1);
      OwnedIsWindow(t, d, n - 1);
      WindowByCases(d, n - 1);
    }
  }

  lemma ElevenOwned(t: Transfer, d: nat)
    requires Inv(t, d)
    ensures CountOwned(t, d, 15) == 11
  {
    CountIsWindow(t, d, LAST);
  }
}
