/** The rings of os/src/xhci/ring.rs and the waiters of os/src/xhci/future.rs, updated in place. */
module Xhci {
  import opened BitField
  import opened Common
  import opened Trb
  import opened Ring
  import C = CommandRing
  import T = TransferRing
  import E = EventRing

  class TrbRing {
    const trb: array<Entry>
    var currentIndex: nat

    ghost function View(): Ring
      reads this, trb
    {
      Ring(trb[..], currentIndex)
    }

    ghost predicate Valid()
      reads this
    {
      trb.Length == NUM_TRB && currentIndex < NUM_TRB
    }

    constructor ()
      ensures Valid() && fresh(trb) && View() == Ring(ZeroedTrbs(), 0)
    {
      trb := new Entry[NUM_TRB](_ => ZERO);
      currentIndex := 0;
      new;
      assert trb[..] == ZeroedTrbs();
    }

    method Write(index: nat, t: Entry) returns (ok: bool)
      requires Valid()
      modifies trb
      ensures ok <==> index < NUM_TRB
      ensures trb[..] == if ok then old(trb[..])[index := t] else old(trb[..])
    {
      ok := index < trb.Length;
      if ok {
        trb[index] := t;
      }
    }

    method AdvanceIndex(newCycle: bool) returns (ok: bool)
      requires Valid()
      modifies this`currentIndex, trb
      ensures Valid()
      ensures ok <==> Advance(old(View()), newCycle).Ok?
      ensures View() == if ok then Advance(old(View()), newCycle).value else old(View())
    {
      if trb[currentIndex].cycle == newCycle {
        return false;
      }
      trb[currentIndex] := trb[currentIndex].(cycle := newCycle);
      currentIndex := (currentIndex + 1) % trb.Length;
      ok := true;
    }

    /** `reset`: every cycle bit cleared, everything else kept. */
    method Reset()
      requires Valid()
      modifies this`currentIndex, trb
      ensures Valid() && currentIndex == 0
      ensures forall j :: 0 <= j < NUM_TRB ==> trb[j] == old(trb[j]).(cycle := false)
    {
      currentIndex := 0;
      for i := 0 to trb.Length
        invariant currentIndex == 0
        invariant forall j :: 0 <= j < i ==> trb[j] == old(trb[j]).(cycle := false)
        invariant forall j :: i <= j < trb.Length ==> trb[j] == old(trb[j])
      {
        trb[i] := trb[i].(cycle := false);
      }
    }
  }

  /** Hands over the current TRB, and the Link TRB when that is next. */
  method HandOver(ring: TrbRing, ours: bool) returns (r: Result<bool>)
    requires ring.Valid()
    modifies ring`currentIndex, ring.trb
    ensures ring.Valid()
    ensures r.Ok? <==> Publish(old(ring.View()), ours).Ok?
    ensures r.Ok? ==> (ring.View(), r.value) == Publish(old(ring.View()), ours).value
  {
    var ok := ring.AdvanceIndex(!ours);
    if !ok {
      return Err;
    }
    if ring.trb[ring.currentIndex].kind != LINK {
      return Ok(ours);
    }
    ok := ring.AdvanceIndex(!ours);
    return if ok then Ok(!ours) else Err;
  }

  class CommandRing {
    const ring: TrbRing
    const base: nat
    var cycleStateOurs: bool
    ghost var pushed: nat

    ghost predicate Valid()
      reads this, ring, ring.trb
    {
      ring.Valid() && Lapped(ring.View(), cycleStateOurs, pushed) && LinksTo(ring.trb[15], base)
    }

    constructor (base: nat)
      ensures Valid() && fresh(ring) && fresh(ring.trb)
      ensures pushed == 0 && FreshProducer(ring.View()) && !cycleStateOurs && this.base == base
      ensures ring.trb[15].data == base && Control(ring.trb[15]) == 6 * 1024 + 2
    {
      LinkWords(base, false);
      this.base := base;
      ring := new TrbRing();
      cycleStateOurs := false;
      pushed := 0;
      new;
      var _ := ring.Write(NUM_TRB - 1, LinkTo(base));
      FreshIsLapped(ring.View());
    }

    /** Puts the ring back to where the constructor left it, keeping what its slots hold. */
    method Reset()
      requires Valid()
      modifies this, ring`currentIndex, ring.trb
      ensures Valid() && pushed == 0 && FreshProducer(ring.View()) && !cycleStateOurs
    {
      forall j | 0 <= j < LAST ensures ring.trb[j].kind != LINK {
        assert SlotOk(ring.View().trb[j], pushed, j);
      }
      cycleStateOurs := false;
      ring.Reset();
      pushed := 0;
      FreshIsLapped(ring.View());
    }

    /** Never fails; returns the address of the slot the command went to. Only a Link TRB leaves the
        ring out of order. */
    method Push(src: Entry) returns (r: Result<nat>)
      requires Valid()
      modifies this, ring`currentIndex, ring.trb
      ensures ring.Valid() && pushed == old(pushed) + 1
      ensures Valid() <==> src.kind != LINK
      ensures r == Ok(base + 16 * (old(pushed) % 15))
      ensures C.Push(old(ring.View()), old(cycleStateOurs), src) == Ok((ring.View(), cycleStateOurs))
      ensures ring.trb[old(pushed) % 15] == src.(cycle := !old(cycleStateOurs))
    {
      C.PushSucceeds(ring.View(), cycleStateOurs, pushed, src);
      LappedCycles(ring.View(), cycleStateOurs, pushed, ring.currentIndex);
      if ring.trb[ring.currentIndex].cycle != cycleStateOurs {
        return Err;
      }
      var dst := base + 16 * ring.currentIndex;
      ghost var r0 := ring.View();
      var ok := ring.Write(ring.currentIndex, src.(cycle := cycleStateOurs));
      assert ring.View() == r0.(trb := r0.trb[r0.index := src.(cycle := cycleStateOurs)]);
      var handed := HandOver(ring, cycleStateOurs);
      if handed.Err? {
        return Err;
      }
      cycleStateOurs := handed.value;
      pushed := pushed + 1;
      r := Ok(dst);
    }
  }

  class TransferRing {
    const ring: TrbRing
    const base: nat
    const buffers: seq<nat>
    const size: nat
    var cycleStateOurs: bool
    var dequeueIndex: nat

    ghost function View(): T.Transfer
      reads this, ring, ring.trb
    {
      T.Transfer(ring.View(), cycleStateOurs, dequeueIndex, base, buffers, size)
    }

    constructor (base: nat, buffers: seq<nat>, size: nat)
      requires |buffers| == LAST
      ensures T.Fresh(View()) && View() == T.NewTransfer(base, buffers, size)
      ensures T.Words(ring.trb[..], base, buffers, size)
      ensures ring.Valid() && fresh(ring) && fresh(ring.trb)
    {
      this.base, this.buffers, this.size := base, buffers, size;
      ring := new TrbRing();
      cycleStateOurs, dequeueIndex := false, 0;
      new;
      var _ := ring.Write(NUM_TRB - 1, LinkTo(base));
      for i := 0 to |buffers|
        invariant ring.Valid() && ring.currentIndex == 0 && ring.trb[LAST] == LinkTo(base)
        invariant !cycleStateOurs && dequeueIndex == 0
        invariant forall j :: 0 <= j < i ==> ring.trb[j] == NormalTrb(buffers[j], size % 0x1_0000)
      {
        var _ := ring.Write(i, NormalTrb(buffers[i], size % 0x1_0000));
      }
      assert ring.trb[..] == T.NewTransfer(base, buffers, size).ring.trb;
      T.NewIsFresh(base, buffers, size);
    }

    method FillRing() returns (ok: bool)
      requires ring.Valid() && T.Fresh(View())
      modifies ring`currentIndex, ring.trb
      ensures ok && ring.Valid() && T.Fill(old(View())) == Ok(View()) && T.Inv(View(), 0)
      ensures T.Words(ring.trb[..], base, buffers, size)
    {
      T.FillSucceeds(View());
      ok := FillRest();
    }

    /** The loop of `fill_ring`. */
    method FillRest() returns (ok: bool)
      requires ring.Valid() && View().Valid() && ring.currentIndex <= T.FILL && T.Fill(View()).Ok?
      modifies ring`currentIndex, ring.trb
      ensures ok && ring.Valid() && T.Fill(old(View())) == Ok(View())
    {
      while (ring.currentIndex + 1) % (NUM_TRB - 1) != NUM_TRB - 4
        invariant ring.Valid() && View().Valid() && ring.currentIndex <= T.FILL
        invariant T.Fill(old(View())) == T.Fill(View())
        decreases T.FILL - ring.currentIndex
      {
        T.FillTurn(View());
        ok := ring.AdvanceIndex(!cycleStateOurs);
        if !ok {
          return;
        }
      }
      ok := true;
    }

    /** `d` is the number of TRBs dequeued so far. */
    method DequeueTrb(ptr: nat, ghost d: nat) returns (ok: bool)
      requires ring.Valid() && T.Inv(View(), d)
      modifies this, ring`currentIndex, ring.trb
      ensures ring.Valid()
      ensures ok <==> ptr == base + 16 * (d % 15)
      ensures ok ==> T.Dequeue(old(View()), ptr) == Ok(View()) && T.Inv(View(), d + 1)
      ensures T.Words(ring.trb[..], base, buffers, size)
      ensures !ok ==> View() == old(View())
    {
      T.DequeueKeeps(View(), d, ptr);
      T.DescribedWords(View());
      if base + 16 * dequeueIndex != ptr {
        return false;
      }
      var handed := HandOver(ring, cycleStateOurs);
      assert handed.Ok?;
      dequeueIndex := dequeueIndex + 1;
      if dequeueIndex == NUM_TRB - 1 {
        dequeueIndex := 0;
      }
      cycleStateOurs := handed.value;
      ok := true;
      T.DescribedWords(View());
    }
  }

  //
  // Waiters
  //

  datatype EventWaitCond = EventWaitCond(trbType: Option<nat>, trbAddr: Option<nat>, slot: Option<nat>)

  /** Every part of the condition that is given equals the event's. */
  predicate Meets(cond: EventWaitCond, e: Entry) {
    && (cond.trbType.Some? ==> e.kind == cond.trbType.value)
    && (cond.slot.Some? ==> e.slot == cond.slot.value)
    && (cond.trbAddr.Some? ==> e.data == cond.trbAddr.value)
  }

  /** The condition is on the words of the event: bits 10 to 15 and 24 to 31 of its control word and its
      data word. */
  lemma MeetsByWords(cond: EventWaitCond, e: Entry)
    requires Valid(e)
    ensures Meets(cond, e) <==>
            && (cond.trbType.Some? ==> ReadBits(Control(e), 10, 6) == cond.trbType.value)
            && (cond.slot.Some? ==> ReadBits(Control(e), 24, 8) == cond.slot.value)
            && (cond.trbAddr.Some? ==> e.data == cond.trbAddr.value)
  {
    KindField(e, 0);
    SlotField(e, 0);
  }

  /** `strong` is the number of futures that still hold the waiter; `taken` records what they have
      got from it. */
  class EventWaitInfo {
    const cond: EventWaitCond
    var trbs: seq<Entry>
    var strong: nat
    ghost var taken: seq<Entry>

    constructor (cond: EventWaitCond)
      ensures this.cond == cond && trbs == [] && strong == 1 && taken == []
    {
      this.cond, trbs, strong, taken := cond, [], 1, [];
    }

    /** `matches`, with its early returns. */
    method Matches(e: Entry) returns (r: bool)
      ensures r <==> Meets(cond, e)
    {
      if cond.trbType.Some? && e.kind != cond.trbType.value {
        return false;
      }
      if cond.slot.Some? && e.slot != cond.slot.value {
        return false;
      }
      if cond.trbAddr.Some? && e.data != cond.trbAddr.value {
        return false;
      }
      r := true;
    }

    method Resolve(e: Entry)
      modifies this`trbs
      ensures trbs == old(trbs) + [e]
    {
      trbs := trbs + [e];
    }

    /** `EventFuture::poll`: the oldest event that was queued, if any. */
    method Take() returns (e: Option<Entry>)
      modifies this`trbs, this`taken
      ensures e.None? <==> old(trbs) == []
      ensures old(trbs) == if e.Some? then [e.value] + trbs else trbs
      ensures taken + trbs == old(taken + trbs)
    {
      if trbs == [] {
        return None;
      }
      e := Some(trbs[0]);
      taken, trbs := taken + [trbs[0]], trbs[1..];
    }

    /** A future is dropped. */
    method Drop()
      requires strong > 0
      modifies this`strong
      ensures strong == old(strong) - 1
    {
      strong := strong - 1;
    }
  }

  /** What waits for `e` and can still be told. */
  ghost predicate Hears(w: EventWaitInfo, e: Entry)
    reads w`strong
  {
    w.strong > 0 && Meets(w.cond, e)
  }

  /** One of the first `k` waiters of the list hears `e`. */
  ghost predicate AnyHears(ws: seq<EventWaitInfo>, k: nat, e: Entry)
    requires k <= |ws|
    reads ws`strong
  {
    k > 0 && (AnyHears(ws, k - 1, e) || Hears(ws[k - 1], e))
  }

  /** The events that meet a condition, in order. */
  function Heard(cond: EventWaitCond, events: seq<Entry>): seq<Entry> {
    if events == [] then [] else
      Heard(cond, events[..|events| - 1]) + if Meets(cond, events[|events| - 1]) then [events[|events| - 1]] else []
  }

  lemma HeardNext(cond: EventWaitCond, events: seq<Entry>, from: nat, e: Entry)
    requires from <= |events|
    ensures Heard(cond, (events + [e])[from..]) == Heard(cond, events[from..]) + if Meets(cond, e) then [e] else []
  {
    var more := (events + [e])[from..];
    assert more[..|more| - 1] == events[from..];
  }

  /** How often `w` stands in the list. */
  ghost function Count(ws: seq<EventWaitInfo>, w: EventWaitInfo): nat {
    if ws == [] then 0 else Count(ws[..|ws| - 1], w) + if ws[|ws| - 1] == w then 1 else 0
  }

  lemma {:induction false} CountAppend(a: seq<EventWaitInfo>, b: seq<EventWaitInfo>, w: EventWaitInfo)
    ensures Count(a + b, w) == Count(a, w) + Count(b, w)
    decreases |b|
  {
    if b == [] {
      assert a + b == a;
    } else {
      var c := b[..|b| - 1];
      assert (a + b)[..|a + b| - 1] == a + c;
      CountAppend(a, c, w);
    }
  }

  lemma {:induction false} CountIn(ws: seq<EventWaitInfo>, w: EventWaitInfo)
    ensures Count(ws, w) > 0 <==> w in ws
  {
    if ws != [] {
      CountIn(ws[..|ws| - 1], w);
      assert ws == ws[..|ws| - 1] + [ws[|ws| - 1]];
    }
  }

  lemma CountNew(ws: seq<EventWaitInfo>, w: EventWaitInfo)
    requires w !in ws
    ensures Count(ws + [w], w) == 1
  {
    CountIn(ws, w);
    assert (ws + [w])[..|ws|] == ws;
  }

  /** The same among the first `k`. */
  ghost function CountTo(ws: seq<EventWaitInfo>, k: nat, w: EventWaitInfo): nat
    requires k <= |ws|
  {
    if k == 0 then 0 else CountTo(ws, k - 1, w) + if ws[k - 1] == w then 1 else 0
  }

  lemma {:induction false} CountToIsCount(ws: seq<EventWaitInfo>, k: nat, w: EventWaitInfo)
    requires k <= |ws|
    ensures CountTo(ws, k, w) == Count(ws[..k], w)
    decreases k
  {
    if k > 0 {
      CountToIsCount(ws, k - 1, w);
      assert ws[..k][..k - 1] == ws[..k - 1];
    }
  }

  lemma {:induction false} LiveInList(ws: seq<EventWaitInfo>)
    ensures forall w :: w in LiveOnly(ws) ==> w in ws
  {
    if ws != [] {
      LiveInList(ws[..|ws| - 1]);
      assert ws == ws[..|ws| - 1] + [ws[|ws| - 1]];
    }
  }

  /** Dropping the dead changes nothing for the living. */
  lemma {:induction false} CountLive(ws: seq<EventWaitInfo>, w: EventWaitInfo)
    ensures Count(LiveOnly(ws), w) == if w.strong > 0 then Count(ws, w) else 0
  {
    if ws != [] {
      var front, last := ws[..|ws| - 1], ws[|ws| - 1];
      CountLive(front, w);
      CountAppend(LiveOnly(front), if last.strong > 0 then [last] else [], w);
      assert Count([last], w) == Count([], w) + if last == w then 1 else 0;
    }
  }

  /** A queue with `n` copies of an event appended. */
  function Appended(q: seq<Entry>, e: Entry, n: nat): seq<Entry> {
    if n == 0 then q else Appended(q, e, n - 1) + [e]
  }

  /** A turn of the loop over the list, seen from one waiter. */
  lemma OneMore(ws: seq<EventWaitInfo>, k: nat, w: EventWaitInfo, q: seq<Entry>, now: seq<Entry>, then': seq<Entry>, e: Entry, hears: bool)
    requires k < |ws| && now == Appended(q, e, if hears then CountTo(ws, k, w) else 0)
    requires then' == if ws[k] == w && hears then now + [e] else now
    ensures then' == Appended(q, e, if hears then CountTo(ws, k + 1, w) else 0)
  {
  }

  ghost function LiveOnly(ws: seq<EventWaitInfo>): (r: seq<EventWaitInfo>)
    reads ws`strong
  {
    if ws == [] then [] else LiveOnly(ws[..|ws| - 1]) + if ws[|ws| - 1].strong > 0 then [ws[|ws| - 1]] else []
  }

  lemma {:induction false} LiveOnlyAppend(a: seq<EventWaitInfo>, b: seq<EventWaitInfo>)
    ensures LiveOnly(a + b) == LiveOnly(a) + LiveOnly(b)
    decreases |b|
  {
    if b == [] {
      assert a + b == a;
    } else {
      var c := b[..|b| - 1];
      assert (a + b)[..|a + b| - 1] == a + c;
      LiveOnlyAppend(a, c);
    }
  }

  lemma {:induction false} LiveOnlyAll(ws: seq<EventWaitInfo>)
    requires forall i :: 0 <= i < |ws| ==> ws[i].strong > 0
    ensures LiveOnly(ws) == ws
  {
    if ws != [] {
      LiveOnlyAll(ws[..|ws| - 1]);
      assert ws == ws[..|ws| - 1] + [ws[|ws| - 1]];
    }
  }

  /** The queue of `w` has `n` more copies of `e` at its end. */
  twostate predicate Queued(w: EventWaitInfo, e: Entry, n: nat)
    reads w
  {
    w.trbs == Appended(old(w.trbs), e, n)
  }

  /** Every waiter of the list that hears `e` has it at the end of its queue, once for each time it
      stands in the first `k` places of the list; the other queues are as they were. */
  twostate predicate Delivered(ws: seq<EventWaitInfo>, k: nat, e: Entry)
    requires k <= |ws|
    reads ws
  {
    forall i :: 0 <= i < |ws| ==> Queued(ws[i], e, if Hears(ws[i], e) then CountTo(ws, k, ws[i]) else 0)
  }

  class EventRing {
    const ring: TrbRing
    const base: nat
    var cycleStateOurs: bool
    var erdp: nat
    var waitList: seq<EventWaitInfo>
    ghost var events: seq<Entry>
    ghost var since: map<EventWaitInfo, nat>

    ghost predicate Valid()
      reads this, ring, since.Keys
    {
      ring.Valid() && base % 16 == 0 && forall w :: w in since ==> Told(w)
    }

    /** As long as somebody holds it, a future's waiter is in the list once, and what was taken from
        its queue and what is still there are exactly the events since its registration that meet
        its condition, in order. */
    ghost predicate Told(w: EventWaitInfo)
      requires w in since
      reads this, w
    {
      w.strong > 0 ==>
        && since[w] <= |events|
        && Count(waitList, w) == 1
        && w.taken + w.trbs == Heard(w.cond, events[since[w]..])
    }

    /** `EventRing::new` and the part of `init_irs` that concerns the ring. */
    constructor (base: nat)
      requires base % 16 == 0
      ensures Valid() && fresh(ring) && fresh(ring.trb) && this.base == base
      ensures ring.View() == Ring(ZeroedTrbs(), 0) && cycleStateOurs && erdp == base && waitList == []
      ensures events == [] && since == map[]
    {
      this.base := base;
      ring := new TrbRing();
      cycleStateOurs, erdp, waitList := true, base, [];
      events, since := [], map[];
    }

    /** Reads the next event, if any; the register keeps its low four bits and names the slot. */
    method Pop(ghost s: E.State) returns (e: Option<Entry>)
      requires ring.Valid() && base % 16 == 0 && s.ring == ring.View() && s.ours == cycleStateOurs
      modifies this`cycleStateOurs, this`erdp, ring`currentIndex
      ensures ring.Valid()
      ensures e.Some? <==> E.HasNextEvent(s)
      ensures e.Some? ==> e.value == s.ring.trb[s.ring.index]
      ensures ring.View() == E.PopStep(s).ring && cycleStateOurs == E.PopStep(s).ours
      ensures e.Some? ==> erdp % 16 == old(erdp) % 16 && erdp / 16 == base / 16 + E.PopStep(s).erdp
      ensures e.None? ==> erdp == old(erdp)
    {
      var i := ring.currentIndex;
      if ring.trb[i].cycle != cycleStateOurs {
        return None;
      }
      e := Some(ring.trb[i]);
      ring.currentIndex := (i + 1) % ring.trb.Length;
      erdp := base + 16 * i + erdp % 16;
      if ring.currentIndex == 0 {
        cycleStateOurs := !cycleStateOurs;
      }
    }

    /** A waiter may be registered more than once; it is then no longer followed as a future's. */
    method RegisterWaiter(w: EventWaitInfo)
      requires Valid()
      modifies this`waitList, this`since
      ensures Valid() && waitList == old(waitList) + [w] && since == old(since) - {w}
      ensures w !in old(since) ==> since == old(since)
    {
      waitList := waitList + [w];
      since := since - {w};
      forall v | v in since ensures Told(v) {
        assert old(Told(v));
        CountAppend(old(waitList), [w], v);
        assert Count([w], v) == Count([], v) + if w == v then 1 else 0;
      }
    }

    /** `EventFuture::new` */
    method NewFuture(cond: EventWaitCond) returns (w: EventWaitInfo)
      requires Valid()
      modifies this`waitList, this`since
      ensures Valid() && fresh(w) && w.cond == cond && w.strong == 1
      ensures waitList == old(waitList) + [w] && since == old(since)[w := |events|]
    {
      w := new EventWaitInfo(cond);
      CountNew(waitList, w);
      RegisterWaiter(w);
      assert forall v :: v in since ==> Told(v);
      since := since[w := |events|];
      assert events[|events|..] == [];
    }

    /** Each waiter that is alive and matches gets the event at the end of its queue, once for each
        time it is registered; the others keep their queues. */
    method Dispatch(e: Entry) returns (consumed: bool)
      modifies waitList`trbs
      ensures Delivered(waitList, |waitList|, e)
      ensures consumed <==> AnyHears(waitList, |waitList|, e)
    {
      consumed := false;
      for k := 0 to |waitList|
        invariant Delivered(waitList, k, e)
        invariant consumed <==> AnyHears(waitList, k, e)
      {
        label turn:
        var heard := Offer(waitList[k], e);
        consumed := consumed || heard;
        forall i | 0 <= i < |waitList|
          ensures Queued(waitList[i], e, if Hears(waitList[i], e) then CountTo(waitList, k + 1, waitList[i]) else 0)
        {
          OneMore(waitList, k, waitList[i], old(waitList[i].trbs), old@turn(waitList[i].trbs), waitList[i].trbs, e, Hears(waitList[i], e));
        }
      }
    }

    method Offer(w: EventWaitInfo, e: Entry) returns (heard: bool)
      modifies w`trbs
      ensures heard <==> Hears(w, e)
      ensures w.trbs == old(w.trbs) + if heard then [e] else []
    {
      var matches := w.Matches(e);
      heard := w.strong > 0 && matches;
      if heard {
        w.Resolve(e);
      }
    }

    /** Removes exactly the dead waiters, by index from the back, keeping the order of the rest. */
    method CleanUp()
      requires Valid()
      modifies this`waitList
      ensures Valid() && waitList == LiveOnly(old(waitList))
      ensures forall i :: 0 <= i < |waitList| ==> waitList[i] in old(waitList)
    {
      LiveInList(waitList);
      var stale := StaleIndices(waitList);
      waitList := RemoveAll(waitList, stale);
      forall w | w in since ensures Told(w) {
        assert old(Told(w));
        CountLive(old(waitList), w);
      }
    }

    /** An event that went to everybody in the list went to its futures if it concerned them. */
    twostate lemma AllTold(e: Entry)
      requires old(Valid()) && ring.Valid()
      requires since == old(since) && waitList == old(waitList) && events == old(events) + [e]
      requires forall w :: w in since ==> w.strong == old(w.strong) && w.taken == old(w.taken)
      requires Delivered(waitList, |waitList|, e)
      ensures Valid()
    {
      var all := waitList;
      assert all[..|all|] == all;
      forall w | w in since ensures Told(w) {
        assert old(Told(w));
        if w.strong > 0 {
          CountIn(all, w);
          CountToIsCount(all, |all|, w);
          StillTold(old(events), since[w], e, w, old(w.trbs));
        }
      }
    }

    /** Hands a popped event to the waiters. */
    method Tell(e: Entry)
      requires Valid()
      modifies this`events, waitList`trbs
      ensures Valid() && events == old(events) + [e]
      ensures Delivered(waitList, |waitList|, e)
    {
      var consumed := Dispatch(e);
      events := events + [e];
      AllTold(e);
    }

    /** One event, if there is one: popped, queued to every live waiter it matches, once for each
        registration, and the waiters nobody holds any more dropped. */
    method Poll(ghost s: E.State)
      requires Valid() && s.ring == ring.View() && s.ours == cycleStateOurs
      modifies this`cycleStateOurs, this`erdp, this`waitList, this`events, ring`currentIndex, waitList`trbs
      ensures Valid()
      ensures ring.View() == E.PopStep(s).ring && cycleStateOurs == E.PopStep(s).ours
      ensures forall i :: 0 <= i < |waitList| ==> waitList[i] in old(waitList)
      ensures !E.HasNextEvent(s) ==>
                && waitList == old(waitList) && events == old(events) && erdp == old(erdp)
                && forall i :: 0 <= i < |waitList| ==> waitList[i].trbs == old(waitList[i].trbs)
      ensures E.HasNextEvent(s) ==>
                var e := s.ring.trb[s.ring.index];
                && erdp % 16 == old(erdp) % 16 && erdp / 16 == base / 16 + E.PopStep(s).erdp
                && events == old(events) + [e]
                && waitList == LiveOnly(old(waitList))
                && Delivered(old(waitList), |old(waitList)|, e)
    {
      var e := Pop(s);
      if e.Some? {
        Tell(e.value);
        CleanUp();
      }
    }
  }

  lemma StillTold(events: seq<Entry>, from: nat, e: Entry, w: EventWaitInfo, before: seq<Entry>)
    requires from <= |events|
    requires w.taken + before == Heard(w.cond, events[from..])
    requires w.trbs == Appended(before, e, if Meets(w.cond, e) then 1 else 0)
    ensures w.taken + w.trbs == Heard(w.cond, (events + [e])[from..])
  {
    HeardNext(w.cond, events, from, e);
    var more := if Meets(w.cond, e) then [e] else [];
    assert w.trbs == before + more;
    assert w.taken + (before + more) == w.taken + before + more;
  }

  /** What futures do with their waiters, taking events and being dropped, keeps the ring valid. */
  twostate lemma FuturesKeepValid(r: EventRing, w: EventWaitInfo)
    requires old(r.Valid()) && unchanged(r) && unchanged(r.ring)
    requires forall v :: v in r.since && v != w ==> unchanged(v)
    requires w.strong <= old(w.strong) && w.taken + w.trbs == old(w.taken + w.trbs)
    ensures r.Valid()
  {
    forall v | v in r.since ensures r.Told(v) {
      assert old(r.Told(v));
    }
  }

  /** Removes the given indices one after the other, as they come. */
  method RemoveAll(all: seq<EventWaitInfo>, stale: seq<nat>) returns (rest: seq<EventWaitInfo>)
    requires DeadDescending(all, 0, stale)
    ensures rest == LiveOnly(all)
  {
    rest := all;
    ghost var done := |all|;
    for i := 0 to |stale|
      invariant done == (if i == 0 then |all| else stale[i - 1]) <= |all|
      invariant rest == all[..done] + LiveOnly(all[done..])
    {
      var x := stale[i];
      StaleStep(all, done, stale, i);
      rest := rest[..x] + rest[x + 1..];
      done := x;
    }
    LastLive(all, done, stale);
  }

  /** The indices of the dead waiters, highest first. */
  ghost predicate DeadDescending(ws: seq<EventWaitInfo>, from: nat, stale: seq<nat>)
    reads ws`strong
  {
    && (forall i :: 0 <= i < |stale| ==> from <= stale[i] < |ws| && ws[stale[i]].strong == 0)
    && (forall i, j :: 0 <= i < j < |stale| ==> stale[j] < stale[i])
    && (forall x :: from <= x < |ws| && ws[x].strong == 0 ==> x in stale)
  }

  method StaleIndices(ws: seq<EventWaitInfo>) returns (stale: seq<nat>)
    ensures DeadDescending(ws, 0, stale)
  {
    stale := [];
    var k := |ws|;
    while k > 0
      invariant 0 <= k <= |ws| && DeadDescending(ws, k, stale)
    {
      k := k - 1;
      if ws[k].strong == 0 {
        stale := stale + [k];
      }
    }
  }

  /** Between two consecutive stale indices everybody is alive. */
  lemma AliveBetween(all: seq<EventWaitInfo>, stale: seq<nat>, i: nat, y: nat)
    requires DeadDescending(all, 0, stale) && i <= |stale|
    requires y < if i == 0 then |all| else stale[i - 1]
    requires i < |stale| ==> y > stale[i]
    ensures y < |all| && all[y].strong > 0
  {
    if all[y].strong == 0 {
      var b :| 0 <= b < |stale| && stale[b] == y;
      if b < i {
        assert false;
      }
    }
  }

  lemma DeadThenLive(all: seq<EventWaitInfo>, x: nat, done: nat)
    requires x < done <= |all| && all[x].strong == 0
    requires forall y :: x < y < done ==> all[y].strong > 0
    ensures LiveOnly(all[x..]) == all[x + 1..done] + LiveOnly(all[done..])
  {
    var mid, back := all[x + 1..done], all[done..];
    LiveFront(mid, back);
    LiveOnlyAppend([all[x]], mid + back);
    assert LiveOnly([all[x]]) == [];
    assert all[x..] == [all[x]] + (mid + back);
  }

  lemma RemoveAt<A>(all: seq<A>, x: nat, done: nat, tail: seq<A>)
    requires x < done <= |all|
    ensures var l := all[..done] + tail; l[..x] + l[x + 1..] == all[..x] + (all[x + 1..done] + tail)
  {
  }

  lemma StaleStep(all: seq<EventWaitInfo>, done: nat, stale: seq<nat>, i: nat)
    requires DeadDescending(all, 0, stale) && i < |stale|
    requires done == if i == 0 then |all| else stale[i - 1]
    ensures stale[i] < done <= |all|
    ensures var l, x := all[..done] + LiveOnly(all[done..]), stale[i];
            l[..x] + l[x + 1..] == all[..x] + LiveOnly(all[x..])
  {
    var x := stale[i];
    forall y | x < y < done ensures all[y].strong > 0 {
      AliveBetween(all, stale, i, y);
    }
    DeadThenLive(all, x, done);
    RemoveAt(all, x, done, LiveOnly(all[done..]));
  }

  lemma LiveFront(front: seq<EventWaitInfo>, back: seq<EventWaitInfo>)
    requires forall z :: 0 <= z < |front| ==> front[z].strong > 0
    ensures LiveOnly(front + back) == front + LiveOnly(back)
  {
    LiveOnlyAll(front);
    LiveOnlyAppend(front, back);
  }

  lemma LivePrefix(all: seq<EventWaitInfo>, done: nat)
    requires done <= |all| && forall z :: 0 <= z < done ==> all[z].strong > 0
    ensures all[..done] + LiveOnly(all[done..]) == LiveOnly(all)
  {
    var front, back := all[..done], all[done..];
    TakeDrop(all, done);
    LiveFront(front, back);
  }

  lemma TakeDrop<A>(all: seq<A>, done: nat)
    requires done <= |all|
    ensures all[..done] + all[done..] == all
  {
  }

  lemma LastLive(all: seq<EventWaitInfo>, done: nat, stale: seq<nat>)
    requires DeadDescending(all, 0, stale)
    requires done == if |stale| == 0 then |all| else stale[|stale| - 1]
    ensures done <= |all| && all[..done] + LiveOnly(all[done..]) == LiveOnly(all)
  {
    forall z | 0 <= z < done ensures all[z].strong > 0 {
      AliveBetween(all, stale, |stale|, z);
    }
    LivePrefix(all, done);
  }
}
