/** A TCP socket facing a peer with a byte stream of its own, over a network that may lose, repeat and
    reorder its segments: which bytes the application reads and what the socket acknowledges
    (sections 3.4 and 3.5 of RFC 9293). `handle_rx` never compares sequence numbers. */
module TcpPeer {
  import opened Common
  import opened Tcp

  /** One connection: the peer's initial sequence number, all it will ever send, the positions in
      that stream of the bytes the socket has accepted, and whether it has accepted a FIN. */
  datatype Conn = Conn(irs: u32, stream: seq<byte>, got: seq<nat>, fin: bool)

  /** `conns` are the connections so far, the current one last; `drained` is all the application has
      read. */
  datatype Peered = Peered(w: World, conns: seq<Conn>, drained: seq<byte>)

  /** A step of the socket's own side, or a segment that arrives. `off` is where its data stand in the
      peer's stream; a segment that starts a connection fixes that stream. */
  datatype Event = Local(a: Action) | Arrive(g: Segment, off: nat, stream: seq<byte>)

  /** The segment starts a connection. */
  predicate Accepts(s: Socket, g: Segment) {
    (s.state == Listen && g.syn) || (s.state == SynSent && g.syn && g.ack && g.ackNum == s.nextSeq)
  }

  /** A segment of the connection: its data are the peer's bytes from `off` on and its number says
      so; a FIN ends the stream. */
  predicate Genuine(c: Conn, g: Segment, off: nat) {
    && off + |g.data| <= |c.stream|
    && g.data == c.stream[off..off + |g.data|]
    && g.seqNum == Wrap(c.irs + 1 + off)
    && (g.fin ==> off + |g.data| == |c.stream|)
  }

  predicate PeerEnabled(p: Peered, e: Event) {
    match e
    case Local(a) => Enabled(p.w, a) && !a.Receive?
    case Arrive(g, off, _) => p.w.sock.state == Established ==> p.conns != [] && Genuine(Current(p), g, off)
  }

  function Current(p: Peered): Conn
    requires p.conns != []
  {
    p.conns[|p.conns| - 1]
  }

  function SetCurrent(p: Peered, c: Conn): Peered
    requires p.conns != []
  {
    p.(conns := p.conns[..|p.conns| - 1] + [c])
  }

  /** The positions `off`, `off + 1`, ... of `n` bytes. */
  function Span(off: nat, n: nat): (s: seq<nat>)
    ensures |s| == n && forall i :: 0 <= i < n ==> s[i] == off + i
  {
    seq(n, i requires 0 <= i < n => off + i)
  }

  function Accepted(c: Conn, g: Segment, off: nat): Conn {
    c.(got := c.got + Span(off, |g.data|), fin := g.fin)
  }

  function ActionOf(e: Event): Action {
    match e
    case Local(a) => a
    case Arrive(g, _, _) => Receive(g)
  }

  function PeerStep(p: Peered, e: Event): (Peered, Option<Outgoing>)
    requires PeerEnabled(p, e)
  {
    var (w', out) := Step(p.w, ActionOf(e));
    var p' :=
      match e
      case Local(a) => if a.AppRead? then p.(drained := p.drained + p.w.sock.rx[..a.n]) else p
      case Arrive(g, off, stream) =>
        if Accepts(p.w.sock, g) then p.(conns := p.conns + [Conn(g.seqNum, stream, [], false)])
        else if p.w.sock.state == Established then SetCurrent(p, Accepted(Current(p), g, off))
        else p;
    (p'.(w := w'), out)
  }

  function Meet(s: Socket): Peered {
    Peered(Start(s), [], [])
  }

  //
  // The bytes
  //

  ghost predicate Positions(c: Conn) {
    forall i :: 0 <= i < |c.got| ==> c.got[i] < |c.stream|
  }

  /** The bytes of the stream at the accepted positions. */
  function BytesOf(c: Conn): (b: seq<byte>)
    requires Positions(c)
    ensures |b| == |c.got|
  {
    seq(|c.got|, i requires 0 <= i < |c.got| => c.stream[c.got[i]])
  }

  ghost predicate AllPositions(conns: seq<Conn>) {
    forall i :: 0 <= i < |conns| ==> Positions(conns[i])
  }

  function Received(conns: seq<Conn>): seq<byte>
    requires AllPositions(conns)
  {
    if conns == [] then [] else Received(conns[..|conns| - 1]) + BytesOf(conns[|conns| - 1])
  }

  lemma ReceivedLast(conns: seq<Conn>, c: Conn)
    requires AllPositions(conns) && Positions(c)
    ensures AllPositions(conns + [c]) && Received(conns + [c]) == Received(conns) + BytesOf(c)
  {
    assert (conns + [c])[..|conns|] == conns;
  }

  lemma AcceptedBytes(c: Conn, g: Segment, off: nat)
    requires Positions(c) && Genuine(c, g, off)
    ensures Positions(Accepted(c, g, off)) && BytesOf(Accepted(c, g, off)) == BytesOf(c) + g.data
  {
    var c' := Accepted(c, g, off);
    forall i | 0 <= i < |c'.got| ensures c'.got[i] < |c.stream| && c.stream[c'.got[i]] == (BytesOf(c) + g.data)[i] {
      assert i >= |c.got| ==> c'.got[i] == off + (i - |c.got|);
    }
  }

  //
  // Order
  //

  /** The socket has accepted the stream from its start, without gap, repetition or reordering. */
  ghost predicate IsPrefix(c: Conn) {
    c.got == Span(0, |c.got|)
  }

  ghost predicate AllPrefixes(conns: seq<Conn>) {
    forall i :: 0 <= i < |conns| ==> IsPrefix(conns[i])
  }

  /** Data that reach an established socket start where the accepted data end. */
  ghost predicate InOrder(p: Peered, e: Event)
    requires PeerEnabled(p, e)
  {
    e.Arrive? && p.w.sock.state == Established && e.g.data != [] ==> e.off == |Current(p).got|
  }

  /** As long as the socket is in step with the peer, a caller can tell by the numbers: order is that
      the segment carries the number the socket has acknowledged last. */
  lemma OrderByNumber(p: Peered, g: Segment, off: nat)
    requires p.conns != [] && Genuine(Current(p), g, off)
    requires p.w.sock.lastSeqToAck == Wrap(Current(p).irs + 1 + |Current(p).got|)
    requires off < |Current(p).got| + U32 && |Current(p).got| < off + U32
    ensures g.seqNum == p.w.sock.lastSeqToAck <==> off == |Current(p).got|
  {
  }

  lemma AcceptedPrefix(c: Conn, g: Segment, off: nat)
    requires IsPrefix(c) && Genuine(c, g, off)
    ensures IsPrefix(Accepted(c, g, off)) <==> g.data == [] || off == |c.got|
  {
    var c' := Accepted(c, g, off);
    if g.data != [] {
      assert c'.got[|c.got|] == off;
      assert Span(0, |c'.got|)[|c.got|] == |c.got|;
    }
    if g.data == [] || off == |c.got| {
      forall i | 0 <= i < |c'.got| ensures c'.got[i] == i {
        assert i < |c.got| ==> c.got[i] == Span(0, |c.got|)[i];
      }
    }
  }

  /** Accepting more never repairs the order. */
  lemma BrokenStaysBroken(c: Conn, g: Segment, off: nat)
    requires !IsPrefix(c)
    ensures !IsPrefix(Accepted(c, g, off))
  {
    var c' := Accepted(c, g, off);
    var i :| 0 <= i < |c.got| && c.got[i] != i;
    assert c'.got[i] == c.got[i] && Span(0, |c'.got|)[i] == i;
  }

  //
  // Numbers
  //

  /** The peer's next sequence number, as far as the socket has heard. */
  function Next(c: Conn): u32 {
    Wrap(c.irs + 1 + |c.got| + if c.fin then 1 else 0)
  }

  /** The number acknowledged after a data segment, with or without FIN. */
  lemma AckAfterData(seqNum: u32, irs: u32, count: nat, len: nat, fin: bool)
    requires seqNum == Wrap(irs + 1 + count)
    ensures Wrap(Wrap(seqNum + if fin then 1 else 0) + len) == Wrap(irs + 1 + (count + len) + if fin then 1 else 0)
  {
    WrapAdd(seqNum + if fin then 1 else 0, len);
    WrapAdd(irs + 1 + count, (if fin then 1 else 0) + len);
  }

  /** In order, empty segments included, and after a FIN only with the number that follows it. */
  ghost predicate InStep(p: Peered, e: Event)
    requires PeerEnabled(p, e)
  {
    e.Arrive? ==>
      && (p.w.sock.state == Established ==> e.off == |Current(p).got|)
      && (p.w.sock.state == LastAck && !e.g.ack && p.conns != [] ==> e.g.seqNum == Next(Current(p)))
  }

  ghost predicate Acked(p: Peered) {
    p.w.sock.state == SynReceived || p.w.sock.state == Established || p.w.sock.state == LastAck ==>
      p.conns != [] && p.w.sock.lastSeqToAck == Next(Current(p))
  }

  //
  // Every step
  //

  ghost predicate PeerInv(p: Peered) {
    && AllPositions(p.conns)
    && p.drained + p.w.sock.rx == Received(p.conns)
    && (p.w.sock.state == SynReceived || p.w.sock.state == Established || p.w.sock.state == LastAck ==> p.conns != [])
    && (p.w.sock.state == SynReceived || p.w.sock.state == Established ==> !Current(p).fin)
  }

  lemma DataKeeps(p: Peered, g: Segment, off: nat)
    requires PeerInv(p) && p.w.sock.state == Established && Genuine(Current(p), g, off)
    ensures var p' := SetCurrent(p, Accepted(Current(p), g, off));
            && AllPositions(p'.conns) && p.drained + (p.w.sock.rx + g.data) == Received(p'.conns)
  {
    var front, c := p.conns[..|p.conns| - 1], Current(p);
    assert p.conns == front + [c];
    AcceptedBytes(c, g, off);
    ReceivedLast(front, c);
    ReceivedLast(front, Accepted(c, g, off));
    assert p.drained + (p.w.sock.rx + g.data) == p.drained + p.w.sock.rx + g.data;
  }

  lemma LocalKeeps(p: Peered, a: Action)
    requires PeerInv(p) && Enabled(p.w, a) && !a.Receive?
    ensures PeerInv(PeerStep(p, Local(a)).0)
  {
    if a.AppRead? {
      assert p.drained + p.w.sock.rx[..a.n] + p.w.sock.rx[a.n..] == p.drained + p.w.sock.rx;
    }
  }

  /** Every step hands the application exactly the accepted bytes, in the order of acceptance. */
  lemma PeerStepKeeps(p: Peered, e: Event)
    requires PeerInv(p) && PeerEnabled(p, e)
    ensures PeerInv(PeerStep(p, e).0)
  {
    match e
    case Local(a) => LocalKeeps(p, a);
    case Arrive(g, off, stream) =>
      if Accepts(p.w.sock, g) {
        ReceivedLast(p.conns, Conn(g.seqNum, stream, [], false));
      } else if p.w.sock.state == Established {
        DataKeeps(p, g, off);
      }
  }

  /** A step keeps every connection a prefix of the peer's stream exactly if it is in order. */
  lemma StepOrder(p: Peered, e: Event)
    requires PeerInv(p) && PeerEnabled(p, e)
    ensures AllPrefixes(PeerStep(p, e).0.conns) <==> AllPrefixes(p.conns) && InOrder(p, e)
  {
    var conns, conns' := p.conns, PeerStep(p, e).0.conns;
    if e.Arrive? && Accepts(p.w.sock, e.g) {
      LastPrefix(conns, Conn(e.g.seqNum, e.stream, [], false));
    } else if e.Arrive? && p.w.sock.state == Established {
      var front, c := conns[..|conns| - 1], Current(p);
      assert conns == front + [c];
      LastPrefix(front, c);
      LastPrefix(front, Accepted(c, e.g, e.off));
      if IsPrefix(c) {
        AcceptedPrefix(c, e.g, e.off);
      } else {
        BrokenStaysBroken(c, e.g, e.off);
      }
    }
  }

  lemma LastPrefix(conns: seq<Conn>, c: Conn)
    ensures AllPrefixes(conns + [c]) <==> AllPrefixes(conns) && IsPrefix(c)
  {
    var all := conns + [c];
    if AllPrefixes(all) {
      forall i | 0 <= i < |conns| ensures IsPrefix(conns[i]) {
        assert all[i] == conns[i];
      }
      assert all[|conns|] == c;
    }
  }

  /** A step in step keeps the acknowledged number the peer's next one, and every acknowledgement
      sent names it: one past its SYN, plus its bytes, plus one for its FIN. */
  lemma StepAcks(p: Peered, e: Event)
    requires PeerInv(p) && Acked(p) && PeerEnabled(p, e) && InStep(p, e)
    ensures Acked(PeerStep(p, e).0)
    ensures var (p', out) := PeerStep(p, e);
            out.Some? && out.value.seqToAck.Some? ==> p'.conns != [] && out.value.seqToAck.value == Next(Current(p'))
  {
    match e
    case Local(a) =>
    case Arrive(g, off, stream) =>
      if p.w.sock.state == Established {
        DataAcks(p, g, off, stream);
      }
  }

  lemma DataAcks(p: Peered, g: Segment, off: nat, stream: seq<byte>)
    requires PeerInv(p) && p.w.sock.state == Established && Genuine(Current(p), g, off) && off == |Current(p).got|
    ensures var (p', out) := PeerStep(p, Arrive(g, off, stream));
            p'.conns != [] && p'.w.sock.lastSeqToAck == Next(Current(p')) && out.Some? && out.value.seqToAck == Some(Next(Current(p')))
  {
    var c := Current(p);
    AckAfterData(g.seqNum, c.irs, |c.got|, |g.data|, g.fin);
    assert Current(SetCurrent(p, Accepted(c, g, off))) == Accepted(c, g, off);
  }

  //
  // Runs
  //

  ghost predicate PeerRun(p: Peered, run: seq<Event>)
    decreases |run|
  {
    run == [] || (PeerEnabled(p, run[0]) && PeerRun(PeerStep(p, run[0]).0, run[1..]))
  }

  ghost function RunPeer(p: Peered, run: seq<Event>): Peered
    requires PeerRun(p, run)
    decreases |run|
  {
    if run == [] then p else RunPeer(PeerStep(p, run[0]).0, run[1..])
  }

  ghost predicate InOrderRun(p: Peered, run: seq<Event>)
    requires PeerRun(p, run)
    decreases |run|
  {
    run == [] || (InOrder(p, run[0]) && InOrderRun(PeerStep(p, run[0]).0, run[1..]))
  }

  ghost predicate InStepRun(p: Peered, run: seq<Event>)
    requires PeerRun(p, run)
    decreases |run|
  {
    run == [] || (InStep(p, run[0]) && InStepRun(PeerStep(p, run[0]).0, run[1..]))
  }

  lemma {:induction false} RunKeepsPeer(p: Peered, run: seq<Event>)
    requires PeerInv(p) && PeerRun(p, run)
    ensures PeerInv(RunPeer(p, run))
    ensures AllPrefixes(RunPeer(p, run).conns) <==> AllPrefixes(p.conns) && InOrderRun(p, run)
    decreases |run|
  {
    if run != [] {
      PeerStepKeeps(p, run[0]);
      StepOrder(p, run[0]);
      RunKeepsPeer(PeerStep(p, run[0]).0, run[1..]);
    }
  }

  lemma {:induction false} RunAcks(p: Peered, run: seq<Event>)
    requires PeerInv(p) && Acked(p) && PeerRun(p, run) && InStepRun(p, run)
    ensures Acked(RunPeer(p, run))
    decreases |run|
  {
    if run != [] {
      PeerStepKeeps(p, run[0]);
      StepAcks(p, run[0]);
      RunAcks(PeerStep(p, run[0]).0, run[1..]);
    }
  }

  lemma MeetInv(s: Socket)
    requires NewSocket(s)
    ensures PeerInv(Meet(s)) && Acked(Meet(s)) && AllPrefixes(Meet(s).conns)
  {
  }

  /** What a peer that loses nothing gets across: the start of each of its streams. */
  function Prefixes(conns: seq<Conn>): seq<byte>
    requires forall i :: 0 <= i < |conns| ==> |conns[i].got| <= |conns[i].stream|
  {
    if conns == [] then [] else
      var c := conns[|conns| - 1];
      Prefixes(conns[..|conns| - 1]) + c.stream[..|c.got|]
  }

  lemma PrefixBytes(c: Conn)
    requires Positions(c) && IsPrefix(c)
    ensures |c.got| <= |c.stream| && BytesOf(c) == c.stream[..|c.got|]
  {
    assert c.got != [] ==> c.got[|c.got| - 1] == |c.got| - 1;
    forall i | 0 <= i < |c.got| ensures BytesOf(c)[i] == c.stream[..|c.got|][i] {
      assert c.got[i] == Span(0, |c.got|)[i];
    }
  }

  lemma {:induction false} PrefixesReceived(conns: seq<Conn>)
    requires AllPositions(conns) && AllPrefixes(conns)
    ensures forall i :: 0 <= i < |conns| ==> |conns[i].got| <= |conns[i].stream|
    ensures Received(conns) == Prefixes(conns)
  {
    forall i | 0 <= i < |conns| ensures |conns[i].got| <= |conns[i].stream| {
      PrefixBytes(conns[i]);
    }
    if conns != [] {
      PrefixesReceived(conns[..|conns| - 1]);
      PrefixBytes(conns[|conns| - 1]);
    }
  }

  /** From a new socket, over every run with a lossy network: what the application has read followed
      by what waits for it is the accepted bytes of all connections; these are the start of each
      stream, in order and once, if and only if every data segment that reached the established
      socket started where the accepted data ended; and then they are the peer's bytes. */
  lemma RunReceivesTheStream(s: Socket, run: seq<Event>)
    requires NewSocket(s) && PeerRun(Meet(s), run)
    ensures var p := RunPeer(Meet(s), run);
            && AllPositions(p.conns)
            && p.drained + p.w.sock.rx == Received(p.conns)
            && (AllPrefixes(p.conns) <==> InOrderRun(Meet(s), run))
            && (InOrderRun(Meet(s), run) ==>
                  && (forall i :: 0 <= i < |p.conns| ==> |p.conns[i].got| <= |p.conns[i].stream|)
                  && p.drained + p.w.sock.rx == Prefixes(p.conns))
  {
    MeetInv(s);
    RunKeepsPeer(Meet(s), run);
    if InOrderRun(Meet(s), run) {
      PrefixesReceived(RunPeer(Meet(s), run).conns);
    }
  }

  /** While everything arrives in step, the acknowledged number is the peer's next one. */
  lemma RunAcknowledges(s: Socket, run: seq<Event>)
    requires NewSocket(s) && PeerRun(Meet(s), run) && InStepRun(Meet(s), run)
    ensures var p := RunPeer(Meet(s), run);
            p.w.sock.state == Established || p.w.sock.state == LastAck ==>
              p.conns != [] && p.w.sock.lastSeqToAck == Next(Current(p))
  {
    MeetInv(s);
    RunAcks(Meet(s), run);
  }

  lemma RunPeerCons(p: Peered, e: Event, p': Peered, run: seq<Event>)
    requires PeerEnabled(p, e) && PeerStep(p, e).0 == p' && PeerRun(p', run)
    ensures PeerRun(p, [e] + run) && RunPeer(p, [e] + run) == RunPeer(p', run)
  {
    assert ([e] + run)[1..] == run;
  }

  /** A server after the handshake of a peer that is going to send `stream`. */
  lemma Handshake(stream: seq<byte>) returns (p1: Peered, p2: Peered)
    ensures var e0, e1 := Arrive(Control(100, 0, false, true, false), 0, stream), Arrive(Control(101, 1, true, false, false), 0, []);
            && PeerEnabled(Meet(NewServer(50000)), e0) && PeerStep(Meet(NewServer(50000)), e0).0 == p1
            && PeerEnabled(p1, e1) && PeerStep(p1, e1).0 == p2
    ensures p2.w.sock.state == Established && p2.w.sock.rx == [] && p2.conns == [Conn(100, stream, [], false)]
  {
    p1 := PeerStep(Meet(NewServer(50000)), Arrive(Control(100, 0, false, true, false), 0, stream)).0;
    p2 := PeerStep(p1, Arrive(Control(101, 1, true, false, false), 0, [])).0;
  }

  /** One byte that arrives is appended, wherever in the stream it belongs. */
  lemma ByteArrives(p: Peered, c: Conn, off: nat) returns (e: Event, p': Peered)
    requires p.w.sock.state == Established && p.conns == [c] && off < |c.stream| && c.irs == 100 && off < 100
    ensures PeerEnabled(p, e) && PeerStep(p, e).0 == p'
    ensures p'.w.sock.state == Established && p'.w.sock.rx == p.w.sock.rx + [c.stream[off]]
    ensures p'.conns == [Conn(100, c.stream, c.got + [off], false)]
  {
    var g := Control(101 + off, 1, true, false, false).(data := [c.stream[off]]);
    e := Arrive(g, off, []);
    assert c.stream[off..off + 1] == [c.stream[off]];
    p' := PeerStep(p, e).0;
    assert Span(off, 1) == [off];
  }

  /** Two one-byte segments that overtake each other are read in the wrong order. */
  lemma OvertakingIsNotNoticed() returns (run: seq<Event>)
    ensures PeerRun(Meet(NewServer(50000)), run)
    ensures var p := RunPeer(Meet(NewServer(50000)), run);
            p.w.sock.state == Established && |p.conns| == 1 && p.conns[0].stream == [1, 2] && p.w.sock.rx == [2, 1]
  {
    var stream: seq<byte> := [1, 2];
    var p1, p2 := Handshake(stream);
    var e2, p3 := ByteArrives(p2, p2.conns[0], 1);
    var e3, p4 := ByteArrives(p3, p3.conns[0], 0);
    var e0, e1 := Arrive(Control(100, 0, false, true, false), 0, stream), Arrive(Control(101, 1, true, false, false), 0, []);
    RunPeerCons(p3, e3, p4, []);
    RunPeerCons(p2, e2, p3, [e3] + []);
    RunPeerCons(p1, e1, p2, [e2] + ([e3] + []));
    RunPeerCons(Meet(NewServer(50000)), e0, p1, [e1] + ([e2] + ([e3] + [])));
    run := [e0] + ([e1] + ([e2] + ([e3] + [])));
  }
}
