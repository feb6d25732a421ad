/** The TCP socket of os/src/net/tcp.rs as a value, and what it keeps over every run: states,
    sequence numbers and the bytes it sends (sections 3.3.2, 3.4 and 3.5 of RFC 9293). */
module Tcp {
  import opened Common

  datatype TcpSocketState = Listen | SynSent | SynReceived | Established | LastAck | Closed

  /** A received segment. */
  datatype Segment = Segment(
    srcIp: u32, srcPort: u16, dstIp: u32, dstPort: u16,
    seqNum: u32, ackNum: u32, ack: bool, syn: bool, fin: bool, data: seq<byte>)

  /** A segment handed to `gen_tcp_packet`. */
  datatype Outgoing = Outgoing(
    toIp: u32, toPort: u16, fromIp: u32, fromPort: u16,
    seqNum: u32, seqToAck: Option<u32>, syn: bool, fin: bool, data: seq<byte>)

  datatype Socket = Socket(
    selfIp: Option<u32>, selfPort: Option<u16>, anotherIp: Option<u32>, anotherPort: Option<u16>,
    nextSeq: u32, lastSeqToAck: u32, state: TcpSocketState,
    rx: seq<byte>, tx: seq<byte>, keepListening: bool)
  {
    predicate AddressesSet() {
      selfIp.Some? && selfPort.Some? && anotherIp.Some? && anotherPort.Some?
    }
  }

  function Wrap(n: nat): u32 { n % 0x1_0000_0000 }

  function NewServer(port: u16): Socket {
    Socket(None, Some(port), None, None, 0, 0, Listen, [], [], true)
  }

  function NewClient(ip: u32, port: u16): Socket {
    Socket(None, None, Some(ip), Some(port), 0, 0, SynSent, [], [], false)
  }

  //
  // Operations
  //

  function Reply(g: Segment, seqNum: u32, seqToAck: u32, syn: bool, fin: bool): Outgoing {
    Outgoing(g.srcIp, g.srcPort, g.dstIp, g.dstPort, seqNum, Some(seqToAck), syn, fin, [])
  }

  /** `handle_rx` on a parsed segment: the new socket and the answer, if any. */
  function HandleRx(s: Socket, g: Segment): (Socket, Option<Outgoing>) {
    match s.state
    case Listen =>
      if !g.syn then (s, None) else
        var a := Wrap(g.seqNum + 1);
        (s.(nextSeq := Wrap(s.nextSeq + 1), state := SynReceived, lastSeqToAck := a), Some(Reply(g, s.nextSeq, a, true, false)))
    case SynSent =>
      if !g.syn || !g.ack || g.ackNum != s.nextSeq then (s, None) else
        var a := Wrap(g.seqNum + 1);
        (s.(state := Established, lastSeqToAck := a), Some(Reply(g, s.nextSeq, a, false, false)))
    case SynReceived =>
      if !g.ack || g.ackNum != s.nextSeq then (s, None) else
        (s.(state := Established, anotherIp := Some(g.srcIp), anotherPort := Some(g.srcPort),
            selfIp := Some(g.dstIp), selfPort := Some(g.dstPort)),
         None)
    case Established =>
      var a := Wrap(Wrap(g.seqNum + if g.fin then 1 else 0) + |g.data|);
      (s.(state := if g.fin then LastAck else Established, rx := s.rx + g.data, lastSeqToAck := a),
       Some(Reply(g, s.nextSeq, a, false, g.fin)))
    case LastAck =>
      if g.ack then (s.(state := if s.keepListening then Listen else Closed), None)
      else (s.(lastSeqToAck := g.seqNum), Some(Reply(g, s.nextSeq, g.seqNum, false, false)))
    case Closed => (s, None)
  }

  /** `poll_tx` */
  function PollTx(s: Socket): Result<(Socket, Option<Outgoing>)> {
    if s.tx == [] || s.state != Established then Ok((s, None))
    else if !s.AddressesSet() then Err
    else
      Ok((s.(tx := [], nextSeq := Wrap(s.nextSeq + |s.tx|)),
          Some(Outgoing(s.anotherIp.value, s.anotherPort.value, s.selfIp.value, s.selfPort.value,
                        s.nextSeq, Some(s.lastSeqToAck), false, false, s.tx))))
  }

  const ISS: u32 := 1234

  /** `open` */
  function Open(s: Socket): Result<(Socket, Outgoing)> {
    if !s.AddressesSet() then Err
    else
      Ok((s.(nextSeq := Wrap(ISS + 1)),
          Outgoing(s.anotherIp.value, s.anotherPort.value, s.selfIp.value, s.selfPort.value, ISS, None, true, false, [])))
  }

  //
  // Runs with an arbitrary peer
  //

  /** The two ends of a segment on its way. */
  datatype Route = Route(toIp: u32, toPort: u16, fromIp: u32, fromPort: u16)

  predicate Takes(out: Outgoing, r: Route) {
    out.toIp == r.toIp && out.toPort == r.toPort && out.fromIp == r.fromIp && out.fromPort == r.fromPort
  }

  /** The way back to where a segment came from. */
  function WayBack(g: Segment): Route { Route(g.srcIp, g.srcPort, g.dstIp, g.dstPort) }

  /** `origin` is the socket as it was made, `own` the address and port it was opened with and `shook`
      the segment that completed the last handshake of a server.
      `syn` is the number of the SYN the socket has sent on the current connection, if it has sent
      one, `first` the number of the connection's first data byte and `conn` the data segments sent
      on it; `before` are the bytes sent on earlier connections and `enqueued` all bytes the
      application ever wrote. */
  datatype World = World(
    origin: Socket,
    sock: Socket,
    hasOpened: bool,
    own: Option<(u32, u16)>,
    shook: Option<Segment>,
    syn: Option<u32>,
    first: u32,
    conn: seq<Outgoing>,
    before: seq<byte>,
    enqueued: seq<byte>)

  datatype Action =
    | Receive(g: Segment)
    | Poll
    | AppWrite(bytes: seq<byte>)
    | AppRead(n: nat)
    | OpenSocket(selfIp: Option<u32>, selfPort: u16)

  /** `open_tcp_socket` calls `open` on a new client after setting its own port and, if the machine
      has one, its address. */
  predicate Enabled(w: World, a: Action) {
    match a
    case AppRead(n) => n <= |w.sock.rx|
    case OpenSocket(_, _) => w.sock.state == SynSent && !w.hasOpened
    case _ => true
  }

  /** The next world, and the segment that was sent, if any. */
  function Step(w: World, a: Action): (World, Option<Outgoing>)
    requires Enabled(w, a)
  {
    match a
    case Receive(g) =>
      var (s', out) := HandleRx(w.sock, g);
      var w' := if w.sock.state == Listen && g.syn then w.(syn := Some(w.sock.nextSeq), first := Wrap(w.sock.nextSeq + 1), before := w.before + Payloads(w.conn), conn := []) else w;
      var shook := if w.sock.state == SynReceived && s'.state == Established then Some(g) else w.shook;
      (w'.(sock := s', shook := shook), out)
    case Poll =>
      (match PollTx(w.sock)
       case Err => (w, None)
       case Ok((s', None)) => (w.(sock := s'), None)
       case Ok((s', Some(out))) => (w.(sock := s', conn := w.conn + [out]), Some(out)))
    case AppWrite(bytes) => (w.(sock := w.sock.(tx := w.sock.tx + bytes), enqueued := w.enqueued + bytes), None)
    case AppRead(n) => (w.(sock := w.sock.(rx := w.sock.rx[n..])), None)
    case OpenSocket(ip, port) =>
      var s := w.sock.(selfIp := ip, selfPort := Some(port));
      (match Open(s)
       case Err => (w.(sock := s), None)
       case Ok((s', out)) => (w.(sock := s', hasOpened := true, own := Some((ip.value, port)), syn := Some(ISS), first := Wrap(ISS + 1)), Some(out)))
  }

  function Start(s: Socket): World {
    World(s, s, false, None, None, None, 0, [], [], [])
  }

  ghost predicate NewSocket(s: Socket) {
    (exists port :: s == NewServer(port)) || (exists ip, port :: s == NewClient(ip, port))
  }

  function Payloads(conn: seq<Outgoing>): seq<byte> {
    if conn == [] then [] else Payloads(conn[..|conn| - 1]) + conn[|conn| - 1].data
  }

  /** Each data segment starts where the one before it ended, the first at `first`. */
  ghost predicate Tiles(conn: seq<Outgoing>, first: u32) {
    forall i :: 0 <= i < |conn| ==> TileAt(conn, first, i)
  }

  ghost predicate TileAt(conn: seq<Outgoing>, first: u32, i: nat)
    requires i < |conn|
  {
    && conn[i].seqNum == Wrap(first + |Payloads(conn[..i])|)
    && !conn[i].syn && !conn[i].fin && conn[i].data != []
  }

  ghost predicate RoleOk(s: Socket) {
    if s.keepListening then s.state != SynSent && s.state != Closed && s.selfPort.Some?
    else s.state != Listen && s.state != SynReceived && s.anotherIp.Some? && s.anotherPort.Some?
  }

  /** A client has sent a SYN exactly if it was opened; a server has as soon as it leaves `Listen`. */
  ghost predicate SynOk(w: World) {
    && (w.syn.Some? ==> w.first == Wrap(w.syn.value + 1))
    && (!w.sock.keepListening ==> (w.syn.Some? <==> w.hasOpened))
    && (w.sock.keepListening && w.sock.state != Listen ==> w.syn.Some?)
    && (w.syn.None? ==> w.first == 0)
  }

  ghost predicate AddressesOk(w: World) {
    && (w.hasOpened ==> w.sock.AddressesSet() && !w.sock.keepListening)
    && (!w.hasOpened && !w.sock.keepListening ==> w.sock.selfIp.None?)
    && (w.sock.keepListening && (w.sock.state == Established || w.sock.state == LastAck) ==> w.sock.AddressesSet())
  }

  /** The way of a connection's data: for a server back to where the handshake was completed from, for
      a client from the address it was opened with to the one it was made for. */
  function RouteOf(w: World): Option<Route> {
    if w.sock.keepListening then
      if w.shook.Some? then Some(WayBack(w.shook.value)) else None
    else if w.own.Some? && w.origin.anotherIp.Some? && w.origin.anotherPort.Some? then
      Some(Route(w.origin.anotherIp.value, w.origin.anotherPort.value, w.own.value.0, w.own.value.1))
    else None
  }

  ghost predicate KnowsRoute(s: Socket, r: Route) {
    s.anotherIp == Some(r.toIp) && s.anotherPort == Some(r.toPort) && s.selfIp == Some(r.fromIp) && s.selfPort == Some(r.fromPort)
  }

  ghost predicate AllTake(conn: seq<Outgoing>, r: Option<Route>) {
    forall i :: 0 <= i < |conn| ==> r.Some? && Takes(conn[i], r.value)
  }

  ghost predicate RouteOk(w: World) {
    && w.origin.keepListening == w.sock.keepListening
    && (!w.sock.keepListening ==> w.sock.anotherIp == w.origin.anotherIp && w.sock.anotherPort == w.origin.anotherPort)
    && (w.hasOpened ==> RouteOf(w).Some? && KnowsRoute(w.sock, RouteOf(w).value))
    && (w.sock.keepListening && (w.sock.state == Established || w.sock.state == LastAck) ==> RouteOf(w).Some? && KnowsRoute(w.sock, RouteOf(w).value))
    && AllTake(w.conn, RouteOf(w))
  }

  ghost predicate Inv(w: World) {
    && RoleOk(w.sock)
    && RouteOk(w)
    && SynOk(w)
    && AddressesOk(w)
    && Tiles(w.conn, w.first)
    && (w.sock.state != Listen ==> w.sock.nextSeq == Wrap(w.first + |Payloads(w.conn)|))
    && (w.sock.state == SynSent || w.sock.state == SynReceived ==> w.conn == [])
    && w.before + Payloads(w.conn) + w.sock.tx == w.enqueued
  }

  lemma StartInv(ip: u32, port: u16)
    ensures Inv(Start(NewServer(port))) && Inv(Start(NewClient(ip, port)))
    ensures NewServer(port).state == Listen && NewServer(port).keepListening && NewServer(port).selfPort == Some(port)
    ensures var c := NewClient(ip, port); c.state == SynSent && !c.keepListening && c.anotherIp == Some(ip) && c.anotherPort == Some(port)
  {
  }

  lemma PayloadsAppend(conn: seq<Outgoing>, out: Outgoing)
    ensures Payloads(conn + [out]) == Payloads(conn) + out.data
  {
    assert (conn + [out])[..|conn|] == conn;
  }

  lemma WrapAdd(a: nat, b: nat)
    ensures Wrap(Wrap(a) + b) == Wrap(a + b)
  {
  }

  lemma TilesAppend(conn: seq<Outgoing>, first: u32, out: Outgoing)
    requires Tiles(conn, first) && out.seqNum == Wrap(first + |Payloads(conn)|) && !out.syn && !out.fin && out.data != []
    ensures Tiles(conn + [out], first)
  {
    var all := conn + [out];
    forall i | 0 <= i < |all| ensures TileAt(all, first, i) {
      if i < |conn| {
        TileKept(conn, first, out, i);
      } else {
        TileLast(conn, first, out);
      }
    }
  }

  lemma TileLast(conn: seq<Outgoing>, first: u32, out: Outgoing)
    requires out.seqNum == Wrap(first + |Payloads(conn)|) && !out.syn && !out.fin && out.data != []
    ensures TileAt(conn + [out], first, |conn|)
  {
    assert (conn + [out])[..|conn|] == conn;
  }

  lemma TileKept(conn: seq<Outgoing>, first: u32, out: Outgoing, i: nat)
    requires i < |conn| && TileAt(conn, first, i)
    ensures TileAt(conn + [out], first, i)
  {
    assert (conn + [out])[..i] == conn[..i];
  }

  lemma SynKeeps(w: World, g: Segment)
    requires Inv(w) && w.sock.state == Listen && g.syn
    ensures Inv(Step(w, Receive(g)).0)
  {
    var w' := Step(w, Receive(g)).0;
    assert w'.before + Payloads([]) == w.before + Payloads(w.conn);
    assert w'.sock.nextSeq == w'.first == Wrap(w'.first + |Payloads([])|);
  }

  lemma ReceiveKeeps(w: World, g: Segment)
    requires Inv(w)
    ensures Inv(Step(w, Receive(g)).0)
  {
    if w.sock.state == Listen && g.syn {
      SynKeeps(w, g);
    } else {
      var s' := HandleRx(w.sock, g).0;
      var shook := if w.sock.state == SynReceived && s'.state == Established then Some(g) else w.shook;
      assert Step(w, Receive(g)).0 == w.(sock := s', shook := shook);
      assert s'.tx == w.sock.tx && s'.nextSeq == w.sock.nextSeq;
    }
  }

  /** Sending all queued data moves it from the queue to the end of the connection. */
  lemma SentAll(before: seq<byte>, conn: seq<Outgoing>, out: Outgoing, first: u32)
    requires Tiles(conn, first) && out.seqNum == Wrap(first + |Payloads(conn)|) && !out.syn && !out.fin && out.data != []
    ensures Tiles(conn + [out], first)
    ensures before + Payloads(conn + [out]) + [] == before + Payloads(conn) + out.data
    ensures Wrap(out.seqNum + |out.data|) == Wrap(first + |Payloads(conn + [out])|)
  {
    PayloadsAppend(conn, out);
    TilesAppend(conn, first, out);
    WrapAdd(first + |Payloads(conn)|, |out.data|);
  }

  lemma PollKeeps(w: World)
    requires Inv(w)
    ensures Inv(Step(w, Poll).0)
  {
    if w.sock.tx != [] && w.sock.state == Established && w.sock.AddressesSet() {
      var (s', out) := PollTx(w.sock).value;
      assert Step(w, Poll).0 == w.(sock := s', conn := w.conn + [out.value]);
      SentAll(w.before, w.conn, out.value, w.first);
    } else {
      assert Step(w, Poll).0 == w;
    }
  }

  lemma StepKeeps(w: World, a: Action)
    requires Inv(w) && Enabled(w, a)
    ensures Inv(Step(w, a).0)
  {
    match a
    case Receive(g) => ReceiveKeeps(w, g);
    case Poll => PollKeeps(w);
    case AppWrite(bytes) =>
      assert w.before + Payloads(w.conn) + (w.sock.tx + bytes) == w.before + Payloads(w.conn) + w.sock.tx + bytes;
    case AppRead(n) =>
    case OpenSocket(ip, port) =>
  }

  //
  // What every step does
  //

  /** The state diagram the socket implements, for a client and for a server. */
  predicate Follows(keepListening: bool, s: TcpSocketState, s': TcpSocketState) {
    || s == s'
    || (!keepListening && s == SynSent && s' == Established)
    || (keepListening && s == Listen && s' == SynReceived)
    || (keepListening && s == SynReceived && s' == Established)
    || (s == Established && s' == LastAck)
    || (!keepListening && s == LastAck && s' == Closed)
    || (keepListening && s == LastAck && s' == Listen)
  }

  /** Acknowledges the SYN that was sent on the connection and nothing else. */
  predicate AcksSyn(w: World, g: Segment) {
    w.syn.Some? && g.ack && g.ackNum == Wrap(w.syn.value + 1)
  }

  /** Every step follows the state diagram; every segment sent carries the number that follows all
      bytes sent on the connection, a SYN its own number; a number once chosen is kept. */
  lemma StepFollows(w: World, a: Action)
    requires Inv(w) && Enabled(w, a)
    ensures var (w', out) := Step(w, a);
            && w'.sock.keepListening == w.sock.keepListening
            && Follows(w.sock.keepListening, w.sock.state, w'.sock.state)
            && (out.Some? ==> if out.value.syn then w'.syn == Some(out.value.seqNum) else out.value.seqNum == Wrap(w.first + |Payloads(w.conn)|))
            && (out.Some? && out.value.data != [] ==> w'.conn == w.conn + [out.value])
            && (w.sock.state != Listen && !a.OpenSocket? ==> w'.syn == w.syn && w'.first == w.first && w.conn <= w'.conn)
  {
    StepKeeps(w, a);
  }

  /** Every data segment goes the way of its connection, every answer back to where the segment came
      from, and the SYN of `open` from the socket's own address to the one it was made for. */
  lemma StepRoutes(w: World, a: Action)
    requires Inv(w) && Enabled(w, a)
    ensures var (w', out) := Step(w, a);
            out.Some? ==>
              && (a.Receive? ==> Takes(out.value, WayBack(a.g)) && out.value.data == [])
              && (a.Poll? || a.OpenSocket? ==> RouteOf(w').Some? && Takes(out.value, RouteOf(w').value))
              && (out.value.data != [] ==> a.Poll? && out.value.data == w.sock.tx && w'.sock.tx == [])
  {
    StepKeeps(w, a);
  }

  /** Exactly when the socket sends, and with which flags. */
  lemma StepSends(w: World, a: Action)
    requires Inv(w) && Enabled(w, a)
    ensures var (w', out) := Step(w, a);
            var from, to := w.sock.state, w'.sock.state;
            && (a.Receive? ==>
                  (out.Some? <==> from == Established || (from == Listen && a.g.syn) || (from == SynSent && to == Established) || (from == LastAck && !a.g.ack)))
            && (a.Poll? ==> (out.Some? <==> from == Established && w.sock.tx != [] && (w.hasOpened || w.sock.keepListening)))
            && (a.OpenSocket? ==> (out.Some? <==> a.selfIp.Some?))
            && (a.AppWrite? || a.AppRead? ==> out.None?)
            && (out.Some? ==>
                  && (out.value.syn <==> (from == Listen && to == SynReceived) || a.OpenSocket?)
                  && (out.value.fin <==> from == Established && to == LastAck)
                  && (out.value.seqToAck.None? <==> a.OpenSocket?)
                  && (a.OpenSocket? ==> out.value.seqNum == 1234)
                  && (a.Poll? ==> out.value.seqToAck == Some(w.sock.lastSeqToAck)))
  {
    if w.sock.state == Established {
      OnceEstablished(w);
    }
  }

  /** The next state, exactly. */
  lemma MovesExactly(s: Socket, g: Segment)
    ensures var s' := HandleRx(s, g).0;
            match s.state
            case Listen => s'.state == if g.syn then SynReceived else Listen
            case SynSent => s'.state == if g.syn && g.ack && g.ackNum == s.nextSeq then Established else SynSent
            case SynReceived => s'.state == if g.ack && g.ackNum == s.nextSeq then Established else SynReceived
            case Established => s'.state == if g.fin then LastAck else Established
            case LastAck => s'.state == if !g.ack then LastAck else if s.keepListening then Listen else Closed
            case Closed => s'.state == Closed
    ensures var s' := HandleRx(s, g).0;
            && s'.tx == s.tx && s'.rx == s.rx + (if s.state == Established then g.data else [])
            && s'.nextSeq == if s.state == Listen && g.syn then (s.nextSeq + 1) % 0x1_0000_0000 else s.nextSeq
  {
  }

  /** The segment establishes the connection. */
  predicate Establishes(w: World, g: Segment) {
    w.sock.state != Established && Step(w, Receive(g)).0.sock.state == Established
  }

  /** A segment that establishes the connection acknowledges exactly the SYN, and all four addresses
      are then known, if and only if the socket listens or was opened. */
  lemma EstablishedBySyn(w: World, g: Segment)
    requires Inv(w) && Establishes(w, g)
    ensures AcksSyn(w, g) <==> w.hasOpened || w.sock.keepListening
    ensures Step(w, Receive(g)).0.sock.AddressesSet() <==> w.hasOpened || w.sock.keepListening
  {
    StepKeeps(w, Receive(g));
    OnceEstablished(Step(w, Receive(g)).0);
  }

  /** In `Established`, all addresses are known exactly if the socket listens or was opened. */
  lemma OnceEstablished(w: World)
    requires Inv(w) && w.sock.state == Established
    ensures w.sock.AddressesSet() <==> w.hasOpened || w.sock.keepListening
  {
  }

  /** `poll_tx` reports an error exactly when an established client that was never opened has data
      to send; the data stays queued. */
  lemma PollErrsExactly(w: World)
    requires Inv(w)
    ensures PollTx(w.sock).Err? <==> !w.hasOpened && !w.sock.keepListening && w.sock.state == Established && w.sock.tx != []
    ensures PollTx(w.sock).Err? ==> Step(w, Poll).0 == w
  {
    if w.sock.state == Established {
      OnceEstablished(w);
    }
  }

  /** The FIN a socket sends carries its next number and does not advance it. */
  lemma FinKeepsNumber(s: Socket, g: Segment)
    ensures var (s', out) := HandleRx(s, g);
            out.Some? && out.value.fin ==>
              s.state == Established && s'.state == LastAck && out.value.seqNum == s.nextSeq == s'.nextSeq
  {
  }

  /** A connection that waits for its last acknowledgement is over exactly when any acknowledgement
      arrives, whatever number it carries. */
  lemma LastAckEnds(s: Socket, g: Segment)
    requires s.state == LastAck
    ensures HandleRx(s, g).0.state != LastAck <==> g.ack
  {
  }

  //
  // Runs
  //

  ghost predicate LegalRun(w: World, run: seq<Action>)
    decreases |run|
  {
    run == [] || (Enabled(w, run[0]) && LegalRun(Step(w, run[0]).0, run[1..]))
  }

  ghost function Run(w: World, run: seq<Action>): World
    requires LegalRun(w, run)
    decreases |run|
  {
    if run == [] then w else Run(Step(w, run[0]).0, run[1..])
  }

  lemma {:induction false} RunKeeps(w: World, run: seq<Action>)
    requires Inv(w) && LegalRun(w, run)
    ensures Inv(Run(w, run))
    decreases |run|
  {
    if run != [] {
      StepKeeps(w, run[0]);
      RunKeeps(Step(w, run[0]).0, run[1..]);
    }
  }

  lemma NewSocketInv(s: Socket)
    requires NewSocket(s)
    ensures Inv(Start(s))
  {
    if port :| s == NewServer(port) {
      StartInv(0, port);
    } else {
      var ip, port :| s == NewClient(ip, port);
      StartInv(ip, port);
    }
  }

  /** Over any interleaving of writes, polls and received segments, no byte is lost, repeated or
      reordered on the way out, and the segments of the connection tile its sequence space. */
  lemma RunSendsTheStream(s: Socket, run: seq<Action>)
    requires NewSocket(s) && LegalRun(Start(s), run)
    ensures var w := Run(Start(s), run);
            && w.before + Payloads(w.conn) + w.sock.tx == w.enqueued
            && Tiles(w.conn, w.first)
            && (w.syn.Some? ==> w.first == Wrap(w.syn.value + 1))
            && w.origin == s && AllTake(w.conn, RouteOf(w))
  {
    NewSocketInv(s);
    RunKeeps(Start(s), run);
    RunOrigin(Start(s), run);
  }

  lemma {:induction false} RunOrigin(w: World, run: seq<Action>)
    requires LegalRun(w, run)
    ensures Run(w, run).origin == w.origin
    decreases |run|
  {
    if run != [] {
      RunOrigin(Step(w, run[0]).0, run[1..]);
    }
  }

  /** After every run: `poll_tx` errs exactly on an established client that was never opened and has
      data to send, and the next segment to establish the connection acknowledges its SYN exactly
      on the other sockets. */
  lemma RunErrsExactly(s: Socket, run: seq<Action>, g: Segment)
    requires NewSocket(s) && LegalRun(Start(s), run)
    ensures var w := Run(Start(s), run);
            && (PollTx(w.sock).Err? <==> !w.hasOpened && !w.sock.keepListening && w.sock.state == Established && w.sock.tx != [])
            && (Establishes(w, g) ==> (AcksSyn(w, g) <==> w.hasOpened || w.sock.keepListening))
  {
    NewSocketInv(s);
    RunKeeps(Start(s), run);
    var w := Run(Start(s), run);
    PollErrsExactly(w);
    if Establishes(w, g) {
      EstablishedBySyn(w, g);
    }
  }

  //
  // Where the socket departs from the standard
  //

  function Control(seqNum: u32, ackNum: u32, ack: bool, syn: bool, fin: bool): Segment {
    Segment(0x0a00_0001, 80, 0x0a00_0002, 50000, seqNum, ackNum, ack, syn, fin, [])
  }

  lemma {:induction false} RunCons(w: World, a: Action, run: seq<Action>)
    requires Enabled(w, a) && LegalRun(Step(w, a).0, run)
    ensures LegalRun(w, [a] + run) && Run(w, [a] + run) == Run(Step(w, a).0, run)
  {
    assert ([a] + run)[1..] == run;
  }

  /** A client whose `open` failed, the machine having no address yet, is established by a segment
      that acknowledges number 0; its data can never be sent. */
  lemma UnopenedIsEstablished() returns (s: Socket, run: seq<Action>)
    ensures NewSocket(s) && LegalRun(Start(s), run)
    ensures var w := Run(Start(s), run);
            && !w.hasOpened && w.syn.None? && w.sock.state == Established
            && w.sock.tx == [42] && PollTx(w.sock).Err?
  {
    s := NewClient(0x0a00_0001, 80);
    var w0 := Start(s);
    var a0, a1, a2 := OpenSocket(None, 50000), Receive(Control(7, 0, true, true, false)), AppWrite([42]);
    var w1 := Step(w0, a0).0;
    var w2 := Step(w1, a1).0;
    RunCons(w2, a2, []);
    RunCons(w1, a1, [a2]);
    RunCons(w0, a0, [a1] + [a2]);
    run := [a0] + ([a1] + [a2]);
  }

  /** A server that has sent its FIN with number 1 is back in `Listen` after an acknowledgement of
      number 1, which does not cover the FIN. */
  lemma FinNeedNotBeAcknowledged() returns (run: seq<Action>, g: Segment)
    ensures LegalRun(Start(NewServer(50000)), run)
    ensures var w := Run(Start(NewServer(50000)), run);
            && w.sock.state == LastAck && w.sock.nextSeq == 1
            && g.ack && g.ackNum == w.sock.nextSeq && HandleRx(w.sock, g).0.state == Listen
  {
    var w0 := Start(NewServer(50000));
    var a0 := Receive(Control(100, 0, false, true, false));
    var a1 := Receive(Control(101, 1, true, false, false));
    var a2 := Receive(Control(101, 1, true, false, true));
    g := Control(102, 1, true, false, false);
    var w1 := Step(w0, a0).0;
    var w2 := Step(w1, a1).0;
    RunCons(w2, a2, []);
    RunCons(w1, a1, [a2]);
    RunCons(w0, a0, [a1] + [a2]);
    run := [a0] + ([a1] + [a2]);
  }
}
