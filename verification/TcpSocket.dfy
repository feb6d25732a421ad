/** `TcpSocket` of os/src/net/tcp.rs, updated in place. */
module TcpSocket {
  import opened Common
  import T = Tcp
  import P = Packet

  class Socket {
    var selfIp: Option<u32>
    var selfPort: Option<u16>
    var anotherIp: Option<u32>
    var anotherPort: Option<u16>
    var myNextSeq: u32
    var lastSeqToAck: u32
    var state: T.TcpSocketState
    var rxData: seq<byte>
    var txData: seq<byte>
    const keepListening: bool

    ghost function View(): T.Socket
      reads this
    {
      T.Socket(selfIp, selfPort, anotherIp, anotherPort, myNextSeq, lastSeqToAck, state, rxData, txData, keepListening)
    }

    constructor Server(port: u16)
      ensures View() == T.NewServer(port)
    {
      selfIp, selfPort, anotherIp, anotherPort := None, Some(port), None, None;
      myNextSeq, lastSeqToAck, state := 0, 0, T.Listen;
      rxData, txData, keepListening := [], [], true;
    }

    constructor Client(ip: u32, port: u16)
      ensures View() == T.NewClient(ip, port)
    {
      selfIp, selfPort, anotherIp, anotherPort := None, None, Some(ip), Some(port);
      myNextSeq, lastSeqToAck, state := 0, 0, T.SynSent;
      rxData, txData, keepListening := [], [], false;
    }

    /** Takes a packet off the wire; a packet that does not parse changes nothing. */
    method HandleRx(bytes: seq<byte>) returns (r: Result<Option<T.Outgoing>>)
      modifies this
      ensures r.Err? <==> P.Parse(bytes).Err?
      ensures r.Err? ==> View() == old(View())
      ensures r.Ok? ==> (View(), r.value) == T.HandleRx(old(View()), P.Parse(bytes).value)
    {
      var parsed := P.Parse(bytes);
      if parsed.Err? {
        return Err;
      }
      var out := HandleSegment(parsed.value);
      r := Ok(out);
    }

    /** The state machine of `handle_rx`, on a parsed segment. */
    method HandleSegment(g: T.Segment) returns (out: Option<T.Outgoing>)
      modifies this
      ensures (View(), out) == T.HandleRx(old(View()), g)
    {
      var sq: int, seqToAck: int := myNextSeq, g.seqNum;
      var fin, syn := false, false;
      match state {
        case Listen =>
          if !g.syn {
            return None;
          }
          seqToAck := T.Wrap(seqToAck + 1);
          syn := true;
          myNextSeq := T.Wrap(sq + 1);
          state := T.SynReceived;
        case SynSent =>
          if !g.syn || !g.ack {
            return None;
          }
          if g.ackNum != myNextSeq {
            return None;
          }
          seqToAck := T.Wrap(seqToAck + 1);
          state := T.Established;
        case SynReceived =>
          if !g.ack || g.ackNum != myNextSeq {
            return None;
          }
          state := T.Established;
          anotherIp, anotherPort := Some(g.srcIp), Some(g.srcPort);
          selfIp, selfPort := Some(g.dstIp), Some(g.dstPort);
          return None;
        case Established =>
          if g.fin {
            seqToAck := T.Wrap(seqToAck + 1);
            fin := true;
            state := T.LastAck;
          }
          seqToAck := T.Wrap(seqToAck + |g.data|);
          rxData := rxData + g.data;
        case LastAck =>
          if g.ack {
            state := if keepListening then T.Listen else T.Closed;
            return None;
          }
        case Closed =>
          return None;
      }
      lastSeqToAck := seqToAck;
      out := Some(T.Outgoing(g.srcIp, g.srcPort, g.dstIp, g.dstPort, sq, Some(seqToAck), syn, fin, []));
    }

    /** Sends everything the application has written. */
    method PollTx() returns (r: Result<Option<T.Outgoing>>)
      modifies this
      ensures r.Err? <==> T.PollTx(old(View())).Err?
      ensures r.Err? ==> View() == old(View())
      ensures r.Ok? ==> T.PollTx(old(View())) == Ok((View(), r.value))
    {
      if txData == [] || state != T.Established {
        return Ok(None);
      }
      if anotherIp.None? || anotherPort.None? || selfIp.None? || selfPort.None? {
        return Err;
      }
      var sq := myNextSeq;
      var data := txData;
      txData := [];
      myNextSeq := T.Wrap(sq + |data|);
      r := Ok(Some(T.Outgoing(anotherIp.value, anotherPort.value, selfIp.value, selfPort.value, sq, Some(lastSeqToAck), false, false, data)));
    }

    method Open() returns (r: Result<T.Outgoing>)
      modifies this
      ensures r.Err? <==> T.Open(old(View())).Err?
      ensures r.Err? ==> View() == old(View())
      ensures r.Ok? ==> T.Open(old(View())) == Ok((View(), r.value))
    {
      if anotherIp.None? || anotherPort.None? || selfIp.None? || selfPort.None? {
        return Err;
      }
      myNextSeq := T.Wrap(T.ISS + 1);
      r := Ok(T.Outgoing(anotherIp.value, anotherPort.value, selfIp.value, selfPort.value, T.ISS, None, true, false, []));
    }
  }
}
