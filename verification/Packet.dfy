/** TCP segments as bytes: `gen_tcp_packet` and the parse at the head of `handle_rx` in
    os/src/net/tcp.rs, with the header fields of os/src/net/ip.rs (section 3.1 of RFC 9293). */
module Packet {
  import BitMath
  import opened Common
  import opened Checksum
  import opened Tcp

  const IP_END: nat := 34   // Ethernet and IPv4 headers
  const TCP_END: nat := 54  // with the TCP header
  const MAX_PAYLOAD: nat := 65495

  function Be16(n: u16): (b: seq<byte>)
    ensures |b| == 2
  {
    [n / 256, n % 256]
  }

  function Be32(n: u32): (b: seq<byte>)
    ensures |b| == 4
  {
    [n / 0x100_0000, n / 0x1_0000 % 256, n / 256 % 256, n % 256]
  }

  function Field16(b: seq<byte>, at: nat): u16
    requires at + 2 <= |b|
  {
    Word(b[at], b[at + 1])
  }

  function Field32(b: seq<byte>, at: nat): u32
    requires at + 4 <= |b|
  {
    0x1_0000 * Word(b[at], b[at + 1]) + Word(b[at + 2], b[at + 3])
  }

  function EthernetHeader(): (h: seq<byte>)
    ensures |h| == 14
  {
    [0, 0, 0, 0, 0, 0, 0, 0, 0, 0, 0, 0, 8, 0]
  }

  /** `IpV4Packet::new` and `set_data_length`, which keeps 16 bits of the length. */
  function IpHeader(o: Outgoing): (h: seq<byte>)
    ensures |h| == 20
  {
    [0x45, 0] + Be16((40 + |o.data|) % 0x1_0000) + [0, 0, 0, 0, 0xff, 6, 0, 0] + Be32(o.fromIp) + Be32(o.toIp)
  }

  /** The TCP header with a zero checksum. */
  function TcpHeader(o: Outgoing): (h: seq<byte>)
    ensures |h| == 20
  {
    Be16(o.fromPort) + Be16(o.toPort) + Be32(o.seqNum) + Be32(if o.seqToAck.Some? then o.seqToAck.value else 0)
    + [0x50, 16 * Bit(o.seqToAck.Some?) + 2 * Bit(o.syn) + Bit(o.fin)] + [0xff, 0xff] + [0, 0] + [0, 0]
  }

  /** Sum of the pseudo header of a segment of `len` bytes. */
  function PseudoSum(src: seq<byte>, dst: seq<byte>, len: nat): nat {
    WordSum(src) + WordSum(dst) + WordSum([0, 6]) + WordSum(Be16(len % 0x1_0000))
  }

  function SegmentSum(o: Outgoing): nat {
    WordSum(TcpHeader(o) + o.data) + PseudoSum(Be32(o.fromIp), Be32(o.toIp), 20 + |o.data|)
  }

  /** The TCP header with its checksum in place. */
  function SummedHeader(o: Outgoing): (h: seq<byte>)
    ensures |h| == 20
  {
    var csum := Complement(SegmentSum(o));
    TcpHeader(o)[16 := csum / 256][17 := csum % 256]
  }

  function Padding(len: nat): seq<byte> { if len % 2 == 0 then [] else [0] }

  /** `gen_tcp_packet`: headers, payload, and a zero byte if the length is odd. */
  function Generate(o: Outgoing): seq<byte> {
    EthernetHeader() + IpHeader(o) + SummedHeader(o) + o.data + Padding(|o.data|)
  }

  /** The parse in `handle_rx`; an index out of range, where the code panics, is `Err` too. */
  function Parse(b: seq<byte>): Result<Segment> {
    if |b| < TCP_END then Err else
      var headerLen := 4 * (b[46] / 16);
      var dataLen := Field16(b, 16) - 20 - headerLen;
      var start := IP_END + headerLen;
      if dataLen < 0 || start + dataLen > |b| then Err else
        Ok(Segment(
             Field32(b, 26), Field16(b, 34), Field32(b, 30), Field16(b, 36),
             Field32(b, 38), Field32(b, 42),
             b[47] / 16 % 2 == 1, b[47] / 2 % 2 == 1, b[47] % 2 == 1,
             b[start..start + dataLen]))
  }

  /** What the receiver should see of a segment. */
  function SegmentOf(o: Outgoing): Segment {
    Segment(o.fromIp, o.fromPort, o.toIp, o.toPort, o.seqNum,
            if o.seqToAck.Some? then o.seqToAck.value else 0, o.seqToAck.Some?, o.syn, o.fin, o.data)
  }

  //
  // Round trip
  //

  lemma Be16Decodes(pre: seq<byte>, n: u16, post: seq<byte>)
    ensures Field16(pre + Be16(n) + post, |pre|) == n
  {
    var b := pre + Be16(n) + post;
    assert b[|pre|] == Be16(n)[0] && b[|pre| + 1] == Be16(n)[1];
  }

  lemma Be32Value(n: u32)
    ensures 0x1_0000 * (256 * (n / 0x100_0000) + n / 0x1_0000 % 256) + (256 * (n / 256 % 256) + n % 256) == n
  {
    assert n / 256 / 256 == n / 0x1_0000 && n / 0x1_0000 / 256 == n / 0x100_0000;
  }

  lemma Be32Decodes(pre: seq<byte>, n: u32, post: seq<byte>)
    ensures Field32(pre + Be32(n) + post, |pre|) == n
  {
    var b, f := pre + Be32(n) + post, Be32(n);
    Be32Value(n);
    assert b[|pre|] == f[0] && b[|pre| + 1] == f[1] && b[|pre| + 2] == f[2] && b[|pre| + 3] == f[3];
  }

  lemma IpFields(o: Outgoing)
    ensures Field16(IpHeader(o), 2) == (40 + |o.data|) % 0x1_0000
    ensures Field32(IpHeader(o), 12) == o.fromIp && Field32(IpHeader(o), 16) == o.toIp
  {
    var h := IpHeader(o);
    var len, mid := Be16((40 + |o.data|) % 0x1_0000), [0, 0, 0, 0, 0xff, 6, 0, 0];
    assert h == [0x45, 0] + len + (mid + Be32(o.fromIp) + Be32(o.toIp));
    Be16Decodes([0x45, 0], (40 + |o.data|) % 0x1_0000, mid + Be32(o.fromIp) + Be32(o.toIp));
    Be32Decodes([0x45, 0] + len + mid, o.fromIp, Be32(o.toIp));
    assert h == [0x45, 0] + len + mid + Be32(o.fromIp) + Be32(o.toIp) + [];
    Be32Decodes([0x45, 0] + len + mid + Be32(o.fromIp), o.toIp, []);
  }

  lemma TcpFields(o: Outgoing)
    ensures var h := TcpHeader(o);
            && Field16(h, 0) == o.fromPort && Field16(h, 2) == o.toPort && Field32(h, 4) == o.seqNum
            && Field32(h, 8) == (if o.seqToAck.Some? then o.seqToAck.value else 0)
            && h[12] == 0x50 && h[13] == 16 * Bit(o.seqToAck.Some?) + 2 * Bit(o.syn) + Bit(o.fin)
            && h[16] == 0 && h[17] == 0
  {
    var ack: u32 := if o.seqToAck.Some? then o.seqToAck.value else 0;
    var flags: seq<byte> := [0x50, 16 * Bit(o.seqToAck.Some?) + 2 * Bit(o.syn) + Bit(o.fin)];
    var tail: seq<byte> := flags + [0xff, 0xff] + [0, 0] + [0, 0];
    assert TcpHeader(o) == Be16(o.fromPort) + Be16(o.toPort) + Be32(o.seqNum) + Be32(ack) + tail;
    PortFields(o.fromPort, o.toPort, Be32(o.seqNum), Be32(ack), tail);
    NumberFields(Be16(o.fromPort) + Be16(o.toPort), o.seqNum, ack, tail);
    TailBytes(Be16(o.fromPort) + Be16(o.toPort) + Be32(o.seqNum) + Be32(ack), tail);
  }

  lemma PortFields(from: u16, to: u16, sq: seq<byte>, ack: seq<byte>, tail: seq<byte>)
    ensures var h := Be16(from) + Be16(to) + sq + ack + tail; Field16(h, 0) == from && Field16(h, 2) == to
  {
    var h := Be16(from) + Be16(to) + sq + ack + tail;
    assert h == [] + Be16(from) + (Be16(to) + sq + ack + tail);
    Be16Decodes([], from, Be16(to) + sq + ack + tail);
    assert h == Be16(from) + Be16(to) + (sq + ack + tail);
    Be16Decodes(Be16(from), to, sq + ack + tail);
  }

  lemma NumberFields(ports: seq<byte>, sq: u32, ack: u32, tail: seq<byte>)
    requires |ports| == 4
    ensures var h := ports + Be32(sq) + Be32(ack) + tail; Field32(h, 4) == sq && Field32(h, 8) == ack
  {
    var h := ports + Be32(sq) + Be32(ack) + tail;
    assert h == ports + Be32(sq) + (Be32(ack) + tail);
    Be32Decodes(ports, sq, Be32(ack) + tail);
    Be32Decodes(ports + Be32(sq), ack, tail);
  }

  lemma TailBytes(pre: seq<byte>, tail: seq<byte>)
    requires |pre| == 12 && |tail| == 8
    ensures var h := pre + tail; h[12] == tail[0] && h[13] == tail[1] && h[16] == tail[4] && h[17] == tail[5]
  {
  }

  /** Fields keep their values when a header is placed in a packet. */
  lemma FieldsShift(pre: seq<byte>, h: seq<byte>, post: seq<byte>, at: nat)
    ensures at + 2 <= |h| ==> Field16(pre + h + post, |pre| + at) == Field16(h, at)
    ensures at + 4 <= |h| ==> Field32(pre + h + post, |pre| + at) == Field32(h, at)
    ensures at < |h| ==> (pre + h + post)[|pre| + at] == h[at]
  {
  }

  /** The same for the fields of the TCP header, which the checksum leaves alone. */
  lemma SummedFields(o: Outgoing, at: nat)
    ensures at + 2 <= 16 ==> Field16(SummedHeader(o), at) == Field16(TcpHeader(o), at)
    ensures at + 4 <= 16 ==> Field32(SummedHeader(o), at) == Field32(TcpHeader(o), at)
    ensures at < 16 ==> SummedHeader(o)[at] == TcpHeader(o)[at]
  {
  }

  /** The header fields of `g`, where the parse looks for them. */
  ghost predicate Carries(b: seq<byte>, g: Segment, len: nat) {
    && |b| >= TCP_END
    && Field16(b, 16) == len
    && Field32(b, 26) == g.srcIp && Field32(b, 30) == g.dstIp
    && Field16(b, 34) == g.srcPort && Field16(b, 36) == g.dstPort
    && Field32(b, 38) == g.seqNum && Field32(b, 42) == g.ackNum
    && b[46] == 0x50 && b[47] == 16 * Bit(g.ack) + 2 * Bit(g.syn) + Bit(g.fin)
  }

  lemma GeneratedFields(o: Outgoing)
    ensures Carries(Generate(o), SegmentOf(o), (40 + |o.data|) % 0x1_0000)
  {
    GeneratedIpFields(o);
    GeneratedTcpFields(o);
  }

  lemma GeneratedIpFields(o: Outgoing)
    ensures var b := Generate(o);
            && |b| >= TCP_END && Field16(b, 16) == (40 + |o.data|) % 0x1_0000
            && Field32(b, 26) == o.fromIp && Field32(b, 30) == o.toIp
  {
    IpFields(o);
    Regrouped(EthernetHeader(), IpHeader(o), SummedHeader(o), o.data, Padding(|o.data|));
    FieldsInPacket(EthernetHeader(), IpHeader(o), SummedHeader(o) + (o.data + Padding(|o.data|)));
  }

  lemma Regrouped(eth: seq<byte>, ip: seq<byte>, tcp: seq<byte>, data: seq<byte>, pad: seq<byte>)
    ensures eth + ip + tcp + data + pad == eth + ip + (tcp + (data + pad))
  {
  }

  lemma FieldsInPacket(eth: seq<byte>, ip: seq<byte>, rest: seq<byte>)
    requires |eth| == 14 && |ip| == 20
    ensures var b := eth + ip + rest;
            Field16(b, 16) == Field16(ip, 2) && Field32(b, 26) == Field32(ip, 12) && Field32(b, 30) == Field32(ip, 16)
  {
    FieldsShift(eth, ip, rest, 2);
    FieldsShift(eth, ip, rest, 12);
    FieldsShift(eth, ip, rest, 16);
  }

  lemma GeneratedTcpFields(o: Outgoing)
    ensures var b, g := Generate(o), SegmentOf(o);
            && |b| >= TCP_END + |o.data|
            && Field16(b, 34) == g.srcPort && Field16(b, 36) == g.dstPort
            && Field32(b, 38) == g.seqNum && Field32(b, 42) == g.ackNum
            && b[46] == 0x50 && b[47] == 16 * Bit(g.ack) + 2 * Bit(g.syn) + Bit(g.fin)
  {
    var b := Generate(o);
    var pre, tcp, rest := EthernetHeader() + IpHeader(o), SummedHeader(o), o.data + Padding(|o.data|);
    TcpFields(o);
    assert b == pre + tcp + rest;
    FieldsShift(pre, tcp, rest, 0);
    FieldsShift(pre, tcp, rest, 2);
    FieldsShift(pre, tcp, rest, 4);
    FieldsShift(pre, tcp, rest, 8);
    FieldsShift(pre, tcp, rest, 12);
    FieldsShift(pre, tcp, rest, 13);
    SummedFields(o, 0);
    SummedFields(o, 2);
    SummedFields(o, 4);
    SummedFields(o, 8);
    SummedFields(o, 12);
    SummedFields(o, 13);
  }

  lemma FlagBits(ack: bool, syn: bool, fin: bool)
    ensures var f := 16 * Bit(ack) + 2 * Bit(syn) + Bit(fin);
            (f / 16 % 2 == 1 <==> ack) && (f / 2 % 2 == 1 <==> syn) && (f % 2 == 1 <==> fin)
  {
  }

  /** The bytes after the headers are the payload. */
  lemma GeneratedPayload(o: Outgoing)
    ensures |Generate(o)| >= TCP_END + |o.data| && Generate(o)[TCP_END..TCP_END + |o.data|] == o.data
  {
    var pre := EthernetHeader() + IpHeader(o) + SummedHeader(o);
    assert Generate(o) == pre + o.data + Padding(|o.data|);
  }

  /** The parse by the fields it reads. */
  lemma ParseByFields(b: seq<byte>, g: Segment, len: nat)
    requires Carries(b, g, len)
    ensures Parse(b) == if len < 40 || TCP_END + len - 40 > |b| then Err else Ok(g.(data := b[TCP_END..TCP_END + len - 40]))
  {
    FlagBits(g.ack, g.syn, g.fin);
    assert b[46] / 16 == 5;
  }

  lemma ParseRecovers(b: seq<byte>, g: Segment)
    requires Carries(b, g, (40 + |g.data|) % 0x1_0000)
    requires |b| >= TCP_END + |g.data| && b[TCP_END..TCP_END + |g.data|] == g.data
    ensures Parse(b) == Ok(g) <==> |g.data| <= MAX_PAYLOAD
  {
    var len := (40 + |g.data|) % 0x1_0000;
    ParseByFields(b, g, len);
    if |g.data| <= MAX_PAYLOAD {
      assert len == 40 + |g.data|;
    } else {
      assert len - 40 < |g.data|;
    }
  }

  /** A receiver recovers ports, numbers, flags and payload exactly if and only if the payload fits
      in an IPv4 packet: a longer one wraps the 16-bit length. */
  lemma ParseInvertsGenerate(o: Outgoing)
    ensures Parse(Generate(o)) == Ok(SegmentOf(o)) <==> |o.data| <= MAX_PAYLOAD
  {
    GeneratedFields(o);
    GeneratedPayload(o);
    ParseRecovers(Generate(o), SegmentOf(o));
  }

  //
  // Checksum
  //

  /** What a receiver adds up: the segment and its pseudo header, read from the packet. */
  function ReceivedSum(b: seq<byte>, len: nat): nat
    requires IP_END + len <= |b|
  {
    WordSum(b[34..34 + len]) + WordSum(b[26..34] + [0, b[23]] + [len / 256 % 256, len % 256])
  }

  lemma SegmentBytes(o: Outgoing)
    ensures IP_END + 20 + |o.data| <= |Generate(o)|
    ensures Generate(o)[IP_END..IP_END + 20 + |o.data|] == SummedHeader(o) + o.data
  {
    var pre := EthernetHeader() + IpHeader(o);
    assert Generate(o) == pre + (SummedHeader(o) + o.data) + Padding(|o.data|);
  }

  /** The checksum adds itself to the sum it was computed from. */
  lemma SummedHeaderSum(o: Outgoing)
    ensures WordSum(SummedHeader(o) + o.data) == WordSum(TcpHeader(o) + o.data) + Complement(SegmentSum(o))
  {
    var csum := Complement(SegmentSum(o));
    TcpFields(o);
    ReplaceWord(TcpHeader(o), 16, csum / 256, csum % 256);
    FeedConcat(SummedHeader(o), o.data);
    FeedConcat(TcpHeader(o), o.data);
  }

  /** Segment and pseudo header, with the checksum in place, fold to all ones; for every payload,
      odd lengths included. */
  lemma ChecksumVerifies(o: Outgoing)
    ensures IP_END + 20 + |o.data| <= |Generate(o)|
    ensures Fold(ReceivedSum(Generate(o), 20 + |o.data|)) == 0xffff
  {
    SegmentBytes(o);
    SummedHeaderSum(o);
    PseudoInPacket(o);
    ComplementVerifies(SegmentSum(o));
  }

  lemma PseudoInPacket(o: Outgoing)
    ensures |Generate(o)| >= 34
    ensures var b, len := Generate(o), 20 + |o.data|;
            WordSum(b[26..34] + [0, b[23]] + [len / 256 % 256, len % 256]) == PseudoSum(Be32(o.fromIp), Be32(o.toIp), len)
  {
    AddressBytes(o);
    var b := Generate(o);
    assert b[26..34] == b[26..30] + b[30..34];
    PseudoHeader(Be32(o.fromIp), Be32(o.toIp), 20 + |o.data|);
  }

  /** Fed piece by piece, the pseudo header of section 3.1 of RFC 9293: both addresses, a zero byte, the
      protocol number and the length of the segment. */
  lemma PseudoHeader(src: seq<byte>, dst: seq<byte>, len: nat)
    requires |src| == 4 && |dst| == 4
    ensures PseudoSum(src, dst, len) == WordSum(src + dst + [0, 6] + [len / 256 % 256, len % 256])
  {
    LengthBytes(len);
    FeedConcat(src + dst + [0, 6], [len / 256 % 256, len % 256]);
    FeedConcat(src + dst, [0, 6]);
    FeedConcat(src, dst);
  }

  lemma LengthBytes(len: nat)
    ensures Be16(len % 0x1_0000) == [len / 256 % 256, len % 256]
  {
    var q, n := len / 0x1_0000, len % 0x1_0000;
    var a, c := n / 256, n % 256;
    assert len == (q * 256 + a) * 256 + c;
    BitMath.DivModUnique(len, 256, q * 256 + a, c);
    BitMath.DivModUnique(q * 256 + a, 256, q, a);
  }

  lemma AddressBytes(o: Outgoing)
    ensures |Generate(o)| >= 34
    ensures Generate(o)[26..30] == Be32(o.fromIp) && Generate(o)[30..34] == Be32(o.toIp) && Generate(o)[23] == 6
  {
    var ip := IpHeader(o);
    var rest := SummedHeader(o) + o.data + Padding(|o.data|);
    assert ip[12..16] == Be32(o.fromIp) && ip[16..20] == Be32(o.toIp) && ip[9] == 6;
    assert Generate(o) == EthernetHeader() + ip + rest;
    assert Generate(o)[26..30] == ip[12..16] && Generate(o)[30..34] == ip[16..20];
  }

  /** The packet on the wire, byte by byte where the headers have constants: an Ethernet frame of type
      0x0800 with addresses still to be filled in, version 4 and five words of IPv4 header, no
      fragmentation, a time to live of 255, protocol 6; five words of TCP header, a full window and
      no urgent data. */
  lemma WireFormat(o: Outgoing)
    ensures var b := Generate(o);
            && |b| == 54 + |o.data| + |o.data| % 2
            && b[..12] == [0, 0, 0, 0, 0, 0, 0, 0, 0, 0, 0, 0] && b[12] == 8 && b[13] == 0
            && b[14] == 0x45 && b[15] == 0 && b[18..22] == [0, 0, 0, 0] && b[22] == 255 && b[23] == 6
            && b[46] == 0x50 && b[48] == 255 && b[49] == 255 && b[52] == 0 && b[53] == 0
    ensures Carries(Generate(o), SegmentOf(o), (40 + |o.data|) % 0x1_0000)
    ensures Generate(o)[54..54 + |o.data|] == o.data
  {
    GeneratedFields(o);
    GeneratedPayload(o);
    Regrouped(EthernetHeader(), IpHeader(o), SummedHeader(o), o.data, Padding(|o.data|));
    ConstantBytes(EthernetHeader(), IpHeader(o), SummedHeader(o), o.data + Padding(|o.data|));
    IpConstants(o);
    TcpConstants(o);
  }

  lemma ConstantBytes(eth: seq<byte>, ip: seq<byte>, tcp: seq<byte>, rest: seq<byte>)
    requires |eth| == 14 && |ip| == 20 && |tcp| == 20
    ensures var b := eth + ip + (tcp + rest);
            && b[..12] == eth[..12] && b[12] == eth[12] && b[13] == eth[13]
            && b[14] == ip[0] && b[15] == ip[1] && b[18..22] == ip[4..8] && b[22] == ip[8] && b[23] == ip[9]
            && b[46] == tcp[12] && b[48] == tcp[14] && b[49] == tcp[15] && b[52] == tcp[18] && b[53] == tcp[19]
  {
  }

  lemma IpConstants(o: Outgoing)
    ensures var ip := IpHeader(o); ip[0] == 0x45 && ip[1] == 0 && ip[4..8] == [0, 0, 0, 0] && ip[8] == 255 && ip[9] == 6
  {
  }

  lemma TcpConstants(o: Outgoing)
    ensures var h := SummedHeader(o); h[12] == 0x50 && h[14] == 255 && h[15] == 255 && h[18] == 0 && h[19] == 0
  {
    SummedFields(o, 12);
    TcpFields(o);
    var h := TcpHeader(o);
    assert h[14] == 255 && h[15] == 255 && h[18] == 0 && h[19] == 0;
  }

  /** Headers with a zero checksum and the payload, in zeroed memory. */
  method FillBuffer(o: Outgoing) returns (b: array<byte>)
    ensures fresh(b) && b[..] == EthernetHeader() + IpHeader(o) + TcpHeader(o) + o.data + Padding(|o.data|)
  {
    var size := TCP_END + |o.data|;
    b := new byte[size + size % 2](_ => 0);
    ghost var zeros := b[..];
    var headers := EthernetHeader() + IpHeader(o) + TcpHeader(o);
    CopyAt(b, 0, headers);
    CopyAt(b, TCP_END, o.data);
    Filled(zeros, headers, o.data);
  }

  /** `copy_from_slice` */
  method CopyAt(b: array<byte>, at: nat, data: seq<byte>)
    requires at + |data| <= b.Length
    modifies b
    ensures b[..] == Placed(old(b[..]), at, data)
  {
    forall i | 0 <= i < |data| {
      b[at + i] := data[i];
    }
    assert b[..] == Placed(old(b[..]), at, data);
  }

  function Placed(b: seq<byte>, at: nat, data: seq<byte>): seq<byte>
    requires at + |data| <= |b|
  {
    b[..at] + data + b[at + |data|..]
  }

  lemma Filled(zeros: seq<byte>, headers: seq<byte>, data: seq<byte>)
    requires |headers| == TCP_END && |zeros| == TCP_END + |data| + (TCP_END + |data|) % 2
    requires forall i :: 0 <= i < |zeros| ==> zeros[i] == 0
    ensures Placed(Placed(zeros, 0, headers), TCP_END, data) == headers + data + Padding(|data|)
  {
    var filled := Placed(Placed(zeros, 0, headers), TCP_END, data);
    assert filled[..TCP_END] == headers && filled[TCP_END..TCP_END + |data|] == data;
    assert filled[TCP_END + |data|..] == Padding(|data|);
  }

  /** Feeds the segment and then its pseudo header. */
  method SumSegment(o: Outgoing, segment: seq<byte>) returns (hi: byte, lo: byte)
    requires segment == TcpHeader(o) + o.data && 0xffff * (WordCount(segment) + 6) < U32
    ensures Word(hi, lo) == Complement(SegmentSum(o))
  {
    var csum := new InternetChecksumGenerator();
    csum.Feed(segment);
    csum.Feed(Be32(o.fromIp));
    csum.Feed(Be32(o.toIp));
    csum.Feed([0, 6]);
    csum.Feed(Be16((20 + |o.data|) % 0x1_0000));
    hi, lo := csum.Finish();
  }

  /** Builds the packet in a buffer as the source does: headers and payload, then the sums of segment
      and pseudo header, then the checksum into its place. */
  method GenTcpPacket(o: Outgoing) returns (b: array<byte>)
    requires 0xffff * (WordCount(o.data) + 16) < U32
    ensures fresh(b) && b[..] == Generate(o)
  {
    b := FillBuffer(o);
    var size := TCP_END + |o.data|;
    ghost var pre, rest := EthernetHeader() + IpHeader(o), o.data + Padding(|o.data|);
    ghost var filled := b[..];
    assert filled == pre + TcpHeader(o) + rest;
    UnsummedSegment(pre, o);
    var hi, lo := SumSegment(o, b[IP_END..size]);
    b[50], b[51] := hi, lo;
    assert b[..] == filled[50 := hi][51 := lo];
    SetChecksum(pre, TcpHeader(o), rest, hi, lo);
    WordBytes(hi, lo);
    assert Generate(o) == pre + SummedHeader(o) + rest;
  }

  lemma UnsummedSegment(pre: seq<byte>, o: Outgoing)
    requires |pre| == IP_END
    ensures var b := pre + TcpHeader(o) + (o.data + Padding(|o.data|)); b[IP_END..TCP_END + |o.data|] == TcpHeader(o) + o.data
  {
  }

  lemma SetChecksum(pre: seq<byte>, h: seq<byte>, rest: seq<byte>, hi: byte, lo: byte)
    requires |pre| == IP_END && |h| == 20
    ensures (pre + h + rest)[50 := hi][51 := lo] == pre + h[16 := hi][17 := lo] + rest
  {
  }

  lemma WordBytes(hi: byte, lo: byte)
    ensures Word(hi, lo) / 256 == hi && Word(hi, lo) % 256 == lo
  {
  }
}
