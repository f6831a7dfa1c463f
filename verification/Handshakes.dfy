/** TLS handshake records, which are to be preserved, on whole printed packets. */
module Handshakes {
  import opened Bytes
  import opened Parse
  import opened Policy
  import opened Packet
  import opened Printer = PacketPrinter

  /** Not an IPv4 fragment: neither an offset nor more fragments to come. */
  predicate Whole(net: Network)
    requires net.Valid()
  {
    net.V4? ==> U16At(net.identToTtl, 2) % 0x4000 == 0
  }

  lemma PrintedFlags(pkt: Printer.Packet)
    requires pkt.Valid() && pkt.net.V4?
    ensures pkt.IpStart() + 8 <= |pkt.Print()|
    ensures U16At(pkt.Print(), pkt.IpStart() + 6) == U16At(pkt.net.identToTtl, 2)
  {
    hide Transport.Print, PrintTags, PrintNetwork, Printer.Packet.Print;
    Pieces(pkt);
    var f, ip, b := pkt.Print(), pkt.IpStart(), PrintNetwork(pkt.net, pkt.IpLength(), pkt.transport.ProtoByte());
    FlagBytes(pkt.net, pkt.IpLength(), pkt.transport.ProtoByte());
    AtByte(f, ip, b, 6);
    AtByte(f, ip, b, 7);
  }

  lemma FlagBytes(net: Network, length: u16, proto: byte)
    requires net.Valid() && net.V4?
    ensures
      var b := PrintNetwork(net, length, proto);
      |b| == 20 + |net.options| && b[6] == net.identToTtl[2] && b[7] == net.identToTtl[3]
  {
  }

  /**
   A handshake record in a printed TCP packet, behind any tags, options or chain, is cut exactly when one of
   the ports is 22.
   */
  lemma PrintedHandshake(pkt: Printer.Packet)
    requires pkt.Valid() && pkt.transport.TcpHeader? && Whole(pkt.net)
    requires 24 < |pkt.payload| && pkt.payload[0] in TLS_HANDSHAKE_BYTES
    ensures Process(pkt.Print()).Truncated? <==> pkt.transport.sport == 22 || pkt.transport.dport == 22
  {
    hide Printer.Packet.Print, Transport.Print, PrintChain, Payload, Layout, DecideTcp, U16At;
    ParsingInvertsPrinting(pkt);
    var p := pkt.Expected();
    if pkt.net.V4? {
      PrintedFlags(pkt);
    }
    HandshakeKeptExactly(pkt.transport.sport, pkt.transport.dport, Payload(p));
    DecisionAndEffectCoincide(pkt.Print());
  }

  /** A handshake record of 30 bytes between ports 443 and 22 that loses its last six. */
  lemma HandshakeWitness() returns (frame: seq<byte>)
    ensures |frame| == 84 && frame[34..38] == [0x01, 0xbb, 0, 22] && frame[54] == 0x16
    ensures Process(frame).Truncated? && |Process(frame).bytes| == 78
  {
    hide Printer.Packet.Print, Printer.Packet.Expected, Layout, Process, WitnessPacket, Printer.Packet.Valid, Whole;
    var pkt := WitnessPacket();
    WitnessValid();
    frame := pkt.Print();
    WitnessBytes();
    WitnessPlaced();
    PrintedHandshake(pkt);
    ParsingInvertsPrinting(pkt);
    DecisionAndEffectCoincide(frame);
  }

  function WitnessPacket(): Printer.Packet {
    Printer.Packet(Zeros(12), [], V4(0, Zeros(5), Zeros(10), []),
                   TcpHeader(443, 22, Zeros(8), 0, Zeros(7), []),
                   [0x16] + Zeros(29), [])
  }

  lemma WitnessValid()
    ensures
      var pkt := WitnessPacket();
      && pkt.Valid() && pkt.transport.TcpHeader? && Whole(pkt.net)
      && pkt.transport.sport == 443 && pkt.transport.dport == 22
      && 24 < |pkt.payload| && pkt.payload[0] in TLS_HANDSHAKE_BYTES
  {
    hide Transport.Print, PrintChain, Zeros;
    var pkt := WitnessPacket();
    assert pkt.payload[0] == TLS_HANDSHAKE_BYTES[2];
    assert U16At(pkt.net.identToTtl, 2) == 0;
    assert pkt.IpLength() == 70;
  }

  lemma WitnessPlaced()
    requires WitnessPacket().Valid()
    ensures WitnessPacket().Expected().l4.Some? && WitnessPacket().Expected().l4.value.payloadStart == 54
  {
    hide Printer.Packet.Print;
  }

  lemma WitnessBytes()
    requires WitnessPacket().Valid()
    ensures
      var f := WitnessPacket().Print();
      |f| == 84 && f[34..38] == [0x01, 0xbb, 0, 22] && f[54] == 0x16
  {
    var pkt := WitnessPacket();
    PrintedTransport(pkt.transport);
    hide Printer.Packet.Print, Transport.Print, PrintNetwork, PrintTags;
    Pieces(pkt);
    var f, t := pkt.Print(), pkt.transport.Print();
    AtByte(f, 34, t, 0);
    AtByte(f, 34, t, 1);
    AtByte(f, 34, t, 2);
    AtByte(f, 34, t, 3);
    AtByte(f, 54, pkt.payload + pkt.trailer, 0);
  }
}
