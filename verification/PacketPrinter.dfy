/**
 Structured packets, their bytes, and the proof that parsing inverts printing. Every number of a format is
 written out here, apart from the constants of the parser.
 */
module PacketPrinter {
  import opened Bytes
  import opened Parse

  // ---------------------------------------------------------------- structured packets

  /**
   Hop-by-Hop, Routing, Fragment and Destination headers count 8-byte words less one, AH 4-byte words less two.
   `size` is the length byte; `body` is everything behind the two leading bytes.
   */
  datatype Extension = Extension(kind: byte, size: byte, body: seq<byte>) {
    predicate Valid() {
      kind in {0, 43, 44, 51, 60} && |body| == if kind == 51 then 4 * size + 6 else 8 * size + 6
    }
  }

  datatype Network =
    | V4(tos: byte, identToTtl: seq<byte>, sumAndAddresses: seq<byte>, options: seq<byte>)
    | V6(trafficClass: byte, flow: seq<byte>, hopLimit: byte, addresses: seq<byte>, chain: seq<Extension>)
  {
    predicate Valid() {
      match this
      case V4(_, identToTtl, sumAndAddresses, options) =>
        |identToTtl| == 5 && |sumAndAddresses| == 10 && |options| % 4 == 0 && |options| <= 40
      case V6(trafficClass, flow, _, addresses, chain) =>
        trafficClass < 16 && |flow| == 3 && |addresses| == 32 && forall e :: e in chain ==> e.Valid()
    }
  }

  datatype Transport =
    | TcpHeader(sport: u16, dport: u16, seqAndAck: seq<byte>, nibble: byte, flagsToUrgent: seq<byte>,
                tcpOptions: seq<byte>)
    | UdpHeader(sport: u16, dport: u16, lengthAndSum: seq<byte>)
  {
    predicate Valid() {
      match this
      case TcpHeader(_, _, seqAndAck, nibble, flagsToUrgent, tcpOptions) =>
        |seqAndAck| == 8 && nibble < 16 && |flagsToUrgent| == 7 && |tcpOptions| % 4 == 0 && |tcpOptions| <= 40
      case UdpHeader(_, _, lengthAndSum) => |lengthAndSum| == 4
    }

    function Proto(): L4Proto {
      if TcpHeader? then Tcp else Udp
    }

    function ProtoByte(): byte {
      if TcpHeader? then 6 else 17
    }

    function Print(): (b: seq<byte>)
      requires Valid()
      ensures |b| == if TcpHeader? then 20 + |tcpOptions| else 8
    {
      var ports: seq<byte> := [Hi(sport), Lo(sport), Hi(dport), Lo(dport)];
      match this
      case TcpHeader(_, _, seqAndAck, nibble, flagsToUrgent, tcpOptions) =>
        ports + seqAndAck + [(5 + |tcpOptions| / 4) * 16 + nibble] + flagsToUrgent + tcpOptions
      case UdpHeader(_, _, lengthAndSum) =>
        ports + lengthAndSum
    }
  }

  /** Each tag is the pair of bytes behind its 0x8100. `trailer` is Ethernet padding behind the IP payload. */
  datatype Packet = Packet(
    macs: seq<byte>,
    tags: seq<(byte, byte)>,
    net: Network,
    transport: Transport,
    payload: seq<byte>,
    trailer: seq<byte>)
  {
    predicate Valid() {
      |macs| == 12 && net.Valid() && transport.Valid() && IpLength() < 0x1_0000
    }

    /** The value of the IPv4 total length or the IPv6 payload length. */
    function IpLength(): nat
      requires transport.Valid()
    {
      |transport.Print()| + |payload| + if net.V4? then IpHeaderLen() else ChainLen()
    }

    /** Bytes of extension headers between the IPv6 header and the transport header. */
    function ChainLen(): nat {
      if net.V4? then 0 else |PrintChain(net.chain, 0)|
    }

    /** Where the IP length field lies. */
    function LengthAt(): nat {
      IpStart() + if net.V4? then 2 else 4
    }

    function IpHeaderLen(): nat {
      if net.V4? then 20 + |net.options| else 40
    }

    function EtherType(): u16 {
      if net.V4? then 0x0800 else 0x86dd
    }

    function Print(): (b: seq<byte>)
      requires Valid()
    {
      macs + PrintTags(tags) + [Hi(EtherType()), Lo(EtherType())]
        + PrintNetwork(net, IpLength(), transport.ProtoByte()) + transport.Print() + payload + trailer
    }

    function IpStart(): nat {
      14 + 4 * |tags|
    }

    /** Where the transport header lands. */
    function HeaderStart(): nat {
      IpStart() + IpHeaderLen() + ChainLen()
    }

    /** The layout a reader must find. */
    function Expected(): ParsedFrame
      requires Valid()
    {
      ParsedFrame(Print(), IpStart(), IpHeaderLen(), net.V6?, Some(Found(transport, HeaderStart())))
    }
  }

  /** The transport header a parse finds at `at`. */
  function Found(t: Transport, at: nat): L4Info
    requires t.Valid()
  {
    L4Info(t.Proto(), t.sport, t.dport, at, |t.Print()|, at + |t.Print()|)
  }

  function PrintTags(tags: seq<(byte, byte)>): (b: seq<byte>)
    ensures |b| == 4 * |tags|
  {
    if tags == [] then [] else [0x81, 0x00, tags[0].0, tags[0].1] + PrintTags(tags[1..])
  }

  function FirstKind(chain: seq<Extension>, last: byte): byte {
    if chain == [] then last else chain[0].kind
  }

  function PrintChain(chain: seq<Extension>, last: byte): seq<byte> {
    if chain == [] then []
    else [FirstKind(chain[1..], last), chain[0].size] + chain[0].body + PrintChain(chain[1..], last)
  }

  function PrintNetwork(net: Network, length: u16, proto: byte): (b: seq<byte>)
    requires net.Valid()
  {
    match net
    case V4(tos, identToTtl, sumAndAddresses, options) =>
      [0x40 + 5 + |options| / 4, tos, Hi(length), Lo(length)] + identToTtl + [proto] + sumAndAddresses + options
    case V6(trafficClass, flow, hopLimit, addresses, chain) =>
      [0x60 + trafficClass] + flow + [Hi(length), Lo(length), FirstKind(chain, proto), hopLimit] + addresses
        + PrintChain(chain, proto)
  }

  // ---------------------------------------------------------------- finding printed bytes in a frame

  /** `b` lies in `frame` at `i`. */
  predicate At(frame: seq<byte>, i: nat, b: seq<byte>) {
    i + |b| <= |frame| && frame[i..i + |b|] == b
  }

  lemma AtSplit(frame: seq<byte>, i: nat, a: seq<byte>, b: seq<byte>)
    requires At(frame, i, a + b)
    ensures At(frame, i, a) && At(frame, i + |a|, b)
  {
    var s := frame[i..i + |a + b|];
    assert s[..|a|] == a && s[|a|..] == b;
    assert frame[i..i + |a|] == s[..|a|];
    assert frame[i + |a|..i + |a| + |b|] == s[|a|..];
  }

  lemma AtFits(frame: seq<byte>, i: nat, b: seq<byte>)
    ensures At(frame, i, b) ==> i + |b| <= |frame|
    ensures At(frame, 0, frame)
  {
  }

  lemma AtByte(frame: seq<byte>, i: nat, b: seq<byte>, k: nat)
    requires At(frame, i, b) && k < |b|
    ensures frame[i + k] == b[k]
  {
    assert frame[i + k] == frame[i..i + |b|][k];
  }

  lemma PrintedTransport(t: Transport)
    requires t.Valid()
    ensures
      var b := t.Print();
      && b[0] == Hi(t.sport) && b[1] == Lo(t.sport) && b[2] == Hi(t.dport) && b[3] == Lo(t.dport)
      && (t.TcpHeader? ==> b[12] == (5 + |t.tcpOptions| / 4) * 16 + t.nibble)
  {
  }

  lemma TransportFound(frame: seq<byte>, i: nat, t: Transport, len: nat)
    requires t.Valid() && At(frame, i, t.Print()) && |t.Print()| <= len
    ensures (if t.TcpHeader? then ParseTcp(frame, i, len) else ParseUdp(frame, i, len))
         == Some(Found(t, i))
  {
    PrintedTransport(t);
    hide Transport.Print, Hi, Lo, U16At;
    var b := t.Print();
    AtByte(frame, i, b, 0);
    AtByte(frame, i, b, 1);
    AtByte(frame, i, b, 2);
    AtByte(frame, i, b, 3);
    U16Stored(frame, i, t.sport);
    U16Stored(frame, i + 2, t.dport);
    if t.TcpHeader? {
      AtByte(frame, i, b, 12);
    }
  }

  lemma {:induction false} TagsFound(frame: seq<byte>, off: nat, tags: seq<(byte, byte)>, etherType: u16)
    requires At(frame, off, PrintTags(tags)) && At(frame, off + 4 * |tags|, [Hi(etherType), Lo(etherType)])
    requires etherType != ETHERTYPE_VLAN
    ensures TagWalk(frame, off) == Some((etherType, off + 4 * |tags| + 2))
    decreases |tags|
  {
    hide U16At;
    if tags == [] {
      AtByte(frame, off, [Hi(etherType), Lo(etherType)], 0);
      AtByte(frame, off, [Hi(etherType), Lo(etherType)], 1);
      U16Stored(frame, off, etherType);
    } else {
      var tag: seq<byte> := [0x81, 0x00, tags[0].0, tags[0].1];
      AtSplit(frame, off, tag, PrintTags(tags[1..]));
      AtByte(frame, off, tag, 0);
      AtByte(frame, off, tag, 1);
      assert Hi(ETHERTYPE_VLAN) == 0x81 && Lo(ETHERTYPE_VLAN) == 0;
      U16Stored(frame, off, ETHERTYPE_VLAN);
      TagsFound(frame, off + 4, tags[1..], etherType);
    }
  }

  lemma {:induction false} ChainLenSame(chain: seq<Extension>, a: byte, b: byte)
    ensures |PrintChain(chain, a)| == |PrintChain(chain, b)|
  {
    if chain != [] {
      ChainLenSame(chain[1..], a, b);
    }
  }

  lemma PrintedChain(chain: seq<Extension>, last: byte)
    ensures chain == [] ==> PrintChain(chain, last) == []
    ensures chain != [] ==>
              PrintChain(chain, last)
                == ([FirstKind(chain[1..], last), chain[0].size] + chain[0].body) + PrintChain(chain[1..], last)
  {
  }

  lemma {:induction false} ChainFound(frame: seq<byte>, off: nat, chain: seq<Extension>, t: Transport, end: nat)
    requires forall e :: e in chain ==> e.Valid()
    requires t.Valid() && end <= |frame|
    requires At(frame, off, PrintChain(chain, t.ProtoByte()))
    requires At(frame, off + |PrintChain(chain, t.ProtoByte())|, t.Print())
    requires off + |PrintChain(chain, t.ProtoByte())| + |t.Print()| <= end
    ensures
      ChainWalk(frame, FirstKind(chain, t.ProtoByte()), off, end)
        == Some(Found(t, off + |PrintChain(chain, t.ProtoByte())|))
    decreases |chain|
  {
    PrintedChain(chain, t.ProtoByte());
    hide Transport.Print, ParseTcp, ParseUdp, Transport.Valid, PrintChain, At, Found;
    if chain == [] {
      TransportFound(frame, off, t, end - off);
    } else {
      var e, rest := chain[0], chain[1..];
      assert e.Valid();
      var lead: seq<byte> := [FirstKind(rest, t.ProtoByte()), e.size];
      var first := lead + e.body;
      AtSplit(frame, off, first, PrintChain(rest, t.ProtoByte()));
      AtByte(frame, off, first, 0);
      AtByte(frame, off, first, 1);
      assert off + |first| <= end;
      ChainFound(frame, off + |first|, rest, t, end);
    }
  }

  // ---------------------------------------------------------------- parsing inverts printing

  lemma PrintedV4(net: Network, length: u16, proto: byte)
    requires net.Valid() && net.V4?
    ensures
      var b := PrintNetwork(net, length, proto);
      && |b| == 20 + |net.options|
      && b[0] == 0x45 + |net.options| / 4 && b[2] == Hi(length) && b[3] == Lo(length) && b[9] == proto
  {
  }

  lemma PrintedV6(net: Network, length: u16, proto: byte) returns (head: seq<byte>)
    requires net.Valid() && net.V6?
    ensures |head| == IP6_HDR && PrintNetwork(net, length, proto) == head + PrintChain(net.chain, proto)
    ensures head[0] == 0x60 + net.trafficClass && head[4] == Hi(length) && head[5] == Lo(length)
    ensures head[6] == FirstKind(net.chain, proto)
  {
    head := [0x60 + net.trafficClass] + net.flow
            + [Hi(length), Lo(length), FirstKind(net.chain, proto), net.hopLimit] + net.addresses;
  }

  lemma NetworkLength(net: Network, length: u16, proto: byte)
    requires net.Valid()
    ensures |PrintNetwork(net, length, proto)|
         == if net.V4? then 20 + |net.options| else IP6_HDR + |PrintChain(net.chain, 0)|
  {
    if net.V4? {
      PrintedV4(net, length, proto);
    } else {
      var _ := PrintedV6(net, length, proto);
      ChainLenSame(net.chain, 0, proto);
    }
  }

  /** Where every printed part of a packet lies. */
  lemma Pieces(pkt: Packet)
    requires pkt.Valid()
    ensures
      var f, n := pkt.Print(), |pkt.tags|;
      && |f| == pkt.HeaderStart() + |pkt.transport.Print()| + |pkt.payload| + |pkt.trailer|
      && At(f, 12, PrintTags(pkt.tags))
      && At(f, 12 + 4 * n, [Hi(pkt.EtherType()), Lo(pkt.EtherType())])
      && pkt.LengthAt() + 1 < |f|
      && At(f, pkt.IpStart(), PrintNetwork(pkt.net, pkt.IpLength(), pkt.transport.ProtoByte()))
      && At(f, pkt.HeaderStart(), pkt.transport.Print())
      && At(f, pkt.HeaderStart() + |pkt.transport.Print()|, pkt.payload + pkt.trailer)
  {
    NetworkLength(pkt.net, pkt.IpLength(), pkt.transport.ProtoByte());
    hide PrintNetwork, PrintTags, PrintChain, Transport.Print, Packet.IpLength, Packet.EtherType, At;
    var f, tail := pkt.Print(), pkt.payload + pkt.trailer;
    var tags, et := PrintTags(pkt.tags), [Hi(pkt.EtherType()), Lo(pkt.EtherType())];
    var net, th := PrintNetwork(pkt.net, pkt.IpLength(), pkt.transport.ProtoByte()), pkt.transport.Print();
    assert f == pkt.macs + tags + et + net + th + tail;
    hide Packet.Print;
    Consecutive(f, pkt.macs, tags, et, net, th, tail);
  }

  lemma Consecutive(f: seq<byte>, a: seq<byte>, b: seq<byte>, c: seq<byte>, d: seq<byte>, e: seq<byte>, g: seq<byte>)
    requires f == a + b + c + d + e + g
    ensures At(f, |a|, b) && At(f, |a| + |b|, c) && At(f, |a| + |b| + |c|, d) && At(f, |a| + |b| + |c| + |d|, e)
    ensures At(f, |a| + |b| + |c| + |d| + |e|, g)
  {
    AtFits(f, 0, f);
    hide At;
    AtSplit(f, 0, a + b + c + d + e, g);
    AtSplit(f, 0, a + b + c + d, e);
    AtSplit(f, 0, a + b + c, d);
    AtSplit(f, 0, a + b, c);
    AtSplit(f, 0, a, b);
  }

  lemma V4Bytes(f: seq<byte>, ip: nat, net: Network, length: u16, proto: byte)
    requires net.Valid() && net.V4? && At(f, ip, PrintNetwork(net, length, proto))
    ensures ip + 20 + |net.options| <= |f|
    ensures f[ip] == 0x45 + |net.options| / 4 && U16At(f, ip + 2) == length && f[ip + 9] == proto
  {
    PrintedV4(net, length, proto);
    hide PrintNetwork, Hi, Lo, U16At;
    var b := PrintNetwork(net, length, proto);
    AtByte(f, ip, b, 0);
    AtByte(f, ip, b, 2);
    AtByte(f, ip, b, 3);
    AtByte(f, ip, b, 9);
    U16Stored(f, ip + 2, length);
  }

  lemma V4Found(f: seq<byte>, ip: nat, optionsLen: nat, t: Transport, length: u16)
    requires optionsLen % 4 == 0 && optionsLen <= 40 && ip + 20 + optionsLen <= |f|
    requires f[ip] == 0x45 + optionsLen / 4 && U16At(f, ip + 2) == length && f[ip + 9] == t.ProtoByte()
    requires t.Valid() && 20 + optionsLen + |t.Print()| <= length && At(f, ip + 20 + optionsLen, t.Print())
    ensures ParseIpv4(f, ip) == ParsedFrame(f, ip, 20 + optionsLen, false, Some(Found(t, ip + 20 + optionsLen)))
  {
    hide Transport.Print, ParseTcp, ParseUdp, U16At, Transport.Valid, At;
    TransportFound(f, ip + 20 + optionsLen, t, length - 20 - optionsLen);
  }

  lemma V6Bytes(f: seq<byte>, ip: nat, net: Network, length: u16, proto: byte)
    requires net.Valid() && net.V6? && At(f, ip, PrintNetwork(net, length, proto))
    ensures ip + IP6_HDR <= |f|
    ensures f[ip] / 16 == 6 && U16At(f, ip + 4) == length && f[ip + 6] == FirstKind(net.chain, proto)
    ensures At(f, ip + IP6_HDR, PrintChain(net.chain, proto))
  {
    var head := PrintedV6(net, length, proto);
    hide PrintNetwork, PrintChain, Hi, Lo, U16At;
    AtSplit(f, ip, head, PrintChain(net.chain, proto));
    AtByte(f, ip, head, 0);
    AtByte(f, ip, head, 4);
    AtByte(f, ip, head, 5);
    AtByte(f, ip, head, 6);
    U16Stored(f, ip + 4, length);
  }

  lemma V6Found(f: seq<byte>, ip: nat, chain: seq<Extension>, t: Transport, length: u16, at: nat)
    requires (forall e :: e in chain ==> e.Valid()) && t.Valid() && ip + IP6_HDR <= |f|
    requires f[ip] / 16 == 6 && U16At(f, ip + 4) == length && f[ip + 6] == FirstKind(chain, t.ProtoByte())
    requires At(f, ip + IP6_HDR, PrintChain(chain, t.ProtoByte())) && At(f, at, t.Print())
    requires at == ip + IP6_HDR + |PrintChain(chain, t.ProtoByte())| && at + |t.Print()| <= ip + IP6_HDR + length
    ensures Ipv6Layout(f, ip) == ParsedFrame(f, ip, IP6_HDR, true, Some(Found(t, at)))
  {
    AtFits(f, at, t.Print());
    hide Transport.Print, PrintChain, ChainWalk, U16At, Transport.Valid, At, FirstKind, Found;
    var end := Ipv6PayloadEnd(f, ip);
    assert at + |t.Print()| <= end;
    hide Ipv6PayloadEnd;
    ChainFound(f, ip + IP6_HDR, chain, t, end);
  }

  lemma NetworkFound(pkt: Packet)
    requires pkt.Valid() && pkt.LengthAt() + 1 < |pkt.Print()|
    requires At(pkt.Print(), pkt.IpStart(), PrintNetwork(pkt.net, pkt.IpLength(), pkt.transport.ProtoByte()))
    requires At(pkt.Print(), pkt.HeaderStart(), pkt.transport.Print())
    ensures pkt.Expected() == if pkt.net.V4? then ParseIpv4(pkt.Print(), pkt.IpStart())
                              else Ipv6Layout(pkt.Print(), pkt.IpStart())
    ensures U16At(pkt.Print(), pkt.LengthAt()) == pkt.IpLength()
  {
    hide Packet.Print, Transport.Print, PrintNetwork, PrintChain, ParseIpv4, Ipv6Layout, At, U16At;
    var f, ip, t := pkt.Print(), pkt.IpStart(), pkt.transport;
    if pkt.net.V4? {
      V4Bytes(f, ip, pkt.net, pkt.IpLength(), t.ProtoByte());
      V4Found(f, ip, |pkt.net.options|, t, pkt.IpLength());
    } else {
      ChainLenSame(pkt.net.chain, 0, t.ProtoByte());
      V6Bytes(f, ip, pkt.net, pkt.IpLength(), t.ProtoByte());
      V6Found(f, ip, pkt.net.chain, t, pkt.IpLength(), pkt.HeaderStart());
    }
  }

  lemma LayoutFound(pkt: Packet)
    requires pkt.Valid()
    ensures Layout(pkt.Print()) == Ok(pkt.Expected())
    ensures pkt.LengthAt() + 1 < |pkt.Print()| && U16At(pkt.Print(), pkt.LengthAt()) == pkt.IpLength()
  {
    hide Packet.Print, Transport.Print, PrintNetwork, PrintTags, TagWalk, ParseIpv4, Ipv6Layout, At, U16At,
         Packet.IpLength, Packet.Expected, Packet.HeaderStart;
    Pieces(pkt);
    TagsFound(pkt.Print(), 12, pkt.tags, pkt.EtherType());
    NetworkFound(pkt);
  }

  /** The payload of a frame whose last bytes are `a + b`, when the lengths announce `n` bytes more than `a`. */
  lemma PayloadWindow(p: ParsedFrame, a: seq<byte>, b: seq<byte>, n: nat)
    requires p.l4.Some? && LengthReadable(p) && PayloadLen(p) == |a| + n
    requires At(p.frame, p.l4.value.payloadStart, a + b)
    requires |p.frame| == p.l4.value.payloadStart + |a| + |b|
    ensures Payload(p) == a + b[..Min(|b|, n)]
  {
    hide PayloadLen;
    var at, m := p.l4.value.payloadStart, |a| + Min(|b|, n);
    var s := p.frame[at..at + |a + b|];
    assert p.frame[at..at + m] == s[..m];
  }

  lemma AnnouncedLength(pkt: Packet)
    requires pkt.Valid()
    requires pkt.LengthAt() + 1 < |pkt.Print()| && U16At(pkt.Print(), pkt.LengthAt()) == pkt.IpLength()
    ensures LengthReadable(pkt.Expected()) ==> PayloadLen(pkt.Expected()) == |pkt.payload| + pkt.ChainLen()
  {
    hide Packet.Print, Transport.Print, PrintChain, U16At;
  }

  /**
   Parsing inverts printing: any tags, IPv4 options or IPv6 extension chain, TCP options, payload and
   trailer give back the exact offsets and ports. The payload comes back with as many trailer
   bytes as the extension chain is long, because the reader does not subtract the chain.
   */
  lemma ParsingInvertsPrinting(pkt: Packet)
    requires pkt.Valid()
    ensures Layout(pkt.Print()) == Ok(pkt.Expected()) && LengthReadable(pkt.Expected())
    ensures Payload(pkt.Expected()) == pkt.payload + pkt.trailer[..Min(|pkt.trailer|, pkt.ChainLen())]
  {
    hide Layout, Packet.Print, Transport.Print, PrintChain, PrintNetwork, PrintTags, U16At, At, WellPlaced,
         Packet.HeaderStart, Packet.ChainLen, PayloadLen, Payload, LengthReadable, Packet.LengthAt, Packet.IpLength;
    LayoutFound(pkt);
    LayoutWellPlaced(pkt.Print());
    Pieces(pkt);
    AnnouncedLength(pkt);
    PayloadWindow(pkt.Expected(), pkt.payload, pkt.trailer, pkt.ChainLen());
  }
}
