/** Fragments, which the specification leaves alone: IPv4 ones are, IPv6 ones only by chance. */
module Fragments {
  import opened Bytes
  import opened Parse
  import opened Policy
  import opened Truncate
  import opened Fidelity
  import opened Packet
  import opened Printer = PacketPrinter

  /** The offset of the first Fragment header on an extension chain inside `[off, end)`. */
  function FragmentHeader(frame: seq<byte>, next: byte, off: nat, end: nat): Option<nat>
    requires end <= |frame|
    decreases end + 1 - Min(off, end)
  {
    if off >= end || !IsExtension(next) || off + 2 > end then None
    else
      var extLen := ExtensionLen(next, frame[off + 1]);
      if off + extLen > end then None
      else if next == 44 then Some(off)
      else FragmentHeader(frame, frame[off], off + extLen, end)
  }

  /** IPv4: more fragments follow or the offset is not zero. IPv6: a Fragment header stands on the chain. */
  predicate IsFragment(p: ParsedFrame)
    requires FlagsReadable(p)
  {
    if p.isIpv6 then
      && p.ipStart + IP6_HDR <= |p.frame|
      && p.frame[p.ipStart] / 16 == 6
      && FragmentHeader(p.frame, p.frame[p.ipStart + 6], p.ipStart + IP6_HDR, Ipv6PayloadEnd(p.frame, p.ipStart)).Some?
    else U16At(p.frame, p.ipStart + 6) % 0x4000 != 0
  }

  /**
   A fragment is left alone exactly when it is IPv4 or does not look encrypted: the Fragment header
   of IPv6 is stepped over like any other.
   */
  lemma FragmentKeptExactly(frame: seq<byte>)
    requires Layout(frame).Ok? && FlagsReadable(Layout(frame).value) && IsFragment(Layout(frame).value)
    ensures LengthReadable(Layout(frame).value)
    ensures Process(frame) == Kept <==> !Layout(frame).value.isIpv6 || !LooksEncrypted(Layout(frame).value)
  {
    LayoutWellPlaced(frame);
    hide Layout, LooksEncrypted, DecideAction, Edited, FragmentHeader;
    DecisionTree(Layout(frame).value);
  }

  lemma {:induction false} FragmentHeaderFound(frame: seq<byte>, off: nat, chain: seq<Extension>, last: byte, end: nat)
    requires forall e :: e in chain ==> e.Valid()
    requires exists e :: e in chain && e.kind == 44
    requires At(frame, off, PrintChain(chain, last)) && off + |PrintChain(chain, last)| <= end <= |frame|
    ensures FragmentHeader(frame, FirstKind(chain, last), off, end).Some?
    decreases |chain|
  {
    PrintedChain(chain, last);
    hide PrintChain, At;
    var e, rest := chain[0], chain[1..];
    assert e.Valid();
    var lead: seq<byte> := [FirstKind(rest, last), e.size];
    var first := lead + e.body;
    AtSplit(frame, off, first, PrintChain(rest, last));
    AtByte(frame, off, first, 0);
    AtByte(frame, off, first, 1);
    assert off + |first| <= end;
    if e.kind != 44 {
      var f :| f in chain && f.kind == 44;
      assert f in rest;
      FragmentHeaderFound(frame, off + |first|, rest, last, end);
    }
  }

  /** What the transport header and the bytes behind it show, whatever the chain in front of them says. */
  ghost predicate ShownEncrypted(t: Transport, payload: seq<byte>) {
    && |payload| > 24
    && if t.TcpHeader? then EncryptedTcp({t.sport, t.dport}, payload) else EncryptedUdp({t.sport, t.dport})
  }

  lemma PrintedIsFragment(pkt: Printer.Packet)
    requires pkt.Valid() && pkt.net.V6? && exists e :: e in pkt.net.chain && e.kind == 44
    ensures IsFragment(pkt.Expected())
  {
    hide Printer.Packet.Print, Transport.Print, PrintChain, PrintNetwork, At, U16At,
         FragmentHeader, FirstKind, Transport.ProtoByte;
    var f, ip, t := pkt.Print(), pkt.IpStart(), pkt.transport;
    Pieces(pkt);
    V6Bytes(f, ip, pkt.net, pkt.IpLength(), t.ProtoByte());
    ChainLenSame(pkt.net.chain, 0, t.ProtoByte());
    FragmentHeaderFound(f, ip + IP6_HDR, pkt.net.chain, t.ProtoByte(), Ipv6PayloadEnd(f, ip));
  }

  /**
   Every printed IPv6 packet with a Fragment header anywhere on its chain, at any fragment offset, is a
   fragment, and it is truncated exactly when the bytes behind the chain show an encrypted payload.
   */
  lemma PrintedFragment(pkt: Printer.Packet)
    requires pkt.Valid() && pkt.net.V6? && exists e :: e in pkt.net.chain && e.kind == 44
    ensures Layout(pkt.Print()) == Ok(pkt.Expected()) && IsFragment(pkt.Expected())
    ensures
      var payload := pkt.payload + pkt.trailer[..Min(|pkt.trailer|, pkt.ChainLen())];
      Process(pkt.Print()).Truncated? <==> ShownEncrypted(pkt.transport, payload)
  {
    PrintedIsFragment(pkt);
    ParsingInvertsPrinting(pkt);
    hide Printer.Packet.Print, Transport.Print, PrintChain, Payload, Layout, IsFragment,
         EncryptedTcp, EncryptedUdp, DecideAction;
    DecisionTree(pkt.Expected());
    DecisionAndEffectCoincide(pkt.Print());
  }

  /** The offset, in units of 8 bytes, inside the body of a printed Fragment header. */
  function FragmentOffset(e: Extension): nat
    requires e.Valid() && e.kind == 44
  {
    U16At(e.body, 0) / 8
  }

  /** Any eight bytes read as a UDP header. */
  function UdpOf(data: seq<byte>): (t: Transport)
    requires 8 <= |data|
    ensures t.Valid()
  {
    UdpHeader(U16At(data, 0), U16At(data, 2), data[4..8])
  }

  /** Bytes read as a TCP header, with the header length that stands in byte 12. */
  function TcpOf(data: seq<byte>): (t: Transport)
    requires 20 <= |data| && 20 <= data[12] / 16 * 4 <= |data|
    ensures t.Valid()
  {
    TcpHeader(U16At(data, 0), U16At(data, 2), data[4..12], data[12] % 16, data[13..20], data[20..data[12] / 16 * 4])
  }

  lemma HalvesOf(hi: byte, lo: byte)
    ensures Hi(Be16(hi, lo)) == hi && Lo(Be16(hi, lo)) == lo
  {
  }

  lemma PortsPrinted(data: seq<byte>)
    requires 4 <= |data|
    ensures [Hi(U16At(data, 0)), Lo(U16At(data, 0)), Hi(U16At(data, 2)), Lo(U16At(data, 2))] == data[..4]
  {
    HalvesOf(data[0], data[1]);
    HalvesOf(data[2], data[3]);
    hide Hi, Lo, Be16;
  }

  /** Whatever the data of a fragment is, it is some UDP header and payload, printed. */
  lemma DataReadAsUdp(data: seq<byte>)
    requires 8 <= |data|
    ensures UdpOf(data).Print() + data[8..] == data
  {
    PortsPrinted(data);
    hide Hi, Lo, U16At;
    assert data == data[..4] + data[4..8] + data[8..];
  }

  /** And if byte 12 names a header length that fits, it is some TCP header and payload. */
  lemma DataReadAsTcp(data: seq<byte>)
    requires 20 <= |data| && 20 <= data[12] / 16 * 4 <= |data|
    ensures TcpOf(data).Print() + data[data[12] / 16 * 4..] == data
  {
    PortsPrinted(data);
    hide Hi, Lo, U16At;
    var off := data[12] / 16 * 4;
    assert (5 + |data[20..off]| / 4) * 16 + data[12] % 16 == data[12];
    assert data == data[..4] + data[4..12] + [data[12]] + data[13..20] + data[20..off] + data[off..];
  }

  /**
   A fragment with a nonzero offset carries data from the middle of a datagram, with no transport header. Its
   first bytes are read as one all the same: it is truncated exactly when they show encryption, and then
   data bytes are overwritten by a checksum and, for UDP, a length, and all behind the next 24 are dropped.
   */
  lemma LaterFragmentOverwritten(pkt: Printer.Packet, frag: Extension)
    requires pkt.Valid() && pkt.net.V6?
    requires frag in pkt.net.chain && frag.kind == 44 && FragmentOffset(frag) > 0
    ensures Layout(pkt.Print()) == Ok(pkt.Expected()) && IsFragment(pkt.Expected())
    ensures pkt.HeaderStart() <= |pkt.Print()|
    ensures pkt.Print()[pkt.HeaderStart()..] == pkt.transport.Print() + pkt.payload + pkt.trailer
    ensures Process(pkt.Print()).Truncated? <==>
              ShownEncrypted(pkt.transport, pkt.payload + pkt.trailer[..Min(|pkt.trailer|, pkt.ChainLen())])
    ensures Process(pkt.Print()).Truncated? ==>
              var out, at := Process(pkt.Print()).bytes, pkt.HeaderStart();
              && |out| == at + |pkt.transport.Print()| + 24 < |pkt.Print()|
              && Cuttable(pkt.Expected())
              && U16At(out, at + SumField(pkt.transport.Proto())) == NewSum(pkt.Expected())
              && (pkt.transport.UdpHeader? ==> U16At(out, at + 4) == 32)
  {
    hide Printer.Packet.Print, Transport.Print, PrintChain, U16At, ShownEncrypted, Layout, Process, IsFragment,
         FragmentOffset, Edited, NewSum, Unsummed, Printer.Packet.HeaderStart;
    PrintedFragment(pkt);
    DecisionAndEffectCoincide(pkt.Print());
    DataBehindChain(pkt);
    if Process(pkt.Print()).Truncated? {
      var p := pkt.Expected();
      EditedIsSummed(p);
      Put16Reads(Unsummed(p), SumAt(p), NewSum(p));
      if pkt.transport.UdpHeader? {
        UdpLengthRepaired(p);
      }
    }
  }

  lemma DataBehindChain(pkt: Printer.Packet)
    requires pkt.Valid()
    ensures pkt.HeaderStart() <= |pkt.Print()|
    ensures pkt.Print()[pkt.HeaderStart()..] == pkt.transport.Print() + pkt.payload + pkt.trailer
  {
    hide Printer.Packet.Print, Transport.Print, PrintChain, PrintNetwork, PrintTags, U16At, At,
         Printer.Packet.HeaderStart, Printer.Packet.IpLength, Printer.Packet.EtherType;
    Pieces(pkt);
    Behind(pkt.Print(), pkt.HeaderStart(), pkt.transport.Print(), pkt.payload, pkt.trailer);
  }

  lemma Behind(f: seq<byte>, at: nat, head: seq<byte>, a: seq<byte>, b: seq<byte>)
    requires At(f, at, head) && At(f, at + |head|, a + b) && |f| == at + |head| + |a| + |b|
    ensures f[at..] == head + a + b
  {
    assert f[at..] == f[at..at + |head|] + f[at + |head|..at + |head| + |a + b|];
  }

  /** Such a fragment exists: eight bytes into a datagram of zeros, but for two bytes that read as port 443. */
  lemma FragmentWitness() returns (frame: seq<byte>)
    ensures Layout(frame).Ok? && FlagsReadable(Layout(frame).value) && IsFragment(Layout(frame).value)
    ensures Process(frame).Truncated? && |Process(frame).bytes| == 94 < |frame|
    ensures frame[66..68] == [0, 0] && Process(frame).bytes[66..68] == [0, 32]
  {
    hide *;
    var frag, pkt := WitnessFragment();
    LaterFragmentOverwritten(pkt, frag);
    frame := pkt.Print();
    assert frame[66] == frame[62..][4] && frame[67] == frame[62..][5];
    NotPanicking(pkt.Expected());
    SmallWord(Process(frame).bytes, 66);
  }

  lemma WitnessFragment() returns (frag: Extension, pkt: Printer.Packet)
    ensures pkt.Valid() && pkt.net.V6? && pkt.Expected().isIpv6 && pkt.HeaderStart() == 62 && pkt.transport.UdpHeader?
    ensures frag in pkt.net.chain && frag.kind == 44 && FragmentOffset(frag) == 1
    ensures ShownEncrypted(pkt.transport, pkt.payload + pkt.trailer[..Min(|pkt.trailer|, pkt.ChainLen())])
    ensures |pkt.transport.Print()| == 8 && |pkt.payload| == 42
    ensures (pkt.transport.Print() + pkt.payload + pkt.trailer)[4..6] == [0, 0]
  {
    hide U16At, Printer.Packet.Print, Transport.Print, PrintChain, EncryptedUdp, Zeros, FragmentOffset, Extension.Valid;
    var data := WitnessData();
    frag := WitnessHeader();
    DataReadAsUdp(data);
    pkt := Printer.Packet(Zeros(12), [], V6(0, [0, 0, 0], 64, Zeros(32), [frag]), UdpOf(data), data[8..], []);
    assert pkt.trailer[..0] == [] && pkt.payload + [] == pkt.payload;
    assert (data + [])[4..6] == [data[4], data[5]];
  }

  lemma WitnessHeader() returns (frag: Extension)
    ensures frag.Valid() && frag.kind == 44 && FragmentOffset(frag) == 1 && |PrintChain([frag], 0)| == 8
  {
    frag := Extension(44, 0, [0, 8, 0, 0, 0, 0]);
    assert U16At(frag.body, 0) == 8;
    hide PrintChain, U16At;
    OneFragmentLen(frag);
  }

  lemma OneFragmentLen(frag: Extension)
    requires frag.Valid() && frag.kind == 44 && frag.size == 0
    ensures |PrintChain([frag], 0)| == 8
  {
    PrintedChain([frag], 0);
    PrintedChain([], 0);
    assert [frag][1..] == [];
  }

  lemma NotPanicking(p: ParsedFrame)
    requires p.isIpv6
    ensures FlagsReadable(p)
  {
  }

  lemma WitnessData() returns (data: seq<byte>)
    ensures |data| == 50 && data[4] == data[5] == 0 && EncryptedUdp({U16At(data, 0), U16At(data, 2)})
  {
    data := [0x01, 0xbb] + Zeros(48);
    assert U16At(data, 0) == 443;
    assert 443 in {U16At(data, 0), U16At(data, 2)} * {443, 500, 4500};
  }

  lemma SmallWord(b: seq<byte>, i: nat)
    requires i + 1 < |b| && U16At(b, i) == 32
    ensures b[i] == 0 && b[i + 1] == 32
  {
  }
}
