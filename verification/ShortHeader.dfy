/** IPv4 frames whose IHL is below 5: accepted, but some of their repaired fields overlap. */
module ShortHeader {
  import opened Bytes
  import opened Checksum
  import opened Parse
  import opened Policy
  import opened Truncate
  import opened Fidelity
  import opened Reparse
  import opened Packet

  /**
   With IHL 1 no truncated UDP frame is recognised as UDP again: its length has overwritten the protocol.
   */
  lemma ShortHeaderLosesTransport(frame: seq<byte>)
    requires Process(frame).Truncated?
    requires var p := Layout(frame).value; !p.isIpv6 && p.ipHeaderLen == 4 && p.l4.value.proto == Udp
    ensures Layout(Process(frame).bytes).Ok? && Layout(Process(frame).bytes).value.l4 == None
  {
    hide Edited, Layout, DecideAction, Process, WellPlaced, InFootprint;
    DecisionAndEffectCoincide(frame);
    var p := Layout(frame).value;
    ShortHeader(p);
  }

  lemma ShortHeader(p: ParsedFrame)
    requires ParsedAndCuttable(p) && !p.isIpv6 && p.ipHeaderLen == 4 && p.l4.value.proto == Udp
    ensures Layout(Edited(p)).Ok? && Layout(Edited(p)).value.l4 == None
  {
    SecondIpv4(p);
    hide Edited, Layout, ParseIpv4;
  }

  /** An untagged, unfragmented UDP frame from port 443 behind `words` IPv4 header words is truncated. */
  lemma ShortUdpParsed(frame: seq<byte>, words: nat)
    requires 0 < words < 5 && 34 <= |frame| < 0x1_0000 && 14 + 4 * words + 32 < |frame|
    requires U16At(frame, 12) == ETHERTYPE_IPV4 && frame[14] == 0x40 + words && U16At(frame, 16) == |frame| - 14
    requires U16At(frame, 20) == 0 && frame[23] == IP_PROTO_UDP && U16At(frame, 14 + 4 * words) == 443
    ensures
      var at := 14 + 4 * words;
      var l4 := L4Info(Udp, 443, U16At(frame, at + 2), at, 8, at + 8);
      Layout(frame) == Ok(ParsedFrame(frame, 14, 4 * words, false, Some(l4)))
    ensures Process(frame).Truncated?
  {
    assert TagWalk(frame, 12) == Some((ETHERTYPE_IPV4, 14));
    hide Edited, ChainWalk, TagWalk, U16At;
    var p := Layout(frame).value;
    assert p.l4 == ParseUdp(frame, 14 + 4 * words, |frame| - 14 - 4 * words);
    assert |Payload(p)| == |frame| - 14 - 4 * words - 8;
    DecisionAndEffectCoincide(frame);
    hide Process, Layout, DecideAction;
    UdpOn443(p);
  }

  lemma UdpOn443(p: ParsedFrame)
    requires LengthReadable(p) && !p.isIpv6 && FlagsReadable(p) && U16At(p.frame, p.ipStart + 6) == 0
    requires p.l4.Some? && p.l4.value.proto == Udp && 443 in {p.l4.value.sport, p.l4.value.dport} && |Payload(p)| > 24
    ensures DecideAction(p) == Truncate
  {
    hide Payload, U16At;
  }

  /** Such a frame exists. */
  lemma ShortHeaderWitness() returns (frame: seq<byte>)
    ensures Process(frame).Truncated?
    ensures var p := Layout(frame).value; !p.isIpv6 && p.ipHeaderLen == 4 && p.l4.Some? && p.l4.value.proto == Udp
  {
    frame := Zeros(12) + [0x08, 0x00, 0x41, 0, 0, 64, 0x01, 0xbb, 0, 0, 0, 17] + Zeros(54);
    hide Process, Layout;
    ShortUdpParsed(frame, 1);
  }

  // ---------------------------------------------------------------- checksums that do not verify

  /** With IHL 1 or 0 the IPv4 header of a truncated frame never verifies; such a frame exists. */
  lemma HeaderSumWitness() returns (frame: seq<byte>)
    ensures Process(frame).Truncated?
    ensures
      var p, out := Layout(frame).value, Process(frame).bytes;
      !p.isIpv6 && p.ipStart + p.ipHeaderLen <= |out| && !Verifies(out[p.ipStart..p.ipStart + p.ipHeaderLen])
  {
    frame := ShortHeaderWitness();
    TruncationFaithful(frame);
    hide Process, Layout, Verifies;
  }

  /**
   A UDP datagram behind a three-word IPv4 header: its ports are the source address, its length and
   checksum the destination.
   */
  function ThreeWordFrame(): (frame: seq<byte>)
    ensures |frame| == 86
  {
    Zeros(12) + [0x08, 0x00, 0x43, 0, 0, 72, 0, 0, 0, 0, 0, 17, 0, 0, 0x01, 0xbb] + Zeros(58)
  }

  lemma ThreeWordParsed()
    ensures Layout(ThreeWordFrame())
         == Ok(ParsedFrame(ThreeWordFrame(), 14, 12, false, Some(L4Info(Udp, 443, 0, 26, 8, 34))))
    ensures Process(ThreeWordFrame()).Truncated?
  {
    hide Process, Layout;
    ShortUdpParsed(ThreeWordFrame(), 3);
  }

  /** A truncated frame whose transport checksum does not verify: it lies inside the destination address it covers. */
  lemma TransportSumWitness()
    ensures
      var frame := ThreeWordFrame();
      && Process(frame).Truncated?
      && var p, out := Layout(frame).value, Process(frame).bytes;
         HoldsHeaders(out, p) && !Verifies(Covered(out, p))
  {
    hide Process, Layout, Verifies, Covered, WordSum, U16At;
    ThreeWordParsed();
    TruncationFaithful(ThreeWordFrame());
    var p := Layout(ThreeWordFrame()).value;
    WordSumOfZeros(KeptBytes(p));
    assert U16At(p.frame, 26) == 443 && U16At(p.frame, 28) == 0 by {
      ThreeWordPorts();
    }
    assert CoveredWords(p) == 999;
  }

  lemma ThreeWordPorts()
    ensures U16At(ThreeWordFrame(), 26) == 443 && U16At(ThreeWordFrame(), 28) == 0
  {
  }

  // ---------------------------------------------------------------- a payload that does not survive

  /** A frame of IHL 0 whose total length, read as a destination port, is 443. */
  function NoWordFrame(): (frame: seq<byte>)
    ensures |frame| == 457
  {
    Zeros(12) + [0x08, 0x00, 0x40, 0, 0x01, 0xbb, 0, 0, 0, 0, 0, 17] + Zeros(433)
  }

  lemma NoWordBytes()
    ensures
      var f := NoWordFrame();
      && U16At(f, 12) == ETHERTYPE_IPV4 && f[14] == 0x40 && U16At(f, 14) == 0x4000 && U16At(f, 16) == 443
      && U16At(f, 20) == 0 && f[23] == IP_PROTO_UDP && U16At(f, 24) == 0
  {
    var f := NoWordFrame();
    assert f[12] == 0x08 && f[13] == 0 && f[14] == 0x40 && f[15] == 0 && f[16] == 0x01 && f[17] == 0xbb;
    assert f[20] == f[21] == 0 && f[23] == 17 && f[24] == f[25] == 0;
    hide NoWordFrame;
  }

  lemma NoWordParsed()
    ensures Layout(NoWordFrame())
         == Ok(ParsedFrame(NoWordFrame(), 14, 0, false, Some(L4Info(Udp, 0x4000, 443, 14, 8, 22))))
    ensures Process(NoWordFrame()).Truncated?
  {
    hide Edited, ChainWalk, U16At, NoWordFrame, Process, DecideAction;
    var frame := NoWordFrame();
    NoWordBytes();
    assert TagWalk(frame, 12) == Some((ETHERTYPE_IPV4, 14));
    hide TagWalk;
    var p := Layout(frame).value;
    assert p.l4 == ParseUdp(frame, 14, 443);
    assert |Payload(p)| == 435;
    DecisionAndEffectCoincide(frame);
    hide Layout;
    UdpOn443(p);
  }

  /** A truncated frame that does not keep the first 24 payload bytes: the IPv4 checksum is stored in two of them. */
  lemma PayloadOverwrittenWitness()
    ensures
      var frame := NoWordFrame();
      && Process(frame).Truncated? && Layout(frame).Ok? && Layout(frame).value.l4.Some?
      && var at, out := Layout(frame).value.l4.value.payloadStart, Process(frame).bytes;
         |out| == at + 24 < |frame| && out[at..] != frame[at..at + 24]
  {
    hide Process, Layout, Edited, U16At;
    NoWordParsed();
    DecisionAndEffectCoincide(NoWordFrame());
    KeptPayload(Layout(NoWordFrame()).value);
    NoWordBytes();
  }
}
