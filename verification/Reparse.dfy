/** A second parse of a truncated frame. */
module Reparse {
  import opened Bytes
  import opened Parse
  import opened Policy
  import opened Truncate
  import opened Fidelity

  /** The tag walk reads nothing behind the L3 offset it returns. */
  lemma {:induction false} TagWalkSame(a: seq<byte>, b: seq<byte>, off: nat)
    requires TagWalk(a, off).Some? && TagWalk(a, off).value.1 <= |b|
    requires TagWalk(a, off).value.1 <= |a| && Agree(a, b, off, TagWalk(a, off).value.1)
    ensures TagWalk(b, off) == TagWalk(a, off)
    decreases |a| + 4 - off
  {
    TagWalkBounds(a, off);
    assert U16At(b, off) == U16At(a, off);
    if U16At(a, off) == ETHERTYPE_VLAN {
      TagWalkBounds(a, off + 4);
      TagWalkSame(a, b, off + 4);
    }
  }

  /** Both frames show the same transport header: its ports and, for TCP, its data offset. */
  predicate SameTransport(a: seq<byte>, b: seq<byte>, l4: L4Info)
    requires l4.headerStart + 20 <= |a| && l4.headerStart + 20 <= |b|
  {
    && Agree(a, b, l4.headerStart, l4.headerStart + 4)
    && (l4.proto == Tcp ==> a[l4.headerStart + 12] == b[l4.headerStart + 12])
  }

  /**
   The chain of headers alone decides what the walk finds: on any frame with the same chain, and
   for any payload end, the answer is the same header if it fits before that end, and nothing otherwise.
   */
  lemma {:induction false} ChainWalkDetermined(a: seq<byte>, b: seq<byte>, next: byte, off: nat, end: nat, end2: nat)
    requires end <= |a| && end2 <= |b|
    requires ChainWalk(a, next, off, end).Some?
    requires
      var l4 := ChainWalk(a, next, off, end).value;
      && l4.headerStart + 20 <= |a| && l4.headerStart + 20 <= |b|
      && Agree(a, b, off, l4.headerStart)
      && SameTransport(a, b, l4)
    ensures
      var l4 := ChainWalk(a, next, off, end).value;
      ChainWalk(b, next, off, end2) == if l4.payloadStart <= end2 then Some(l4) else None
    decreases end + 1 - Min(off, end)
  {
    var l4 := ChainWalk(a, next, off, end).value;
    ChainWalkBounds(a, next, off, end);
    if next == IP_PROTO_TCP || next == IP_PROTO_UDP {
      assert U16At(a, off) == U16At(b, off) && U16At(a, off + 2) == U16At(b, off + 2);
    } else {
      var extLen := ExtensionLen(next, a[off + 1]);
      ChainWalkBounds(a, a[off], off + extLen, end);
      assert a[off] == b[off] && a[off + 1] == b[off + 1];
      ChainWalkDetermined(a, b, a[off], off + extLen, end, end2);
    }
  }

  /** Facts about the bytes of a truncated frame that a second parse reads. */
  lemma TruncatedBytes(p: ParsedFrame)
    requires Cuttable(p) && 14 <= p.ipStart
    ensures Agree(p.frame, Edited(p), 0, p.ipStart)
    ensures p.frame[p.ipStart] == Edited(p)[p.ipStart]
    ensures
      var l4 := p.l4.value;
      && l4.headerStart + 20 <= |Edited(p)| <= |p.frame|
      && Agree(p.frame, Edited(p), l4.headerStart, l4.headerStart + 2)
      && (l4.proto == Tcp ==> p.frame[l4.headerStart + 12] == Edited(p)[l4.headerStart + 12])
    ensures p.isIpv6 ==> SameTransport(p.frame, Edited(p), p.l4.value)
    ensures p.isIpv6 ==> Agree(p.frame, Edited(p), p.ipStart + 6, p.l4.value.headerStart)
  {
    hide Edited;
    forall i | 0 <= i < |Edited(p)| && !InFootprint(p, i)
      ensures Edited(p)[i] == p.frame[i]
    {
      EditFootprint(p, i);
    }
    hide WellPlaced;
  }

  lemma TagWalkKept(p: ParsedFrame)
    requires ParsedAndCuttable(p)
    ensures TagWalk(p.frame, 12) == TagWalk(Edited(p), 12)
    ensures TagWalk(p.frame, 12) == Some((if p.isIpv6 then ETHERTYPE_IPV6 else ETHERTYPE_IPV4, p.ipStart))
  {
    hide Edited, ChainWalk, ParseTcp, ParseUdp, InFootprint;
    TruncatedBytes(p);
    TagWalkBounds(p.frame, 12);
    TagWalkSame(p.frame, Edited(p), 12);
  }

  /** The protocol byte of a truncated IPv4 frame: for IHL 1 with UDP, the low byte of the new UDP length. */
  lemma SecondProtocol(p: ParsedFrame)
    requires Cuttable(p) && !p.isIpv6
    ensures p.ipStart + 9 < |Edited(p)|
    ensures Edited(p)[p.ipStart + 9]
         == if p.ipHeaderLen == 4 && p.l4.value.proto == Udp then 32 else p.frame[p.ipStart + 9]
  {
    hide Edited;
    if p.ipHeaderLen == 4 && p.l4.value.proto == Udp {
      UdpLengthRepaired(p);
      assert U16At(Edited(p), p.ipStart + 8) == 32;
    } else {
      EditFootprint(p, p.ipStart + 9);
    }
  }

  /** The destination port a second parse reads: a repaired field for IHL 0 and 2, else the old one. */
  lemma SecondDport(p: ParsedFrame)
    requires Cuttable(p) && !p.isIpv6
    ensures p.l4.value.headerStart + 4 <= |Edited(p)|
    ensures U16At(Edited(p), p.l4.value.headerStart + 2)
         == if p.ipHeaderLen == 0 then NewTotal(p)
            else if p.ipHeaderLen == 8 then TwoWordHeaderSum(p)
            else U16At(p.frame, p.l4.value.headerStart + 2)
  {
    hide Edited, U16At, TwoWordHeaderSum;
    if p.ipHeaderLen == 0 {
      LengthsRepaired(p);
    } else if p.ipHeaderLen == 8 {
      TwoWordHeader(p);
    } else {
      EditFootprint(p, p.l4.value.headerStart + 2);
      EditFootprint(p, p.l4.value.headerStart + 3);
      SameWord(Edited(p), p.frame, p.l4.value.headerStart + 2);
    }
  }

  /** The new IPv6 payload length still fits its 16-bit field. */
  predicate PayloadLengthFits(p: ParsedFrame)
    requires p.l4.Some?
  {
    p.isIpv6 ==> p.l4.value.payloadStart + TRUNCATE_PAYLOAD_BYTES <= p.ipStart + IP6_HDR + 0xffff
  }

  /**
   A cut leaves the headers recognisable. For IPv6 the new length has to fit. An IPv4 header of IHL 0 has
   its total length where the destination port is, one of IHL 2 its checksum, and with IHL 1
   the UDP length overwrites the protocol.
   */
  predicate HeadersRecovered(p: ParsedFrame)
    requires p.l4.Some? && WellPlaced(p)
  {
    if p.isIpv6 then PayloadLengthFits(p)
    else if p.ipHeaderLen == 0 then p.l4.value.dport == NewTotal(p)
    else if p.ipHeaderLen == 4 then p.l4.value.proto == Tcp
    else p.ipHeaderLen == 8 ==> p.l4.value.dport == TwoWordHeaderSum(p)
  }

  /** What the general IPv4 parser says about a truncated frame, for every IHL. */
  lemma SecondIpv4(p: ParsedFrame)
    requires ParsedAndCuttable(p) && !p.isIpv6
    ensures
      var e, l4 := Edited(p), p.l4.value;
      && Layout(e) == Ok(ParseIpv4(e, p.ipStart))
      && l4.headerStart + 4 <= |e|
      && ParseIpv4(e, p.ipStart)
         == ParsedFrame(e, p.ipStart, p.ipHeaderLen, false,
                        if p.ipHeaderLen == 4 && l4.proto == Udp then None
                        else Some(l4.(dport := U16At(e, l4.headerStart + 2))))
  {
    hide Edited, TagWalk, InFootprint, ChainWalk;
    TagWalkKept(p);
    TruncatedBytes(p);
    LengthsRepaired(p);
    SecondProtocol(p);
    var e, l4 := Edited(p), p.l4.value;
    SameWord(e, p.frame, l4.headerStart);
    hide U16At;
  }

  lemma ReparseIpv4(p: ParsedFrame)
    requires ParsedAndCuttable(p) && !p.isIpv6
    ensures Layout(Edited(p)) == Ok(p.(frame := Edited(p))) <==> HeadersRecovered(p)
  {
    SecondIpv4(p);
    SecondDport(p);
    Dport(p);
    hide Edited, Layout, ParseIpv4, U16At, TwoWordHeaderSum, WellPlaced;
  }

  lemma Dport(p: ParsedFrame)
    requires ParsedAndCuttable(p) && !p.isIpv6
    ensures p.l4.value.dport == U16At(p.frame, p.l4.value.headerStart + 2)
  {
    hide TagWalk, ChainWalk, U16At;
  }

  /** A zero header length puts the ports over the total length, and a longer payload had a longer total. */
  lemma ZeroLengthHeaderLost(p: ParsedFrame)
    requires ParsedAndCuttable(p) && !p.isIpv6 && p.ipHeaderLen == 0
    requires LengthReadable(p) && |Payload(p)| > TRUNCATE_PAYLOAD_BYTES
    ensures !HeadersRecovered(p)
  {
    Dport(p);
    hide Layout, U16At;
  }

  lemma Ipv6Second(p: ParsedFrame)
    requires ParsedAndCuttable(p) && p.isIpv6
    ensures
      var e := Edited(p);
      Layout(e) == Ok(ParsedFrame(e, p.ipStart, IP6_HDR, true,
                                  if p.l4.value.payloadStart <= Ipv6PayloadEnd(e, p.ipStart) then p.l4 else None))
  {
    hide Edited, TagWalk, InFootprint, ChainWalk, ParseTcp, ParseUdp;
    TagWalkKept(p);
    TruncatedBytes(p);
    var e, f, at := Edited(p), p.frame, p.ipStart + IP6_HDR;
    ChainWalkDetermined(f, e, f[p.ipStart + 6], at, Ipv6PayloadEnd(f, p.ipStart), Ipv6PayloadEnd(e, p.ipStart));
  }

  /**
   Parsing a truncated frame finds the same headers, ports and offsets exactly when the cut leaves them
   recognisable: for IPv4 always with IHL 3 and more, and with TCP for IHL 1.
   */
  lemma ReparseFidelity(p: ParsedFrame)
    requires ParsedAndCuttable(p)
    ensures Layout(Edited(p)) == Ok(p.(frame := Edited(p))) <==> HeadersRecovered(p)
  {
    hide Edited, Layout, ChainWalk, TwoWordHeaderSum;
    if !p.isIpv6 {
      ReparseIpv4(p);
    } else {
      Ipv6Second(p);
      LengthsRepaired(p);
    }
  }

  /** The repaired IPv4 checksum lies in the payload: IHL 0 with UDP. */
  predicate HeaderSumInPayload(p: ParsedFrame)
    requires p.l4.Some?
  {
    !p.isIpv6 && p.ipHeaderLen == 0 && p.l4.value.proto == Udp
  }

  /**
   Behind the headers lie the first 24 bytes of the old payload, exactly unless the IPv4 checksum was stored
   among them and changed them; and the lengths, where they fit, are the real sizes.
   */
  lemma ReparsedPayload(p: ParsedFrame)
    requires ParsedAndCuttable(p) && PayloadLengthFits(p)
    ensures
      var e, l4 := Edited(p), p.l4.value;
      var q := p.(frame := e);
      && LengthReadable(q) && |Payload(q)| == TRUNCATE_PAYLOAD_BYTES
      && (Payload(q) == p.frame[l4.payloadStart..l4.payloadStart + TRUNCATE_PAYLOAD_BYTES] <==>
            (HeaderSumInPayload(p) ==> U16At(p.frame, p.ipStart + 10) == 0xffff))
      && (if p.isIpv6 then U16At(e, p.ipStart + 4) == |e| - p.ipStart - IP6_HDR
          else U16At(e, p.ipStart + 2) == |e| - p.ipStart)
      && (l4.proto == Udp ==> U16At(e, l4.headerStart + 4) == |e| - l4.headerStart)
  {
    hide Edited, Layout, InFootprint, HeaderSumInPayload;
    LengthsRepaired(p);
    var e, l4 := Edited(p), p.l4.value;
    if l4.proto == Udp {
      UdpLengthRepaired(p);
    }
    assert e[l4.payloadStart..|e|] == e[l4.payloadStart..];
    KeptPayload(p);
  }

  lemma KeptPayload(p: ParsedFrame)
    requires Cuttable(p)
    ensures
      var l4 := p.l4.value;
      Edited(p)[l4.payloadStart..] == p.frame[l4.payloadStart..l4.payloadStart + TRUNCATE_PAYLOAD_BYTES] <==>
        (HeaderSumInPayload(p) ==> U16At(p.frame, p.ipStart + 10) == 0xffff)
  {
    hide Edited;
    var e, at := Edited(p), p.l4.value.payloadStart;
    forall i | at <= i < |e| && !InFootprint(p, i)
      ensures e[i] == p.frame[i]
    {
      EditFootprint(p, i);
    }
    if HeaderSumInPayload(p) {
      EmptyHeaderSum(p);
      WordSame(e, p.frame, p.ipStart + 10);
      assert e[at..][2] == e[p.ipStart + 10] && e[at..][3] == e[p.ipStart + 11];
      assert p.frame[at..at + 24][2] == p.frame[p.ipStart + 10] && p.frame[at..at + 24][3] == p.frame[p.ipStart + 11];
    }
  }

  /** With no extension header, or with nothing captured behind the IP payload, the length always fits. */
  lemma OrdinaryLengthFits(p: ParsedFrame)
    requires ParsedAndCuttable(p)
    requires p.isIpv6 ==>
               || p.l4.value.headerStart == p.ipStart + IP6_HDR
               || |p.frame| <= p.ipStart + IP6_HDR + U16At(p.frame, p.ipStart + 4)
    ensures PayloadLengthFits(p)
  {
    hide Layout;
  }

  /** On any truncated frame the second decision is well defined and is Keep. */
  lemma SecondDecisionKeeps(p: ParsedFrame)
    requires ParsedAndCuttable(p)
    ensures Layout(Edited(p)).Ok?
    ensures
      var q := Layout(Edited(p)).value;
      LengthReadable(q) && FlagsReadable(q) && DecideAction(q) == Keep
  {
    hide Edited, ChainWalk, DecideAction;
    if p.isIpv6 {
      Ipv6Second(p);
    } else {
      SecondIpv4(p);
    }
    LayoutWellPlaced(Edited(p));
    hide Layout;
    ShortPayloadKept(Layout(Edited(p)).value);
  }
}
