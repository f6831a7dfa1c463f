/** What a truncated frame still says: footprint, lengths, checksums and a second parse. */
module Fidelity {
  import opened Bytes
  import opened Checksum
  import opened Parse
  import opened Policy
  import opened Truncate

  // ---------------------------------------------------------------- footprint

  /** The bytes a cut may rewrite: IP length, IPv4 header checksum, UDP length and transport checksum. */
  predicate InFootprint(p: ParsedFrame, i: nat)
    requires p.l4.Some?
  {
    var l4 := p.l4.value;
    || (if p.isIpv6 then p.ipStart + 4 <= i < p.ipStart + 6
        else p.ipStart + 2 <= i < p.ipStart + 4 || p.ipStart + 10 <= i < p.ipStart + 12)
    || (if l4.proto == Tcp then l4.headerStart + 16 <= i < l4.headerStart + 18
        else l4.headerStart + 4 <= i < l4.headerStart + 8)
  }

  lemma IpFieldsFootprint(b: seq<byte>, p: ParsedFrame, i: nat)
    requires HoldsHeaders(b, p) && i < |b|
    requires if p.isIpv6 then !(p.ipStart + 4 <= i < p.ipStart + 6)
             else !(p.ipStart + 2 <= i < p.ipStart + 4 || p.ipStart + 10 <= i < p.ipStart + 12)
    ensures SetIpFields(b, p)[i] == b[i]
  {
    hide Put16, U16At, Checksum16;
  }

  lemma TransportFieldsFootprint(b: seq<byte>, p: ParsedFrame, i: nat)
    requires HoldsHeaders(b, p) && i < |b|
    requires var l4 := p.l4.value;
             && !(l4.headerStart + SumField(l4.proto) <= i < l4.headerStart + SumField(l4.proto) + 2)
             && !(l4.proto == Udp && l4.headerStart + 4 <= i < l4.headerStart + 6)
    ensures SetTransportFields(b, p)[i] == b[i]
  {
    hide Put16, U16At, Checksum16, PseudoHeader;
  }

  /** Outside those fields the truncated frame is a prefix of the original, for every header length. */
  lemma EditFootprint(p: ParsedFrame, i: nat)
    requires Cuttable(p) && i < |Edited(p)| && !InFootprint(p, i)
    ensures Edited(p)[i] == p.frame[i]
  {
    hide SetIpFields, SetTransportFields;
    var cut := p.frame[..p.l4.value.payloadStart + TRUNCATE_PAYLOAD_BYTES];
    IpFieldsFootprint(cut, p, i);
    TransportFieldsFootprint(SetIpFields(cut, p), p, i);
  }

  // ---------------------------------------------------------------- length fields

  lemma IpLengthSet(b: seq<byte>, p: ParsedFrame)
    requires HoldsHeaders(b, p)
    ensures p.isIpv6 ==> U16At(SetIpFields(b, p), p.ipStart + 4) == Low16(|b| - p.ipStart - IP6_HDR)
    ensures !p.isIpv6 ==> U16At(SetIpFields(b, p), p.ipStart + 2) == |b| - p.ipStart
  {
    hide Put16, Checksum16;
    if p.isIpv6 {
      Put16Reads(b, p.ipStart + 4, Low16(|b| - p.ipStart - IP6_HDR));
    } else {
      Put16Reads(b, p.ipStart + 2, Low16(|b| - p.ipStart));
    }
  }

  lemma TransportSumFootprint(b: seq<byte>, p: ParsedFrame, i: nat)
    requires HoldsHeaders(b, p) && i < |b|
    requires var at := p.l4.value.headerStart + SumField(p.l4.value.proto); !(at <= i < at + 2)
    ensures var l4 := p.l4.value;
            SetTransportSum(b, p.ipStart, p.ipHeaderLen, p.isIpv6, l4.proto, l4.headerStart)[i] == b[i]
  {
    hide Put16, U16At, Checksum16, PseudoHeader;
  }

  lemma UdpLengthSet(b: seq<byte>, p: ParsedFrame)
    requires HoldsHeaders(b, p) && p.l4.value.proto == Udp
    ensures U16At(SetTransportFields(b, p), p.l4.value.headerStart + 4) == |b| - p.l4.value.headerStart
  {
    hide Put16, SetTransportSum;
    var l4 := p.l4.value;
    var c := Put16(b, l4.headerStart + 4, l4.headerLen + TRUNCATE_PAYLOAD_BYTES);
    Put16Reads(b, l4.headerStart + 4, l4.headerLen + TRUNCATE_PAYLOAD_BYTES);
    TransportSumFootprint(c, p, l4.headerStart + 4);
    TransportSumFootprint(c, p, l4.headerStart + 5);
  }

  /** The repaired length fields name the real sizes (the IPv6 one modulo its 16 bits), for every IHL. */
  lemma LengthsRepaired(p: ParsedFrame)
    requires Cuttable(p)
    ensures p.isIpv6 ==> U16At(Edited(p), p.ipStart + 4) == (|Edited(p)| - p.ipStart - 40) % 0x1_0000
    ensures !p.isIpv6 ==> U16At(Edited(p), p.ipStart + 2) == |Edited(p)| - p.ipStart
  {
    hide SetIpFields, SetTransportFields;
    var cut := p.frame[..p.l4.value.payloadStart + TRUNCATE_PAYLOAD_BYTES];
    var mid := SetIpFields(cut, p);
    IpLengthSet(cut, p);
    var at := p.ipStart + if p.isIpv6 then 4 else 2;
    TransportFieldsFootprint(mid, p, at);
    TransportFieldsFootprint(mid, p, at + 1);
  }

  lemma UdpLengthRepaired(p: ParsedFrame)
    requires Cuttable(p) && p.l4.value.proto == Udp
    ensures U16At(Edited(p), p.l4.value.headerStart + 4) == |Edited(p)| - p.l4.value.headerStart
  {
    hide SetIpFields, SetTransportFields;
    UdpLengthSet(SetIpFields(p.frame[..p.l4.value.payloadStart + TRUNCATE_PAYLOAD_BYTES], p), p);
  }

  // ---------------------------------------------------------------- checksums

  predicate Agree(a: seq<byte>, b: seq<byte>, lo: nat, hi: nat)
    requires hi <= |a| && hi <= |b|
  {
    forall i :: lo <= i < hi ==> a[i] == b[i]
  }

  lemma {:induction false} FirstRouteSame(a: seq<byte>, b: seq<byte>, i: nat, end: nat)
    requires end <= |a| && end <= |b| && Agree(a, b, i, end)
    ensures FirstRoute(a, i, end) == FirstRoute(b, i, end)
    decreases end - Min(i, end)
  {
    if OptionAt(a, i, end) {
      FirstRouteSame(a, b, i + a[i + 1], end);
    }
  }

  /** Whatever follows the IPv4 header, the destination used for the pseudo-header stays the same. */
  lemma PseudoDstSame(a: seq<byte>, b: seq<byte>, ipStart: nat, ipHeaderLen: nat)
    requires HasIpv4Header(a, ipStart, ipHeaderLen) && HasIpv4Header(b, ipStart, ipHeaderLen)
    requires Agree(a, b, ipStart + 12, ipStart + 20) && Agree(a, b, ipStart + 20, ipStart + ipHeaderLen)
    ensures PseudoDst(a, ipStart, ipHeaderLen) == PseudoDst(b, ipStart, ipHeaderLen)
  {
    hide FirstRoute;
    FirstRouteSame(a, b, ipStart + 20, ipStart + ipHeaderLen);
    FirstRouteBounds(a, ipStart + 20, ipStart + ipHeaderLen);
    match FirstRoute(a, ipStart + 20, ipStart + ipHeaderLen) {
      case Some(i) =>
        assert a[i + 1] == b[i + 1];
        assert a[i + a[i + 1] - 4..i + a[i + 1]] == b[i + b[i + 1] - 4..i + b[i + 1]];
      case None =>
        assert a[ipStart + 16..ipStart + 20] == b[ipStart + 16..ipStart + 20];
    }
  }

  /** `a` and `b` hold the same addresses, source-route options included. */
  predicate SameAddresses(a: seq<byte>, b: seq<byte>, p: ParsedFrame)
    requires HasAddresses(a, p.ipStart, p.ipHeaderLen, p.isIpv6) && HasAddresses(b, p.ipStart, p.ipHeaderLen, p.isIpv6)
  {
    if p.isIpv6 then Agree(a, b, p.ipStart + 8, p.ipStart + 40)
    else Agree(a, b, p.ipStart + 12, p.ipStart + 20) && Agree(a, b, p.ipStart + 20, p.ipStart + p.ipHeaderLen)
  }

  lemma PseudoHeaderSame(a: seq<byte>, b: seq<byte>, p: ParsedFrame, proto: L4Proto, len: nat)
    requires HasAddresses(a, p.ipStart, p.ipHeaderLen, p.isIpv6) && HasAddresses(b, p.ipStart, p.ipHeaderLen, p.isIpv6)
    requires SameAddresses(a, b, p)
    ensures PseudoHeader(a, p.ipStart, p.ipHeaderLen, p.isIpv6, proto, len)
         == PseudoHeader(b, p.ipStart, p.ipHeaderLen, p.isIpv6, proto, len)
  {
    hide PseudoV4, PseudoV6, PseudoDst;
    if p.isIpv6 {
      assert a[p.ipStart + 8..p.ipStart + 24] == b[p.ipStart + 8..p.ipStart + 24];
      assert a[p.ipStart + 24..p.ipStart + 40] == b[p.ipStart + 24..p.ipStart + 40];
    } else {
      PseudoDstSame(a, b, p.ipStart, p.ipHeaderLen);
      assert a[p.ipStart + 12..p.ipStart + 16] == b[p.ipStart + 12..p.ipStart + 16];
    }
  }

  lemma Put16Slice(b: seq<byte>, lo: nat, hi: nat, i: nat, v: u16)
    requires lo <= i && i + 1 < hi <= |b|
    ensures Put16(b, i, v)[lo..hi] == Put16(b[lo..hi], i - lo, v)
  {
  }

  lemma Ipv4SumVerifies(b: seq<byte>, ipStart: nat, ipHeaderLen: nat)
    requires HasIpv4Header(b, ipStart, ipHeaderLen) && 12 <= ipHeaderLen
    ensures Verifies(SetIpv4Sum(b, ipStart, ipHeaderLen)[ipStart..ipStart + ipHeaderLen])
  {
    hide Put16, Checksum16, Verifies;
    var z := Put16(b, ipStart + 10, 0);
    Put16Reads(b, ipStart + 10, 0);
    var header := z[ipStart..ipStart + ipHeaderLen];
    var c := Checksum16(header);
    Put16Slice(z, ipStart, ipStart + ipHeaderLen, ipStart + 10, c);
    assert U16At(header, 10) == U16At(z, ipStart + 10);
    assert [] + header == header;
    InsertVerifies([], header, 10, c);
    assert [] + Put16(header, 10, c) == Put16(header, 10, c);
  }

  /** The transport segment of `b` with the pseudo-header read from `b`, as a receiver sums it. */
  function Covered(b: seq<byte>, p: ParsedFrame): seq<byte>
    requires HoldsHeaders(b, p)
  {
    PseudoHeader(b, p.ipStart, p.ipHeaderLen, p.isIpv6, p.l4.value.proto, |b| - p.l4.value.headerStart)
      + b[p.l4.value.headerStart..]
  }

  /** Storing the checksum of `ph` and the tail of `z` into that tail makes both together verify. */
  lemma StoredSumVerifies(ph: seq<byte>, z: seq<byte>, start: nat, field: nat, c: u16)
    requires |ph| % 2 == 0 && field % 2 == 0 && start + field + 2 <= |z| && U16At(z, start + field) == 0
    requires c == Checksum16(ph + z[start..]) || (Checksum16(ph + z[start..]) == 0 && c == 0xffff)
    ensures Verifies(ph + Put16(z, start + field, c)[start..])
  {
    hide Put16, Checksum16, Verifies;
    var segment := z[start..];
    assert z[start..|z|] == segment;
    assert U16At(segment, field) == 0;
    InsertVerifies(ph, segment, field, c);
    Put16Slice(z, start, |z|, start + field, c);
    assert Put16(z, start + field, c)[start..|z|] == Put16(z, start + field, c)[start..];
  }

  /** Where the transport checksum is stored. */
  function SumAt(p: ParsedFrame): nat
    requires p.l4.Some?
  {
    p.l4.value.headerStart + SumField(p.l4.value.proto)
  }

  /** The truncated frame just before its transport checksum: lengths and IPv4 checksum stored, the field zero. */
  function Unsummed(p: ParsedFrame): (z: seq<byte>)
    requires Cuttable(p)
    ensures HoldsHeaders(z, p)
  {
    var l4 := p.l4.value;
    var mid := SetIpFields(p.frame[..l4.payloadStart + TRUNCATE_PAYLOAD_BYTES], p);
    var sized := if l4.proto == Tcp then mid else Put16(mid, l4.headerStart + 4, l4.headerLen + TRUNCATE_PAYLOAD_BYTES);
    Put16(sized, SumAt(p), 0)
  }

  /** The transport checksum a cut stores. */
  function NewSum(p: ParsedFrame): u16
    requires Cuttable(p)
  {
    var sum := Checksum16(Covered(Unsummed(p), p));
    if p.l4.value.proto == Tcp then sum else UdpChecksumWire(sum)
  }

  lemma EditedIsSummed(p: ParsedFrame)
    requires Cuttable(p)
    ensures Edited(p) == Put16(Unsummed(p), SumAt(p), NewSum(p))
  {
    hide Put16, Checksum16, PseudoHeader, SetIpFields;
  }

  lemma UnsummedFieldZero(p: ParsedFrame)
    requires Cuttable(p)
    ensures U16At(Unsummed(p), SumAt(p)) == 0
  {
    hide Put16, SetIpFields, U16At;
    var l4 := p.l4.value;
    var mid := SetIpFields(p.frame[..l4.payloadStart + TRUNCATE_PAYLOAD_BYTES], p);
    var sized := if l4.proto == Tcp then mid else Put16(mid, l4.headerStart + 4, l4.headerLen + TRUNCATE_PAYLOAD_BYTES);
    Put16Reads(sized, SumAt(p), 0);
  }

  /** With so short an IPv4 header the transport checksum lies inside the addresses the code sums. */
  predicate SumInAddresses(p: ParsedFrame)
    requires p.l4.Some?
  {
    !p.isIpv6 && if p.l4.value.proto == Tcp then p.ipHeaderLen == 0 else p.ipHeaderLen == 8 || p.ipHeaderLen == 12
  }

  /** Elsewhere storing a checksum does not move the pseudo-header. */
  lemma SumOutsideAddresses(z: seq<byte>, p: ParsedFrame, c: u16)
    requires HoldsHeaders(z, p) && !SumInAddresses(p)
    ensures SameAddresses(z, Put16(z, SumAt(p), c), p)
  {
    hide Hi, Lo;
  }

  /** Inside the addresses the stored checksum is summed twice. */
  lemma SumCountedTwice(z: seq<byte>, p: ParsedFrame, c: u16)
    requires HoldsHeaders(z, p) && SumInAddresses(p) && U16At(z, SumAt(p)) == 0
    ensures 0 < WordSum(Covered(z, p))
    ensures WordSum(Covered(Put16(z, SumAt(p), c), p)) == WordSum(Covered(z, p)) + 2 * c
  {
    hide Put16, U16At, WordSum;
    var l4, lo, at := p.l4.value, p.ipStart + 12, SumAt(p);
    var y := Put16(z, at, c);
    var last: seq<byte> := [0, ProtoByte(l4.proto), Hi(Low16(|z| - l4.headerStart)), Lo(Low16(|z| - l4.headerStart))];
    CoveredParts(z, p, last);
    CoveredParts(y, p, last);
    Put16Slice(z, lo, lo + 8, at, c);
    Put16Slice(z, l4.headerStart, |z|, at, c);
    assert y[l4.headerStart..|y|] == y[l4.headerStart..] && z[l4.headerStart..|z|] == z[l4.headerStart..];
    assert U16At(z[lo..lo + 8], at - lo) == 0 == U16At(z[l4.headerStart..], at - l4.headerStart) by {
      SliceReads(z, lo, lo + 8, at);
      SliceReads(z, l4.headerStart, |z|, at);
    }
    WordSumPut(z[lo..lo + 8], at - lo, c);
    WordSumPut(z[l4.headerStart..], at - l4.headerStart, c);
    WordSumOfFour(last);
  }

  lemma SliceReads(b: seq<byte>, lo: nat, hi: nat, i: nat)
    requires lo <= i && i + 1 < hi <= |b|
    ensures U16At(b[lo..hi], i - lo) == U16At(b, i)
  {
  }

  lemma WordSumOfFour(last: seq<byte>)
    requires |last| == 4 && 0 < last[1]
    ensures 0 < WordSum(last)
  {
  }

  /** With a short header the addresses are the eight bytes behind offset 12, with no option to replace them. */
  lemma CoveredParts(b: seq<byte>, p: ParsedFrame, last: seq<byte>)
    requires HoldsHeaders(b, p) && SumInAddresses(p)
    requires var l4 := p.l4.value;
             last == [0, ProtoByte(l4.proto), Hi(Low16(|b| - l4.headerStart)), Lo(Low16(|b| - l4.headerStart))]
    ensures p.ipStart + 20 <= |b|
    ensures WordSum(Covered(b, p))
         == WordSum(b[p.ipStart + 12..p.ipStart + 20]) + WordSum(last) + WordSum(b[p.l4.value.headerStart..])
  {
    hide WordSum, Hi, Lo, Low16;
    var lo := p.ipStart + 12;
    var ph := b[lo..lo + 8] + last;
    assert PseudoDst(b, p.ipStart, p.ipHeaderLen) == b[lo + 4..lo + 8];
    assert b[lo..lo + 8] == b[lo..lo + 4] + b[lo + 4..lo + 8];
    assert Covered(b, p) == ph + b[p.l4.value.headerStart..];
    WordSumConcat(b[lo..lo + 8], last);
    WordSumConcat(ph, b[p.l4.value.headerStart..]);
  }

  /** Counted twice, a complement verifies only as zero or as the 0xffff that stands for zero. */
  lemma DoubleComplement(n: nat, c: u16)
    requires 0 < n
    requires c == 65535 - Residue(n) || (Residue(n) == 65535 && c == 0xffff)
    ensures Residue(n + 2 * c) == 0xffff <==> Residue(n) == 0xffff
  {
    ResidueOfResidue(n);
    var k: nat :| n == Residue(n) + 65535 * k;
    if Residue(n) == 65535 {
      ResidueStep(65535, k);
      ResidueStep(65535, k + 2);
    } else {
      ResidueStep(65535 - Residue(n), k + 1);
      assert n + 2 * c == 65535 - Residue(n) + 65535 * (k + 1);
    }
  }

  // ---------------------------------------------------------------- when both checksums verify

  /** The frame was parsed to `p` and can be cut. */
  predicate ParsedAndCuttable(p: ParsedFrame) {
    Layout(p.frame) == Ok(p) && Cuttable(p)
  }

  /** The IPv4 total length a cut stores. */
  function NewTotal(p: ParsedFrame): u16
    requires p.l4.Some? && WellPlaced(p) && !p.isIpv6
  {
    p.l4.value.payloadStart + TRUNCATE_PAYLOAD_BYTES - p.ipStart
  }

  /** The header checksum a cut stores for a two-word IPv4 header, whose own checksum field lies behind it. */
  function TwoWordHeaderSum(p: ParsedFrame): u16
    requires p.l4.Some? && WellPlaced(p) && !p.isIpv6
  {
    Checksum16(Put16(p.frame[p.ipStart..p.ipStart + 8], 2, NewTotal(p)))
  }

  lemma TwoWordHeader(p: ParsedFrame)
    requires Cuttable(p) && !p.isIpv6 && p.ipHeaderLen == 8
    ensures Edited(p)[p.ipStart..p.ipStart + 8] == Put16(p.frame[p.ipStart..p.ipStart + 8], 2, NewTotal(p))
    ensures U16At(Edited(p), p.ipStart + 10) == TwoWordHeaderSum(p)
  {
    hide Put16, Checksum16, SetTransportFields, U16At;
    var ip := p.ipStart;
    var cut := p.frame[..p.l4.value.payloadStart + TRUNCATE_PAYLOAD_BYTES];
    var sized, mid := Put16(cut, ip + 2, NewTotal(p)), SetIpFields(cut, p);
    var z := Put16(sized, ip + 10, 0);
    Put16Slice(cut, ip, ip + 8, ip + 2, NewTotal(p));
    assert cut[ip..ip + 8] == p.frame[ip..ip + 8];
    assert z[ip..ip + 8] == sized[ip..ip + 8];
    Put16Reads(z, ip + 10, TwoWordHeaderSum(p));
    assert mid == Put16(z, ip + 10, TwoWordHeaderSum(p));
    forall i | ip <= i < ip + 12
      ensures Edited(p)[i] == mid[i]
    {
      TransportFieldsFootprint(mid, p, i);
    }
    assert Edited(p)[ip..ip + 8] == mid[ip..ip + 8] == z[ip..ip + 8];
    SameWord(Edited(p), mid, ip + 10);
  }

  lemma SameWord(a: seq<byte>, b: seq<byte>, i: nat)
    requires i + 1 < |a| && i + 1 < |b| && a[i] == b[i] && a[i + 1] == b[i + 1]
    ensures U16At(a, i) == U16At(b, i)
  {
  }

  /** A header of one word holds no checksum and its two half-words never add up to all ones. */
  lemma OneWordHeader(p: ParsedFrame)
    requires ParsedAndCuttable(p) && !p.isIpv6 && p.ipHeaderLen == 4
    ensures !Verifies(Edited(p)[p.ipStart..p.ipStart + 4])
  {
    hide Edited, TagWalk, ChainWalk, ParseTcp, ParseUdp;
    var header := Edited(p)[p.ipStart..p.ipStart + 4];
    EditFootprint(p, p.ipStart);
    LengthsRepaired(p);
    assert header[0] == 0x41;
    assert U16At(header, 2) == NewTotal(p);
    assert header[2..] == [header[2], header[3]];
    assert WordSum(header[2..]) == Be16(header[2], header[3]) + WordSum(header[2..][2..]);
    assert WordSum(header) == Be16(header[0], header[1]) + Be16(header[2], header[3]);
  }

  lemma LongHeaderVerifies(p: ParsedFrame)
    requires Cuttable(p) && !p.isIpv6 && 12 <= p.ipHeaderLen
    ensures Verifies(Edited(p)[p.ipStart..p.ipStart + p.ipHeaderLen])
  {
    hide SetIpv4Sum, SetTransportSum, Put16, Verifies;
    var cut := p.frame[..p.l4.value.payloadStart + TRUNCATE_PAYLOAD_BYTES];
    var mid := SetIpFields(cut, p);
    Ipv4SumVerifies(Put16(cut, p.ipStart + 2, Low16(|cut| - p.ipStart)), p.ipStart, p.ipHeaderLen);
    forall i | p.ipStart <= i < p.ipStart + p.ipHeaderLen
      ensures Edited(p)[i] == mid[i]
    {
      TransportFieldsFootprint(mid, p, i);
    }
    assert Edited(p)[p.ipStart..p.ipStart + p.ipHeaderLen] == mid[p.ipStart..p.ipStart + p.ipHeaderLen];
  }

  /**
   When the IPv4 header of a truncated frame verifies at a receiver: always from IHL 3 up, where the header
   holds its checksum field; never for IHL 0 and 1; and for IHL 2 only if the words sum to all ones by themselves.
   */
  lemma HeaderSumValid(p: ParsedFrame)
    requires ParsedAndCuttable(p) && !p.isIpv6
    ensures Verifies(Edited(p)[p.ipStart..p.ipStart + p.ipHeaderLen]) <==>
              12 <= p.ipHeaderLen || (p.ipHeaderLen == 8 && TwoWordHeaderSum(p) == 0)
  {
    hide Edited, Layout, WordSum, Put16, Residue, ParsedAndCuttable;
    assert Cuttable(p) by {
      CuttableOf(p);
    }
    if 12 <= p.ipHeaderLen {
      LongHeaderVerifies(p);
    } else if p.ipHeaderLen == 8 {
      TwoWordHeader(p);
    } else if p.ipHeaderLen == 4 {
      OneWordHeader(p);
    } else {
      EmptyNeverVerifies(Edited(p)[p.ipStart..p.ipStart]);
    }
  }

  lemma CuttableOf(p: ParsedFrame)
    requires ParsedAndCuttable(p)
    ensures Cuttable(p)
  {
  }

  lemma EmptyNeverVerifies(d: seq<byte>)
    requires d == []
    ensures !Verifies(d)
  {
  }

  /** The checksum of no bytes at all is 0xffff. */
  lemma EmptyHeaderSum(p: ParsedFrame)
    requires Cuttable(p) && !p.isIpv6 && p.ipHeaderLen == 0
    ensures p.ipStart + 12 <= |Edited(p)| && U16At(Edited(p), p.ipStart + 10) == 0xffff
  {
    hide Put16, SetTransportFields, U16At;
    var ip := p.ipStart;
    var cut := p.frame[..p.l4.value.payloadStart + TRUNCATE_PAYLOAD_BYTES];
    var mid := SetIpFields(cut, p);
    var z := Put16(Put16(cut, ip + 2, Low16(|cut| - ip)), ip + 10, 0);
    assert z[ip..ip + 0] == [];
    Put16Reads(z, ip + 10, 0xffff);
    TransportFieldsFootprint(mid, p, ip + 10);
    TransportFieldsFootprint(mid, p, ip + 11);
    SameWord(Edited(p), mid, ip + 10);
  }

  // ---------------------------------------------------------------- the covered words, from the original frame

  /** The first 24 bytes of the payload. */
  function KeptBytes(p: ParsedFrame): seq<byte>
    requires Cuttable(p)
  {
    p.frame[p.l4.value.payloadStart..p.l4.value.payloadStart + TRUNCATE_PAYLOAD_BYTES]
  }

  /** UDP behind three IPv4 header words: its ports and length are the addresses, so they are summed twice. */
  function ThreeWordUdp(p: ParsedFrame): nat
    requires Cuttable(p) && !p.isIpv6 && p.ipHeaderLen == 12 && p.l4.value.proto == Udp
  {
    var at := p.l4.value.headerStart;
    2 * (U16At(p.frame, at) + U16At(p.frame, at + 2) + 32) + 49 + WordSum(KeptBytes(p))
  }

  /**
   UDP behind two IPv4 header words: its length and the first four payload bytes are the addresses, and its
   destination port has become the IPv4 checksum.
   */
  function TwoWordUdp(p: ParsedFrame): nat
    requires Cuttable(p) && !p.isIpv6 && p.ipHeaderLen == 8 && p.l4.value.proto == Udp
  {
    U16At(p.frame, p.l4.value.headerStart) + TwoWordHeaderSum(p) + 2 * 32 + 49
      + WordSum(KeptBytes(p)[..4]) + WordSum(KeptBytes(p))
  }

  /**
   TCP over an IPv4 header of no words: both start at the same byte, the addresses are the words of the TCP header
   from its data offset on, and the header also holds the new total length and an IPv4 checksum of 0xffff.
   */
  function NoWordTcp(p: ParsedFrame): nat
    requires Cuttable(p) && !p.isIpv6 && p.ipHeaderLen == 0 && p.l4.value.proto == Tcp
  {
    var f, ip := p.frame, p.ipStart;
    U16At(f, ip) + U16At(f, ip + 4) + U16At(f, ip + 6) + U16At(f, ip + 8)
      + 2 * (U16At(f, ip + 12) + U16At(f, ip + 14) + U16At(f, ip + 18))
      + 2 * NewTotal(p) + 0xffff + 6 + WordSum(f[ip + 20..ip + NewTotal(p)])
  }

  /** What the transport checksum adds up where it lies inside the addresses, in words of the frame before the cut. */
  function CoveredWords(p: ParsedFrame): nat
    requires Cuttable(p) && SumInAddresses(p)
  {
    if p.l4.value.proto == Tcp then NoWordTcp(p)
    else if p.ipHeaderLen == 8 then TwoWordUdp(p)
    else ThreeWordUdp(p)
  }

  lemma WordSumRange(b: seq<byte>, lo: nat, mid: nat, hi: nat)
    requires lo <= mid <= hi <= |b| && (mid - lo) % 2 == 0
    ensures WordSum(b[lo..hi]) == WordSum(b[lo..mid]) + WordSum(b[mid..hi])
  {
    hide WordSum;
    WordSumConcat(b[lo..mid], b[mid..hi]);
    assert b[lo..mid] + b[mid..hi] == b[lo..hi];
  }

  lemma WordSumOfWord(b: seq<byte>, lo: nat)
    requires lo + 2 <= |b|
    ensures WordSum(b[lo..lo + 2]) == U16At(b, lo)
  {
    assert b[lo..lo + 2][2..] == [];
  }

  lemma WordSumOfEight(b: seq<byte>, lo: nat)
    requires lo + 8 <= |b|
    ensures WordSum(b[lo..lo + 8]) == U16At(b, lo) + U16At(b, lo + 2) + U16At(b, lo + 4) + U16At(b, lo + 6)
  {
    hide WordSum, U16At;
    WordSumRange(b, lo, lo + 2, lo + 8);
    WordSumRange(b, lo + 2, lo + 4, lo + 8);
    WordSumRange(b, lo + 4, lo + 6, lo + 8);
    WordSumOfWord(b, lo);
    WordSumOfWord(b, lo + 2);
    WordSumOfWord(b, lo + 4);
    WordSumOfWord(b, lo + 6);
  }

  /** Apart from the checksum field the frame already reads as it will after the cut. */
  lemma UnsummedReads(p: ParsedFrame, i: nat)
    requires Cuttable(p) && i + 1 < |Edited(p)| && (i + 1 < SumAt(p) || SumAt(p) + 1 < i)
    ensures U16At(Unsummed(p), i) == U16At(Edited(p), i)
    ensures !InFootprint(p, i) && !InFootprint(p, i + 1) ==> U16At(Unsummed(p), i) == U16At(p.frame, i)
  {
    hide Unsummed, Edited, NewSum, U16At, Hi, Lo;
    EditedIsSummed(p);
    SameWord(Unsummed(p), Edited(p), i);
    if !InFootprint(p, i) && !InFootprint(p, i + 1) {
      EditFootprint(p, i);
      EditFootprint(p, i + 1);
      SameWord(Edited(p), p.frame, i);
    }
  }

  lemma UnsummedSlice(p: ParsedFrame, lo: nat, hi: nat)
    requires Cuttable(p) && lo <= hi <= |Edited(p)|
    requires forall i :: lo <= i < hi ==> !InFootprint(p, i)
    ensures Unsummed(p)[lo..hi] == p.frame[lo..hi]
  {
    hide Unsummed, Edited, NewSum, Hi, Lo;
    EditedIsSummed(p);
    forall i | lo <= i < hi
      ensures Unsummed(p)[i] == p.frame[i]
    {
      EditFootprint(p, i);
    }
  }

  lemma CoveredSplit(p: ParsedFrame)
    requires Cuttable(p) && SumInAddresses(p)
    ensures
      var z, l4 := Unsummed(p), p.l4.value;
      && p.ipStart + 20 <= |z|
      && WordSum(Covered(z, p)) == WordSum(z[p.ipStart + 12..p.ipStart + 20]) + WordSum(z[l4.headerStart..|z|])
                                    + ProtoByte(l4.proto) + l4.headerLen + TRUNCATE_PAYLOAD_BYTES
  {
    hide WordSum, Unsummed, Hi, Lo, Low16, Covered, PseudoHeader, U16At;
    var z, at := Unsummed(p), p.l4.value.headerStart;
    var last: seq<byte> := [0, ProtoByte(p.l4.value.proto), Hi(Low16(|z| - at)), Lo(Low16(|z| - at))];
    WordSumOfEnd(last, |z| - at);
    CoveredParts(z, p, last);
    assert z[at..|z|] == z[at..];
  }

  lemma WordSumOfEnd(last: seq<byte>, len: nat)
    requires |last| == 4 && last[0] == 0 && len < 0x1_0000 && last[2] == Hi(Low16(len)) && last[3] == Lo(Low16(len))
    ensures WordSum(last) == last[1] + len
  {
    assert last == last[0..4];
    WordSumRange(last, 0, 2, 4);
    WordSumOfWord(last, 0);
    WordSumOfWord(last, 2);
    U16Stored(last, 2, len);
    hide WordSum;
  }

  lemma UdpWords(p: ParsedFrame)
    requires Cuttable(p) && SumInAddresses(p) && p.l4.value.proto == Udp
    ensures
      var z, at, ps := Unsummed(p), p.l4.value.headerStart, p.l4.value.payloadStart;
      && at + 8 == ps && |z| == ps + 24 && |p.frame| >= |z|
      && U16At(z, at) == U16At(p.frame, at)
      && U16At(z, at + 2) == (if p.ipHeaderLen == 8 then TwoWordHeaderSum(p) else U16At(p.frame, at + 2))
      && U16At(z, at + 4) == 32 && U16At(z, at + 6) == 0
      && z[ps..|z|] == KeptBytes(p)
  {
    hide Unsummed, Edited, U16At, TwoWordHeaderSum;
    var at, ps := p.l4.value.headerStart, p.l4.value.payloadStart;
    UnsummedReads(p, at);
    UnsummedReads(p, at + 2);
    UnsummedReads(p, at + 4);
    UnsummedFieldZero(p);
    UdpLengthRepaired(p);
    UnsummedSlice(p, ps, ps + 24);
    if p.ipHeaderLen == 8 {
      TwoWordHeader(p);
    }
  }

  lemma WordSumOfUdp(z: seq<byte>, at: nat)
    requires at + 12 <= |z|
    ensures WordSum(z[at..|z|])
         == U16At(z, at) + U16At(z, at + 2) + U16At(z, at + 4) + U16At(z, at + 6) + WordSum(z[at + 8..|z|])
    ensures WordSum(z[at + 4..at + 12]) == U16At(z, at + 4) + U16At(z, at + 6) + WordSum(z[at + 8..|z|][..4])
  {
    hide WordSum, U16At;
    WordSumRange(z, at, at + 8, |z|);
    WordSumOfEight(z, at);
    WordSumRange(z, at + 4, at + 6, at + 12);
    WordSumRange(z, at + 6, at + 8, at + 12);
    WordSumOfWord(z, at + 4);
    WordSumOfWord(z, at + 6);
    assert z[at + 8..|z|][..4] == z[at + 8..at + 12];
  }

  lemma ThreeWordCovered(p: ParsedFrame)
    requires Cuttable(p) && !p.isIpv6 && p.ipHeaderLen == 12 && p.l4.value.proto == Udp
    ensures WordSum(Covered(Unsummed(p), p)) == ThreeWordUdp(p)
  {
    hide WordSum, Covered, Unsummed, U16At, KeptBytes;
    UdpWords(p);
    CoveredSplit(p);
    WordSumOfUdp(Unsummed(p), p.l4.value.headerStart);
    WordSumOfEight(Unsummed(p), p.l4.value.headerStart);
  }

  lemma TwoWordCovered(p: ParsedFrame)
    requires Cuttable(p) && !p.isIpv6 && p.ipHeaderLen == 8 && p.l4.value.proto == Udp
    ensures WordSum(Covered(Unsummed(p), p)) == TwoWordUdp(p)
  {
    hide WordSum, Covered, Unsummed, U16At, KeptBytes, TwoWordHeaderSum;
    UdpWords(p);
    CoveredSplit(p);
    WordSumOfUdp(Unsummed(p), p.l4.value.headerStart);
  }

  lemma NoWordCovered(p: ParsedFrame)
    requires Cuttable(p) && !p.isIpv6 && p.ipHeaderLen == 0 && p.l4.value.proto == Tcp
    ensures WordSum(Covered(Unsummed(p), p)) == NoWordTcp(p)
  {
    hide WordSum, Covered, Unsummed, Edited, U16At;
    var ip := p.ipStart;
    CoveredSplit(p);
    WordSumOfTcp(Unsummed(p), ip);
    UnsummedReads(p, ip);
    UnsummedReads(p, ip + 2);
    UnsummedReads(p, ip + 4);
    UnsummedReads(p, ip + 6);
    UnsummedReads(p, ip + 8);
    UnsummedReads(p, ip + 10);
    UnsummedReads(p, ip + 12);
    UnsummedReads(p, ip + 14);
    UnsummedReads(p, ip + 18);
    UnsummedSlice(p, ip + 20, |Edited(p)|);
    UnsummedFieldZero(p);
    LengthsRepaired(p);
    EmptyHeaderSum(p);
  }

  lemma WordSumOfTcp(z: seq<byte>, at: nat)
    requires at + 20 <= |z|
    ensures WordSum(z[at..|z|])
         == U16At(z, at) + U16At(z, at + 2) + U16At(z, at + 4) + U16At(z, at + 6) + U16At(z, at + 8)
              + U16At(z, at + 10) + WordSum(z[at + 12..at + 20]) + WordSum(z[at + 20..|z|])
    ensures WordSum(z[at + 12..at + 20])
         == U16At(z, at + 12) + U16At(z, at + 14) + U16At(z, at + 16) + U16At(z, at + 18)
  {
    hide WordSum, U16At;
    WordSumRange(z, at, at + 8, |z|);
    WordSumRange(z, at + 8, at + 10, |z|);
    WordSumRange(z, at + 10, at + 12, |z|);
    WordSumRange(z, at + 12, at + 20, |z|);
    WordSumOfEight(z, at);
    WordSumOfWord(z, at + 8);
    WordSumOfWord(z, at + 10);
    WordSumOfEight(z, at + 12);
  }

  /** Where the checksum lies inside the addresses, the words it covers are these of the original frame. */
  lemma CoveredFromFrame(p: ParsedFrame)
    requires Cuttable(p) && SumInAddresses(p)
    ensures WordSum(Covered(Unsummed(p), p)) == CoveredWords(p) && 0 < CoveredWords(p)
  {
    hide Covered, Unsummed, WordSum;
    if p.l4.value.proto == Tcp {
      NoWordCovered(p);
    } else if p.ipHeaderLen == 8 {
      TwoWordCovered(p);
    } else {
      ThreeWordCovered(p);
    }
  }

  lemma FullResidue(n: nat)
    requires 0 < n
    ensures Residue(n) == 0xffff <==> n % 65535 == 0
  {
    ResidueOfResidue(n);
    var k: nat :| n == Residue(n) + 65535 * k;
    assert (n - 1) % 65535 == Residue(n) - 1;
  }

  /** Whether a stored field `x` is the complement of `n` words, where 0xffff (TCP) or zero (UDP) is never sent. */
  lemma StoredComplement(n: nat, x: u16, udp: bool)
    requires 0 < n
    ensures var c: u16 := 65535 - Residue(n);
            x == (if udp then UdpChecksumWire(c) else c) <==> (x + n) % 65535 == 0 && x != (if udp then 0 else 0xffff)
  {
    ResidueOfResidue(n);
    var k: nat :| n == Residue(n) + 65535 * k;
    assert (x + n) % 65535 == (x + Residue(n)) % 65535;
  }

  /**
   When the transport segment verifies with the pseudo-header the code sums, zero sent as 0xffff included:
   always, unless the checksum lies inside the addresses; then exactly if the words it covers are a
   multiple of 65535.
   */
  lemma TransportSumValid(p: ParsedFrame)
    requires Cuttable(p)
    ensures Verifies(Covered(Edited(p), p)) <==> (SumInAddresses(p) ==> CoveredWords(p) % 65535 == 0)
  {
    hide Edited, Unsummed, Put16, U16At, WordSum, Residue, SumInAddresses, PseudoHeader, SameAddresses, CoveredWords;
    EditedIsSummed(p);
    UnsummedFieldZero(p);
    var z, c, l4 := Unsummed(p), NewSum(p), p.l4.value;
    var len := |z| - l4.headerStart;
    if SumInAddresses(p) {
      CoveredFromFrame(p);
      FullResidue(CoveredWords(p));
      SumCountedTwice(z, p, c);
      DoubleComplement(WordSum(Covered(z, p)), c);
    } else {
      SumOutsideAddresses(z, p, c);
      PseudoHeaderSame(z, Edited(p), p, l4.proto, len);
      var ph := PseudoHeader(z, p.ipStart, p.ipHeaderLen, p.isIpv6, l4.proto, len);
      StoredSumVerifies(ph, z, l4.headerStart, SumField(l4.proto), c);
    }
  }

  /**
   When a receiver accepts both checksums of a truncated frame: for IPv6, for IPv4 from IHL 4 up and with TCP
   from IHL 3 up always; for UDP with IHL 3 and for IHL 2 exactly if the words concerned add up to zero
   modulo 65535; never for IHL 0 and 1.
   */
  lemma ChecksumsValid(p: ParsedFrame)
    requires ParsedAndCuttable(p)
    ensures
      var e, udp := Edited(p), p.l4.value.proto == Udp;
      && Verifies(Covered(e, p))
      && (!p.isIpv6 ==> Verifies(e[p.ipStart..p.ipStart + p.ipHeaderLen]))
      <==>
      || p.isIpv6
      || 16 <= p.ipHeaderLen
      || (p.ipHeaderLen == 12 && (udp ==> ThreeWordUdp(p) % 65535 == 0))
      || (p.ipHeaderLen == 8 && TwoWordHeaderSum(p) == 0 && (udp ==> TwoWordUdp(p) % 65535 == 0))
  {
    hide Edited, Covered, Verifies, TwoWordHeaderSum, ThreeWordUdp, TwoWordUdp, NoWordTcp, Layout, ParsedAndCuttable;
    CuttableOf(p);
    TransportSumValid(p);
    if !p.isIpv6 {
      HeaderSumValid(p);
    }
  }

  /**
   The original frame already carried the UDP length of a truncated one, and in its checksum field the
   complement of the covered words; 0xffff is not that of TCP nor zero that of UDP.
   */
  predicate TransportFieldsRight(p: ParsedFrame)
    requires Cuttable(p) && SumInAddresses(p)
  {
    var x, udp := U16At(p.frame, SumAt(p)), p.l4.value.proto == Udp;
    && (x + CoveredWords(p)) % 65535 == 0
    && x != (if udp then 0 else 0xffff)
    && (udp ==> U16At(p.frame, SumAt(p) - 2) == 32)
  }

  lemma StoredWasThere(p: ParsedFrame)
    requires Cuttable(p) && SumInAddresses(p)
    ensures TransportFieldsRight(p) <==>
              && U16At(p.frame, SumAt(p)) == NewSum(p)
              && (p.l4.value.proto == Udp ==> U16At(p.frame, SumAt(p) - 2) == 32)
  {
    hide Covered, Unsummed, WordSum, CoveredWords, Residue, U16At;
    CoveredFromFrame(p);
    StoredComplement(CoveredWords(p), U16At(p.frame, SumAt(p)), p.l4.value.proto == Udp);
  }

  /**
   The pseudo-header the repaired checksum covers is the one of the frame before the cut, exactly unless the
   transport fields lie in the addresses and were not right for the truncated segment before the cut.
   */
  lemma PseudoHeaderKept(p: ParsedFrame, len: nat)
    requires Cuttable(p)
    ensures
      var proto := p.l4.value.proto;
      var now := PseudoHeader(Edited(p), p.ipStart, p.ipHeaderLen, p.isIpv6, proto, len);
      var before := PseudoHeader(p.frame, p.ipStart, p.ipHeaderLen, p.isIpv6, proto, len);
      now == before <==> (SumInAddresses(p) ==> TransportFieldsRight(p))
  {
    hide Edited, PseudoHeader, SumInAddresses, SameAddresses, Agree, TransportFieldsRight;
    if SumInAddresses(p) {
      AddressesOverwritten(p);
      ShortPseudoHeaders(Edited(p), p.frame, p, len);
    } else {
      AddressesKept(p);
      PseudoHeaderSame(Edited(p), p.frame, p, p.l4.value.proto, len);
    }
  }

  lemma AddressesKept(p: ParsedFrame)
    requires Cuttable(p) && !SumInAddresses(p)
    ensures SameAddresses(Edited(p), p.frame, p)
  {
    hide Edited;
    forall i | 0 <= i < |Edited(p)| && !InFootprint(p, i)
      ensures Edited(p)[i] == p.frame[i]
    {
      EditFootprint(p, i);
    }
  }

  lemma AddressesOverwritten(p: ParsedFrame)
    requires Cuttable(p) && SumInAddresses(p)
    ensures HasIpv4Header(Edited(p), p.ipStart, p.ipHeaderLen) && HasIpv4Header(p.frame, p.ipStart, p.ipHeaderLen)
    ensures Agree(Edited(p), p.frame, p.ipStart + 12, p.ipStart + 20) <==> TransportFieldsRight(p)
  {
    hide Edited, NewSum, Unsummed, U16At, TransportFieldsRight;
    StoredWasThere(p);
    forall i | p.ipStart + 12 <= i < p.ipStart + 20 && !InFootprint(p, i)
      ensures Edited(p)[i] == p.frame[i]
    {
      EditFootprint(p, i);
    }
    EditedIsSummed(p);
    Put16Reads(Unsummed(p), SumAt(p), NewSum(p));
    WordSame(Edited(p), p.frame, SumAt(p));
    if p.l4.value.proto == Udp {
      UdpLengthRepaired(p);
      WordSame(Edited(p), p.frame, SumAt(p) - 2);
    }
  }

  lemma ShortPseudoHeaders(a: seq<byte>, b: seq<byte>, p: ParsedFrame, len: nat)
    requires p.l4.Some? && SumInAddresses(p)
    requires HasIpv4Header(a, p.ipStart, p.ipHeaderLen) && HasIpv4Header(b, p.ipStart, p.ipHeaderLen)
    ensures
      var proto := p.l4.value.proto;
      var ofA := PseudoHeader(a, p.ipStart, p.ipHeaderLen, p.isIpv6, proto, len);
      var ofB := PseudoHeader(b, p.ipStart, p.ipHeaderLen, p.isIpv6, proto, len);
      ofA == ofB <==> Agree(a, b, p.ipStart + 12, p.ipStart + 20)
  {
    hide PseudoHeader, Hi, Lo, Low16;
    ShortPseudoHeader(a, p, len);
    ShortPseudoHeader(b, p, len);
    SliceSame(a, b, p.ipStart + 12);
  }

  /** Equal words are equal bytes. */
  lemma WordSame(a: seq<byte>, b: seq<byte>, i: nat)
    requires i + 1 < |a| && i + 1 < |b|
    ensures U16At(a, i) == U16At(b, i) <==> a[i] == b[i] && a[i + 1] == b[i + 1]
  {
  }

  lemma SliceSame(a: seq<byte>, b: seq<byte>, lo: nat)
    requires lo + 8 <= |a| && lo + 8 <= |b|
    ensures a[lo..lo + 8] == b[lo..lo + 8] <==> Agree(a, b, lo, lo + 8)
  {
    if a[lo..lo + 8] == b[lo..lo + 8] {
      forall i | lo <= i < lo + 8
        ensures a[i] == b[i]
      {
        assert a[lo..lo + 8][i - lo] == b[lo..lo + 8][i - lo];
      }
    }
  }

  lemma ShortPseudoHeader(b: seq<byte>, p: ParsedFrame, len: nat)
    requires p.l4.Some? && SumInAddresses(p) && HasIpv4Header(b, p.ipStart, p.ipHeaderLen)
    ensures
      var ph := PseudoHeader(b, p.ipStart, p.ipHeaderLen, p.isIpv6, p.l4.value.proto, len);
      && ph[..8] == b[p.ipStart + 12..p.ipStart + 20]
      && ph == ph[..8] + [0, ProtoByte(p.l4.value.proto), Hi(Low16(len)), Lo(Low16(len))]
  {
    hide Hi, Lo, Low16;
    var lo := p.ipStart + 12;
    assert PseudoDst(b, p.ipStart, p.ipHeaderLen) == b[lo + 4..lo + 8];
    assert b[lo..lo + 8] == b[lo..lo + 4] + b[lo + 4..lo + 8];
  }
}
