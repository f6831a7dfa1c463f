/** In-place cut of the L4 payload with repair of lengths and checksums. */
module Truncate {
  import opened Bytes
  import opened Checksum
  import opened Parse
  import opened Policy

  // ---------------------------------------------------------------- the edit as a function

  /** The frame can be cut: its headers are placed and more than the kept payload follows them. */
  predicate Cuttable(p: ParsedFrame) {
    p.l4.Some? && WellPlaced(p) && p.l4.value.payloadStart + TRUNCATE_PAYLOAD_BYTES < |p.frame|
  }

  /** `b` still holds every header that `p` locates, followed by the kept payload and nothing else. */
  predicate HoldsHeaders(b: seq<byte>, p: ParsedFrame) {
    p.l4.Some? && WellPlaced(p) && |b| == p.l4.value.payloadStart + TRUNCATE_PAYLOAD_BYTES
  }

  function ProtoByte(proto: L4Proto): byte {
    if proto == Tcp then IP_PROTO_TCP else IP_PROTO_UDP
  }

  /** Offset of the checksum field inside the transport header. */
  function SumField(proto: L4Proto): nat {
    if proto == Tcp then 16 else 6
  }

  predicate HasAddresses(b: seq<byte>, ipStart: nat, ipHeaderLen: nat, isIpv6: bool) {
    if isIpv6 then ipStart + IP6_HDR <= |b| else HasIpv4Header(b, ipStart, ipHeaderLen)
  }

  /** The pseudo-header the code sums, read from the addresses now in `b`. */
  function PseudoHeader(b: seq<byte>, ipStart: nat, ipHeaderLen: nat, isIpv6: bool, proto: L4Proto, len: nat)
    : (ph: seq<byte>)
    requires HasAddresses(b, ipStart, ipHeaderLen, isIpv6)
    ensures |ph| % 2 == 0
  {
    if isIpv6 then PseudoV6(b[ipStart + 8..ipStart + 24], b[ipStart + 24..ipStart + 40], ProtoByte(proto), len)
    else PseudoV4(b[ipStart + 12..ipStart + 16], PseudoDst(b, ipStart, ipHeaderLen), ProtoByte(proto), len)
  }

  function UdpChecksumWire(sum: u16): u16 {
    if sum == 0 then 0xffff else sum
  }

  function SetIpv4Sum(b: seq<byte>, ipStart: nat, ipHeaderLen: nat): (r: seq<byte>)
    requires HasIpv4Header(b, ipStart, ipHeaderLen)
    ensures |r| == |b|
  {
    var z := Put16(b, ipStart + 10, 0);
    Put16(z, ipStart + 10, Checksum16(z[ipStart..ipStart + ipHeaderLen]))
  }

  function SetTransportSum(b: seq<byte>, ipStart: nat, ipHeaderLen: nat, isIpv6: bool, proto: L4Proto, start: nat)
    : (r: seq<byte>)
    requires HasAddresses(b, ipStart, ipHeaderLen, isIpv6) && start + SumField(proto) + 2 <= |b|
    ensures |r| == |b|
  {
    var z := Put16(b, start + SumField(proto), 0);
    var c := Checksum16(PseudoHeader(z, ipStart, ipHeaderLen, isIpv6, proto, |z| - start) + z[start..]);
    Put16(z, start + SumField(proto), if proto == Tcp then c else UdpChecksumWire(c))
  }

  function SetIpFields(b: seq<byte>, p: ParsedFrame): (r: seq<byte>)
    requires HoldsHeaders(b, p)
    ensures |r| == |b|
  {
    if p.isIpv6 then Put16(b, p.ipStart + 4, Low16(|b| - p.ipStart - p.ipHeaderLen))
    else SetIpv4Sum(Put16(b, p.ipStart + 2, Low16(|b| - p.ipStart)), p.ipStart, p.ipHeaderLen)
  }

  function SetTransportFields(b: seq<byte>, p: ParsedFrame): (r: seq<byte>)
    requires HoldsHeaders(b, p)
    ensures |r| == |b|
  {
    var l4 := p.l4.value;
    var c := if l4.proto == Tcp then b
             else Put16(b, l4.headerStart + 4, l4.headerLen + TRUNCATE_PAYLOAD_BYTES);
    SetTransportSum(c, p.ipStart, p.ipHeaderLen, p.isIpv6, l4.proto, l4.headerStart)
  }

  /** The truncated frame. */
  function Edited(p: ParsedFrame): (r: seq<byte>)
    requires Cuttable(p)
    ensures |r| == p.l4.value.payloadStart + TRUNCATE_PAYLOAD_BYTES
  {
    var cut := p.frame[..p.l4.value.payloadStart + TRUNCATE_PAYLOAD_BYTES];
    SetTransportFields(SetIpFields(cut, p), p)
  }

  // ---------------------------------------------------------------- the edit in place

  method Store16(buf: ByteVec, i: nat, v: u16)
    requires i + 1 < |buf.data|
    modifies buf
    ensures buf.data == Put16(old(buf.data), i, v)
  {
    buf.Set(i, Hi(v));
    buf.Set(i + 1, Lo(v));
  }

  method UpdateIpv4HeaderChecksum(buf: ByteVec, ipStart: nat, ipHeaderLen: nat)
    requires HasIpv4Header(buf.data, ipStart, ipHeaderLen) && ipHeaderLen <= 60
    modifies buf
    ensures buf.data == SetIpv4Sum(old(buf.data), ipStart, ipHeaderLen)
  {
    hide Put16, Checksum16, PseudoHeader, WordSum, Residue, U16At;
    Store16(buf, ipStart + 10, 0);
    var sum := InternetChecksum(buf.data[ipStart..ipStart + ipHeaderLen]);
    Store16(buf, ipStart + 10, sum);
  }

  method SumSegment(b: seq<byte>, ipStart: nat, ipHeaderLen: nat, isIpv6: bool, proto: L4Proto, segment: seq<byte>)
    returns (sum: u16)
    requires HasAddresses(b, ipStart, ipHeaderLen, isIpv6) && |segment| <= MAX_SUM_BYTES
    ensures sum == Checksum16(PseudoHeader(b, ipStart, ipHeaderLen, isIpv6, proto, |segment|) + segment)
  {
    if isIpv6 {
      var src := b[ipStart + 8..ipStart + 24];
      var dst := b[ipStart + 24..ipStart + 40];
      sum := TransportChecksumIpv6(src, dst, ProtoByte(proto), segment);
    } else {
      var src := b[ipStart + 12..ipStart + 16];
      var dst := Ipv4PseudoDst(b, ipStart, ipHeaderLen);
      sum := TransportChecksumIpv4(src, dst, ProtoByte(proto), segment);
    }
  }

  method UpdateTcpChecksum(buf: ByteVec, ipStart: nat, ipHeaderLen: nat, isIpv6: bool, tcpStart: nat)
    requires HasAddresses(buf.data, ipStart, ipHeaderLen, isIpv6)
    requires tcpStart + 18 <= |buf.data| <= tcpStart + MAX_SUM_BYTES
    modifies buf
    ensures buf.data == SetTransportSum(old(buf.data), ipStart, ipHeaderLen, isIpv6, Tcp, tcpStart)
  {
    hide Put16, Checksum16, PseudoHeader, WordSum, Residue, U16At;
    Store16(buf, tcpStart + 16, 0);
    var segment := buf.data[tcpStart..];
    var sum := SumSegment(buf.data, ipStart, ipHeaderLen, isIpv6, Tcp, segment);
    Store16(buf, tcpStart + 16, sum);
  }

  method UpdateUdpChecksum(buf: ByteVec, ipStart: nat, ipHeaderLen: nat, isIpv6: bool, udpStart: nat, udpLen: nat)
    requires HasAddresses(buf.data, ipStart, ipHeaderLen, isIpv6)
    requires 8 <= udpLen <= MAX_SUM_BYTES && udpStart + udpLen == |buf.data|
    modifies buf
    ensures buf.data == SetTransportSum(old(buf.data), ipStart, ipHeaderLen, isIpv6, Udp, udpStart)
  {
    hide Put16, Checksum16, PseudoHeader, WordSum, Residue, U16At;
    Store16(buf, udpStart + 6, 0);
    var segment := buf.data[udpStart..udpStart + udpLen];
    assert segment == buf.data[udpStart..];
    var sum := SumSegment(buf.data, ipStart, ipHeaderLen, isIpv6, Udp, segment);
    var wire := UdpChecksumWire(sum);
    Store16(buf, udpStart + 6, wire);
  }

  method ApplyTruncateFields(buf: ByteVec, ipStart: nat, ipHeaderLen: nat, isIpv6: bool, l4: L4Info, payloadLen: nat)
    returns (done: bool)
    requires WellPlaced(ParsedFrame(buf.data, ipStart, ipHeaderLen, isIpv6, Some(l4)))
    modifies buf
    ensures done == (payloadLen > TRUNCATE_PAYLOAD_BYTES && l4.payloadStart + TRUNCATE_PAYLOAD_BYTES < |old(buf.data)|)
    ensures buf.data == if done then Edited(ParsedFrame(old(buf.data), ipStart, ipHeaderLen, isIpv6, Some(l4)))
                        else old(buf.data)
  {
    hide SetIpv4Sum, SetTransportSum, Put16, U16At;
    if payloadLen <= TRUNCATE_PAYLOAD_BYTES {
      return false;
    }
    var newPayloadEnd := l4.payloadStart + TRUNCATE_PAYLOAD_BYTES;
    if newPayloadEnd >= |buf.data| {
      return false;
    }
    buf.Truncate(newPayloadEnd);
    var newIpTotal: nat := |buf.data| - ipStart;
    if isIpv6 {
      var plen := Low16(newIpTotal - ipHeaderLen);
      Store16(buf, ipStart + 4, plen);
    } else {
      Store16(buf, ipStart + 2, Low16(newIpTotal));
      UpdateIpv4HeaderChecksum(buf, ipStart, ipHeaderLen);
    }
    match l4.proto {
      case Tcp =>
        UpdateTcpChecksum(buf, ipStart, ipHeaderLen, isIpv6, l4.headerStart);
      case Udp =>
        Store16(buf, l4.headerStart + 4, l4.headerLen + TRUNCATE_PAYLOAD_BYTES);
        UpdateUdpChecksum(buf, ipStart, ipHeaderLen, isIpv6, l4.headerStart, l4.headerLen + TRUNCATE_PAYLOAD_BYTES);
    }
    return true;
  }

  method ApplyTruncateOnParsed(buf: ByteVec, p: ParsedFrame) returns (done: bool)
    requires buf.data == p.frame && WellPlaced(p) && LengthReadable(p)
    modifies buf
    ensures done == (p.l4.Some? && |Payload(p)| > TRUNCATE_PAYLOAD_BYTES)
    ensures done ==> Cuttable(p) && buf.data == Edited(p)
    ensures !done ==> buf.data == old(buf.data)
  {
    match p.l4 {
      case None =>
        return false;
      case Some(l4) =>
        done := ApplyTruncateFields(buf, p.ipStart, p.ipHeaderLen, p.isIpv6, l4, |Payload(p)|);
    }
  }
}
