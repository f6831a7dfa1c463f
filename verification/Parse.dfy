/** Ethernet (802.1Q) -> IPv4/IPv6 -> TCP/UDP offsets, and the address the pseudo-header uses. */
module Parse {
  import opened Bytes

  const ETHERTYPE_VLAN: u16 := 0x8100
  const ETHERTYPE_IPV6: u16 := 0x86DD
  const ETHERTYPE_IPV4: u16 := 0x0800

  const IP_PROTO_TCP: byte := 6
  const IP_PROTO_UDP: byte := 17

  const IP6_HOP_BY_HOP: byte := 0
  const IP6_ROUTING: byte := 43
  const IP6_FRAGMENT: byte := 44
  const IP6_AH: byte := 51
  const IP6_DEST_OPTS: byte := 60
  const IP6_HDR: nat := 40

  const IP_OPT_EOL: byte := 0
  const IP_OPT_LSRR: byte := 3
  const IP_OPT_SSRR: byte := 9

  datatype L4Proto = Tcp | Udp

  datatype L4Info = L4Info(
    proto: L4Proto,
    sport: u16,
    dport: u16,
    headerStart: nat,
    headerLen: nat,
    payloadStart: nat)

  datatype ParsedFrame = ParsedFrame(
    frame: seq<byte>,
    ipStart: nat,
    ipHeaderLen: nat,
    isIpv6: bool,
    l4: Option<L4Info>)

  datatype ParseError = TooShort

  // ---------------------------------------------------------------- payload view

  function SaturatingSub(a: nat, b: nat): nat {
    if a < b then 0 else a - b
  }

  function Min(a: nat, b: nat): nat {
    if a < b then a else b
  }

  /** A frame with an L4 header always holds its IP length field. */
  predicate LengthReadable(p: ParsedFrame) {
    p.l4.Some? ==> p.ipStart + 6 <= |p.frame|
  }

  function PayloadLen(p: ParsedFrame): nat
    requires LengthReadable(p)
  {
    match p.l4
    case None => 0
    case Some(l4) =>
      var ipTotal: nat := if p.isIpv6 then p.ipHeaderLen + U16At(p.frame, p.ipStart + 4)
                          else U16At(p.frame, p.ipStart + 2);
      SaturatingSub(SaturatingSub(ipTotal, p.ipHeaderLen), l4.headerLen)
  }

  function Payload(p: ParsedFrame): seq<byte>
    requires LengthReadable(p)
  {
    match p.l4
    case None => []
    case Some(l4) =>
      var end := Min(|p.frame|, l4.payloadStart + PayloadLen(p));
      if l4.payloadStart >= end then [] else p.frame[l4.payloadStart..end]
  }

  // ---------------------------------------------------------------- transport headers

  function ParseTcp(frame: seq<byte>, l4Start: nat, l4Len: nat): Option<L4Info> {
    if |frame| < l4Start + 20 || l4Len < 20 then None
    else
      var dataOffset := frame[l4Start + 12] / 16 * 4;
      if dataOffset < 20 || |frame| < l4Start + dataOffset then None
      else if l4Len < dataOffset then None
      else Some(L4Info(Tcp, U16At(frame, l4Start), U16At(frame, l4Start + 2), l4Start, dataOffset,
                       l4Start + dataOffset))
  }

  function ParseUdp(frame: seq<byte>, l4Start: nat, l4Len: nat): Option<L4Info> {
    if |frame| < l4Start + 8 || l4Len < 8 then None
    else Some(L4Info(Udp, U16At(frame, l4Start), U16At(frame, l4Start + 2), l4Start, 8, l4Start + 8))
  }

  // ---------------------------------------------------------------- link layer

  /** The inner ethertype and the L3 offset, walking 802.1Q tags from `off`. */
  function TagWalk(frame: seq<byte>, off: nat): Option<(u16, nat)>
    decreases |frame| + 4 - off
  {
    if off + 2 > |frame| then None
    else if U16At(frame, off) != ETHERTYPE_VLAN then Some((U16At(frame, off), off + 2))
    else if off + 4 > |frame| then None
    else TagWalk(frame, off + 4)
  }

  method L2EthertypeAndL3Start(frame: seq<byte>) returns (r: Option<(u16, nat)>)
    ensures r == if |frame| < 14 then None else TagWalk(frame, 12)
  {
    if |frame| < 14 {
      return None;
    }
    var off: nat := 12;
    while true
      invariant TagWalk(frame, 12) == TagWalk(frame, off)
      decreases |frame| + 4 - off
    {
      if off + 2 > |frame| {
        return None;
      }
      var ethertype := U16At(frame, off);
      if ethertype != ETHERTYPE_VLAN {
        return Some((ethertype, off + 2));
      }
      if off + 4 > |frame| {
        return None;
      }
      off := off + 4;
    }
  }

  // ---------------------------------------------------------------- network layer

  function ParseIpv4(frame: seq<byte>, ipStart: nat): ParsedFrame {
    if |frame| < ipStart + 20 then ParsedFrame(frame, ipStart, 0, false, None)
    else if frame[ipStart] / 16 != 4 then ParsedFrame(frame, ipStart, 0, false, None)
    else
      var ipHeaderLen: nat := frame[ipStart] % 16 * 4;
      if |frame| < ipStart + ipHeaderLen then ParsedFrame(frame, ipStart, ipHeaderLen, false, None)
      else
        var proto := frame[ipStart + 9];
        var l4Start := ipStart + ipHeaderLen;
        var l4InIp := SaturatingSub(U16At(frame, ipStart + 2), ipHeaderLen);
        var l4 := if proto == IP_PROTO_TCP then ParseTcp(frame, l4Start, l4InIp)
                  else if proto == IP_PROTO_UDP then ParseUdp(frame, l4Start, l4InIp)
                  else None;
        ParsedFrame(frame, ipStart, ipHeaderLen, false, l4)
  }

  /** Next-header values whose header is stepped over. */
  predicate IsExtension(next: byte) {
    next == IP6_HOP_BY_HOP || next == IP6_ROUTING || next == IP6_FRAGMENT || next == IP6_DEST_OPTS || next == IP6_AH
  }

  /** Size of an extension header by its length byte: AH counts 4-byte words less two, others 8-byte words less one. */
  function ExtensionLen(next: byte, lenByte: byte): (n: nat)
    ensures 8 <= n
  {
    if next == IP6_AH then (lenByte as int + 2) * 4 else (lenByte as int + 1) * 8
  }

  /** The transport header at the end of an extension chain that lies inside `[off, end)`. */
  function ChainWalk(frame: seq<byte>, next: byte, off: nat, end: nat): Option<L4Info>
    requires end <= |frame|
    decreases end + 1 - Min(off, end)
  {
    if off >= end then None
    else if next == IP_PROTO_TCP then ParseTcp(frame, off, end - off)
    else if next == IP_PROTO_UDP then ParseUdp(frame, off, end - off)
    else if !IsExtension(next) || off + 2 > end then None
    else
      var extLen := ExtensionLen(next, frame[off + 1]);
      if off + extLen > end then None
      else ChainWalk(frame, frame[off], off + extLen, end)
  }

  /** Where the IPv6 payload ends inside the captured bytes. */
  function Ipv6PayloadEnd(frame: seq<byte>, ipStart: nat): nat
    requires ipStart + IP6_HDR <= |frame|
  {
    Min(ipStart + IP6_HDR + U16At(frame, ipStart + 4), |frame|)
  }

  function Ipv6Layout(frame: seq<byte>, ipStart: nat): ParsedFrame {
    if |frame| < ipStart + IP6_HDR || frame[ipStart] / 16 != 6 then ParsedFrame(frame, ipStart, IP6_HDR, true, None)
    else
      ParsedFrame(frame, ipStart, IP6_HDR, true,
                  ChainWalk(frame, frame[ipStart + 6], ipStart + IP6_HDR, Ipv6PayloadEnd(frame, ipStart)))
  }

  method ParseIpv6(frame: seq<byte>, ipStart: nat) returns (p: ParsedFrame)
    ensures p == Ipv6Layout(frame, ipStart)
  {
    if |frame| < ipStart + IP6_HDR || frame[ipStart] / 16 != 6 {
      return ParsedFrame(frame, ipStart, IP6_HDR, true, None);
    }
    var plen := U16At(frame, ipStart + 4);
    var payloadEnd := Min(ipStart + IP6_HDR + plen, |frame|);
    var next := frame[ipStart + 6];
    var off := ipStart + IP6_HDR;
    var l4: Option<L4Info> := None;
    while off < payloadEnd
      invariant ipStart + IP6_HDR <= off
      invariant ChainWalk(frame, frame[ipStart + 6], ipStart + IP6_HDR, payloadEnd)
             == ChainWalk(frame, next, off, payloadEnd)
      invariant l4 == None
      decreases payloadEnd - off
    {
      if next == IP_PROTO_TCP {
        l4 := ParseTcp(frame, off, payloadEnd - off);
        break;
      } else if next == IP_PROTO_UDP {
        l4 := ParseUdp(frame, off, payloadEnd - off);
        break;
      } else if next == IP6_HOP_BY_HOP || next == IP6_ROUTING || next == IP6_FRAGMENT || next == IP6_DEST_OPTS {
        if off + 2 > payloadEnd {
          break;
        }
        var extLen := (frame[off + 1] as int + 1) * 8;
        if extLen < 8 || off + extLen > payloadEnd {
          break;
        }
        next := frame[off];
        off := off + extLen;
      } else if next == IP6_AH {
        if off + 2 > payloadEnd {
          break;
        }
        var extLen := (frame[off + 1] as int + 2) * 4;
        if off + extLen > payloadEnd {
          break;
        }
        next := frame[off];
        off := off + extLen;
      } else {
        // ESP, No Next Header and every unknown value end the search.
        break;
      }
    }
    p := ParsedFrame(frame, ipStart, IP6_HDR, true, l4);
  }

  // ---------------------------------------------------------------- whole frames

  function NoIp(frame: seq<byte>): ParsedFrame {
    ParsedFrame(frame, 0, 0, false, None)
  }

  /** What the tag walk and the general IPv4/IPv6 parsers say about a frame, with no fast path. */
  function Layout(frame: seq<byte>): Result<ParsedFrame, ParseError> {
    if |frame| < 14 then Err(TooShort)
    else
      match TagWalk(frame, 12)
      case None => Ok(NoIp(frame))
      case Some((ethertype, l3Start)) =>
        if ethertype == ETHERTYPE_IPV4 then Ok(ParseIpv4(frame, l3Start))
        else if ethertype == ETHERTYPE_IPV6 then Ok(Ipv6Layout(frame, l3Start))
        else Ok(NoIp(frame))
  }

  /** Untagged Ethernet, 20-byte IPv4 header, no fragment, whole datagram captured, plain TCP or UDP header. */
  function TryParseIpv4Plain(frame: seq<byte>): Option<ParsedFrame> {
    if |frame| < 54 then None
    else if frame[12] != 0x08 || frame[13] != 0x00 then None
    else if frame[14] != 0x45 then None
    else if U16At(frame, 20) % 0x4000 != 0 then None
    else
      var ipTotal := U16At(frame, 16);
      if |frame| < 14 + ipTotal then None
      else
        var proto := frame[23];
        var l4InIp := SaturatingSub(ipTotal, 20);
        if proto == IP_PROTO_TCP then
          if l4InIp < 20 || |frame| < 54 then None
          else if frame[46] / 16 != 5 then None
          else Some(ParsedFrame(frame, 14, 20, false,
                                Some(L4Info(Tcp, U16At(frame, 34), U16At(frame, 36), 34, 20, 54))))
        else if proto == IP_PROTO_UDP then
          if l4InIp < 8 || |frame| < 42 then None
          else Some(ParsedFrame(frame, 14, 20, false,
                                Some(L4Info(Udp, U16At(frame, 34), U16At(frame, 36), 34, 8, 42))))
        else Some(ParsedFrame(frame, 14, 20, false, None))
  }

  /** The fast path never changes an answer: whatever it accepts, the general path parses identically. */
  lemma FastPathRefinesGeneral(frame: seq<byte>)
    requires TryParseIpv4Plain(frame).Some?
    ensures Layout(frame) == Ok(TryParseIpv4Plain(frame).value)
  {
    assert U16At(frame, 12) == ETHERTYPE_IPV4;
    assert TagWalk(frame, 12) == Some((ETHERTYPE_IPV4, 14));
  }

  method ParseFrame(frame: seq<byte>) returns (r: Result<ParsedFrame, ParseError>)
    ensures r == Layout(frame)
  {
    if |frame| < 14 {
      return Err(TooShort);
    }
    var plain := TryParseIpv4Plain(frame);
    if plain.Some? {
      FastPathRefinesGeneral(frame);
      return Ok(plain.value);
    }
    var l2 := L2EthertypeAndL3Start(frame);
    match l2
    case None =>
      return Ok(NoIp(frame));
    case Some((ethertype, l3Start)) =>
      if ethertype == ETHERTYPE_IPV4 {
        return Ok(ParseIpv4(frame, l3Start));
      }
      if ethertype == ETHERTYPE_IPV6 {
        var p := ParseIpv6(frame, l3Start);
        return Ok(p);
      }
      return Ok(NoIp(frame));
  }

  // ---------------------------------------------------------------- what a parse result promises

  /** Bounds and links between the offsets of a frame whose transport header was found. */
  predicate WellPlaced(p: ParsedFrame) {
    p.l4.Some? ==>
      var l4 := p.l4.value;
      && 14 <= p.ipStart
      && l4.payloadStart == l4.headerStart + l4.headerLen <= |p.frame|
      && l4.headerLen <= 60
      && (if l4.proto == Tcp then 20 <= l4.headerLen else l4.headerLen == 8)
      && (if p.isIpv6 then
            && p.ipHeaderLen == IP6_HDR
            && p.ipStart + IP6_HDR <= l4.headerStart
            && l4.payloadStart <= p.ipStart + IP6_HDR + U16At(p.frame, p.ipStart + 4)
          else
            && p.ipStart + 20 <= |p.frame|
            && p.ipHeaderLen <= 60
            && p.ipHeaderLen % 4 == 0
            && l4.headerStart == p.ipStart + p.ipHeaderLen)
  }

  lemma {:induction false} TagWalkBounds(frame: seq<byte>, off: nat)
    requires TagWalk(frame, off).Some?
    ensures off + 2 <= TagWalk(frame, off).value.1 <= |frame|
    decreases |frame| + 4 - off
  {
    if U16At(frame, off) == ETHERTYPE_VLAN {
      TagWalkBounds(frame, off + 4);
    }
  }

  lemma {:induction false} ChainWalkBounds(frame: seq<byte>, next: byte, off: nat, end: nat)
    requires end <= |frame|
    requires ChainWalk(frame, next, off, end).Some?
    ensures
      var l4 := ChainWalk(frame, next, off, end).value;
      && off <= l4.headerStart
      && l4.payloadStart == l4.headerStart + l4.headerLen <= end
      && l4.headerLen <= 60
      && (if l4.proto == Tcp then 20 <= l4.headerLen else l4.headerLen == 8)
    decreases end + 1 - Min(off, end)
  {
    if next != IP_PROTO_TCP && next != IP_PROTO_UDP {
      ChainWalkBounds(frame, frame[off], off + ExtensionLen(next, frame[off + 1]), end);
    }
  }

  /** Every offset a parse hands on is inside the frame and consistent with the others. */
  lemma LayoutWellPlaced(frame: seq<byte>)
    requires Layout(frame).Ok?
    ensures Layout(frame).value.frame == frame && WellPlaced(Layout(frame).value) && LengthReadable(Layout(frame).value)
  {
    hide TagWalk, ChainWalk, U16At;
    var p := Layout(frame).value;
    if p.l4.Some? {
      TagWalkBounds(frame, 12);
      if p.isIpv6 {
        ChainWalkBounds(frame, frame[p.ipStart + 6], p.ipStart + IP6_HDR, Ipv6PayloadEnd(frame, p.ipStart));
      }
    }
  }

  // ---------------------------------------------------------------- source-route options

  /** A complete type-length-value option starts at `i`. */
  predicate OptionAt(buf: seq<byte>, i: nat, end: nat)
    requires end <= |buf|
  {
    i + 1 < end && buf[i] != IP_OPT_EOL && 2 <= buf[i + 1] && i + buf[i + 1] <= end
  }

  /** A loose or strict source route that holds at least one address. */
  predicate RouteAt(buf: seq<byte>, i: nat)
    requires i + 1 < |buf|
  {
    (buf[i] % 32 == IP_OPT_LSRR || buf[i] % 32 == IP_OPT_SSRR) && 7 <= buf[i + 1]
  }

  /** The offset of the first source route met when stepping from option to option. */
  function FirstRoute(buf: seq<byte>, i: nat, end: nat): Option<nat>
    requires end <= |buf|
    decreases end - Min(i, end)
  {
    if !OptionAt(buf, i, end) then None
    else if RouteAt(buf, i) then Some(i)
    else FirstRoute(buf, i + buf[i + 1], end)
  }

  lemma {:induction false} FirstRouteBounds(buf: seq<byte>, i: nat, end: nat)
    requires end <= |buf|
    ensures FirstRoute(buf, i, end).Some? ==>
              var k := FirstRoute(buf, i, end).value;
              i <= k && OptionAt(buf, k, end) && RouteAt(buf, k)
    decreases end - Min(i, end)
  {
    if OptionAt(buf, i, end) && !RouteAt(buf, i) {
      FirstRouteBounds(buf, i + buf[i + 1], end);
    }
  }

  predicate HasIpv4Header(buf: seq<byte>, ipStart: nat, ipHeaderLen: nat) {
    ipStart + 20 <= |buf| && ipStart + ipHeaderLen <= |buf|
  }

  /** The IPv4 destination the pseudo-header uses: the last address of the first source route, else the header's. */
  function PseudoDst(buf: seq<byte>, ipStart: nat, ipHeaderLen: nat): (dst: seq<byte>)
    requires HasIpv4Header(buf, ipStart, ipHeaderLen)
    ensures |dst| == 4
  {
    FirstRouteBounds(buf, ipStart + 20, ipStart + ipHeaderLen);
    match FirstRoute(buf, ipStart + 20, ipStart + ipHeaderLen)
    case Some(i) => buf[i + buf[i + 1] - 4..i + buf[i + 1]]
    case None => buf[ipStart + 16..ipStart + 20]
  }

  method Ipv4PseudoDst(buf: seq<byte>, ipStart: nat, ipHeaderLen: nat) returns (dst: seq<byte>)
    requires HasIpv4Header(buf, ipStart, ipHeaderLen)
    ensures dst == PseudoDst(buf, ipStart, ipHeaderLen)
  {
    var default := buf[ipStart + 16..ipStart + 20];
    if ipHeaderLen <= 20 {
      return default;
    }
    var i := ipStart + 20;
    var end := ipStart + ipHeaderLen;
    while i < end
      invariant ipStart + 20 <= i
      invariant FirstRoute(buf, ipStart + 20, end) == FirstRoute(buf, i, end)
      decreases end - i
    {
      var kind := buf[i];
      if kind == IP_OPT_EOL {
        break;
      }
      if i + 1 >= end {
        break;
      }
      var optLen := buf[i + 1];
      if optLen < 2 || i + optLen > end {
        break;
      }
      var ty := kind % 32;
      if ty == IP_OPT_LSRR || ty == IP_OPT_SSRR {
        var dataStart := i + 3;
        var dataEnd := i + optLen;
        if dataEnd >= dataStart + 4 {
          var last := dataEnd - 4;
          return buf[last..last + 4];
        }
      }
      i := i + optLen;
    }
    return default;
  }

  /** Section 3.1 of RFC 791: a kind other than zero, a length of at least two, and all of it inside the header. */
  predicate CompleteOption(buf: seq<byte>, i: nat, end: nat)
    requires end <= |buf|
  {
    i + 2 <= end && buf[i] != 0 && 2 <= buf[i + 1] && i + buf[i + 1] <= end
  }

  /** A loose (3) or strict (9) source and record route, by the option number alone, with room for an address. */
  predicate SourceRoute(buf: seq<byte>, i: nat)
    requires i + 2 <= |buf|
  {
    buf[i] % 32 in {3, 9} && 3 + 4 <= buf[i + 1]
  }

  /** `offs` is the run of complete options from `start`, up to the first offset that holds none. */
  ghost predicate IsOptionRun(buf: seq<byte>, offs: seq<nat>, start: nat, end: nat)
    requires end <= |buf|
  {
    && 0 < |offs|
    && offs[0] == start
    && (forall k :: 0 <= k < |offs| - 1 ==>
          CompleteOption(buf, offs[k], end) && offs[k + 1] == offs[k] + buf[offs[k] + 1])
    && !CompleteOption(buf, offs[|offs| - 1], end)
  }

  /** Every area has such a run: the type-length-value walk never leaves it and always ends. */
  lemma {:induction false} OptionRunExists(buf: seq<byte>, start: nat, end: nat) returns (offs: seq<nat>)
    requires end <= |buf|
    ensures IsOptionRun(buf, offs, start, end)
    decreases end - Min(start, end)
  {
    if CompleteOption(buf, start, end) {
      var rest := OptionRunExists(buf, start + buf[start + 1], end);
      offs := [start] + rest;
    } else {
      offs := [start];
    }
  }

  /** The `k`-th offset of a run holds its first source route, or is the last one and none does. */
  ghost predicate FirstOnRun(buf: seq<byte>, offs: seq<nat>, start: nat, end: nat, k: nat)
    requires end <= |buf|
  {
    && IsOptionRun(buf, offs, start, end) && k < |offs|
    && (forall j :: 0 <= j < k ==> !SourceRoute(buf, offs[j]))
    && (k < |offs| - 1 ==> SourceRoute(buf, offs[k]))
  }

  lemma {:induction false} FirstRouteInRun(buf: seq<byte>, offs: seq<nat>, start: nat, end: nat, k: nat)
    requires end <= |buf| && FirstOnRun(buf, offs, start, end, k)
    ensures FirstRoute(buf, start, end) == if k == |offs| - 1 then None else Some(offs[k])
    decreases |offs|
  {
    if k > 0 {
      assert CompleteOption(buf, offs[0], end) && offs[0 + 1] == offs[0] + buf[offs[0] + 1];
      assert !SourceRoute(buf, offs[0]);
      FirstRouteInRun(buf, offs[1..], offs[1], end, k - 1);
    }
  }

  /**
   Along any run of options: the first source route with room for an address decides the
   destination by its last four bytes; with none, the header's own destination stands.
   */
  lemma SourceRouteWalk(buf: seq<byte>, ipStart: nat, ipHeaderLen: nat, offs: seq<nat>, k: nat)
    requires ipStart + 20 <= |buf| && ipStart + ipHeaderLen <= |buf|
    requires FirstOnRun(buf, offs, ipStart + 20, ipStart + ipHeaderLen, k)
    ensures k == |offs| - 1 ==> PseudoDst(buf, ipStart, ipHeaderLen) == buf[ipStart + 16..ipStart + 20]
    ensures k < |offs| - 1 ==>
              && offs[k] + buf[offs[k] + 1] <= ipStart + ipHeaderLen
              && PseudoDst(buf, ipStart, ipHeaderLen) == buf[offs[k] + buf[offs[k] + 1] - 4..offs[k] + buf[offs[k] + 1]]
  {
    hide FirstRoute, SourceRoute;
    FirstRouteInRun(buf, offs, ipStart + 20, ipStart + ipHeaderLen, k);
    FirstRouteBounds(buf, ipStart + 20, ipStart + ipHeaderLen);
  }
}
