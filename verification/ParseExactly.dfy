/**
 Which transport header a frame carries, said without the parser: by the bytes of its tags, its IP header, its
 extension headers and the header itself. The parser finds exactly that header.
 */
module ParseExactly {
  import opened Bytes
  import opened Parse

  /** The big-endian number at `i`. */
  function Word(b: seq<byte>, i: nat): nat
    requires i + 2 <= |b|
  {
    256 * (b[i] as int) + b[i + 1]
  }

  // ---------------------------------------------------------------- tags

  /** `n` 802.1Q tags, and behind them two bytes that start no other. */
  ghost predicate Tagged(frame: seq<byte>, n: nat) {
    && 14 + 4 * n <= |frame|
    && (forall k :: 0 <= k < n ==> frame[12 + 4 * k] == 0x81 && frame[13 + 4 * k] == 0x00)
    && !(frame[12 + 4 * n] == 0x81 && frame[13 + 4 * n] == 0x00)
  }

  lemma VlanBytes(frame: seq<byte>, i: nat)
    requires i + 2 <= |frame|
    ensures U16At(frame, i) == ETHERTYPE_VLAN <==> frame[i] == 0x81 && frame[i + 1] == 0x00
    ensures U16At(frame, i) == ETHERTYPE_IPV4 <==> frame[i] == 0x08 && frame[i + 1] == 0x00
    ensures U16At(frame, i) == ETHERTYPE_IPV6 <==> frame[i] == 0x86 && frame[i + 1] == 0xdd
  {
  }

  lemma {:induction false} TagsWalked(frame: seq<byte>, n: nat, k: nat)
    requires Tagged(frame, n) && k <= n
    ensures TagWalk(frame, 12 + 4 * k) == Some((U16At(frame, 12 + 4 * n), 14 + 4 * n))
    decreases n - k
  {
    hide U16At;
    VlanBytes(frame, 12 + 4 * k);
    if k < n {
      TagsWalked(frame, n, k + 1);
    }
  }

  lemma {:induction false} WalkedTags(frame: seq<byte>, k: nat) returns (n: nat)
    requires TagWalk(frame, 12 + 4 * k).Some?
    requires forall j :: 0 <= j < k ==> 13 + 4 * j < |frame| && frame[12 + 4 * j] == 0x81 && frame[13 + 4 * j] == 0x00
    ensures Tagged(frame, n)
    decreases |frame| - 4 * k
  {
    hide U16At;
    VlanBytes(frame, 12 + 4 * k);
    if frame[12 + 4 * k] == 0x81 && frame[13 + 4 * k] == 0x00 {
      n := WalkedTags(frame, k + 1);
    } else {
      n := k;
    }
  }

  /** Behind its tags a frame is IPv4 with 08 00, IPv6 with 86 dd, and nothing else is looked into. */
  lemma EthertypeDecides(frame: seq<byte>, n: nat)
    requires Tagged(frame, n)
    ensures
      var at, ip := 12 + 4 * n, 14 + 4 * n;
      Layout(frame) == Ok(if frame[at] == 0x08 && frame[at + 1] == 0x00 then ParseIpv4(frame, ip)
                          else if frame[at] == 0x86 && frame[at + 1] == 0xdd then Ipv6Layout(frame, ip)
                          else ParsedFrame(frame, 0, 0, false, None))
  {
    hide U16At, ParseIpv4, Ipv6Layout, TagWalk;
    TagsWalked(frame, n, 0);
    VlanBytes(frame, 12 + 4 * n);
  }

  /** A frame without such tags is too short or has no IP header to be found. */
  lemma NoEthertype(frame: seq<byte>)
    requires forall n: nat :: !Tagged(frame, n)
    ensures Layout(frame) == if |frame| < 14 then Err(TooShort) else Ok(ParsedFrame(frame, 0, 0, false, None))
  {
    hide Tagged;
    if TagWalk(frame, 12).Some? {
      var n := WalkedTags(frame, 0);
    }
  }

  // ---------------------------------------------------------------- transport headers

  /** A TCP header at `at`, in `len` bytes of IP payload. */
  predicate TcpAt(frame: seq<byte>, at: nat, len: int, l4: L4Info) {
    && 20 <= len && at + 20 <= |frame|
    && var size: nat := 4 * (frame[at + 12] / 16);
       && 20 <= size <= len && at + size <= |frame|
       && l4 == L4Info(Tcp, Word(frame, at), Word(frame, at + 2), at, size, at + size)
  }

  predicate UdpAt(frame: seq<byte>, at: nat, len: int, l4: L4Info) {
    && 8 <= len && at + 8 <= |frame|
    && l4 == L4Info(Udp, Word(frame, at), Word(frame, at + 2), at, 8, at + 8)
  }

  lemma TransportExactly(frame: seq<byte>, at: nat, len: nat, l4: L4Info)
    ensures ParseTcp(frame, at, len) == Some(l4) <==> TcpAt(frame, at, len, l4)
    ensures ParseUdp(frame, at, len) == Some(l4) <==> UdpAt(frame, at, len, l4)
  {
  }

  // ---------------------------------------------------------------- IPv4

  ghost predicate Ipv4Carries(frame: seq<byte>, ip: nat, l4: L4Info) {
    && ip + 20 <= |frame| && 0x40 <= frame[ip] <= 0x4f
    && var size: nat := 4 * (frame[ip] - 0x40);
       && ip + size <= |frame|
       && var len := Word(frame, ip + 2) - size;
          || (frame[ip + 9] == 6 && TcpAt(frame, ip + size, len, l4))
          || (frame[ip + 9] == 17 && UdpAt(frame, ip + size, len, l4))
  }

  lemma Ipv4Exactly(frame: seq<byte>, ip: nat, l4: L4Info)
    ensures ParseIpv4(frame, ip).l4 == Some(l4) <==> Ipv4Carries(frame, ip, l4)
    ensures
      var p := ParseIpv4(frame, ip);
      && p.frame == frame && p.ipStart == ip && !p.isIpv6
      && p.ipHeaderLen == if ip + 20 <= |frame| && 0x40 <= frame[ip] <= 0x4f then 4 * (frame[ip] - 0x40) else 0
  {
    hide ParseTcp, ParseUdp, TcpAt, UdpAt;
    if ip + 20 <= |frame| && frame[ip] / 16 == 4 && ip + frame[ip] % 16 * 4 <= |frame| {
      var at, len := ip + frame[ip] % 16 * 4, Word(frame, ip + 2) - frame[ip] % 16 * 4;
      TransportExactly(frame, at, if len < 0 then 0 else len, l4);
      NoneInNothing(frame, at, len, l4);
    }
  }

  lemma NoneInNothing(frame: seq<byte>, at: nat, len: int, l4: L4Info)
    ensures len <= 0 ==> !TcpAt(frame, at, len, l4) && !UdpAt(frame, at, len, l4)
    ensures !TcpAt(frame, at, 0, l4) && !UdpAt(frame, at, 0, l4)
    ensures TcpAt(frame, at, len, l4) ==> l4.proto == Tcp
    ensures UdpAt(frame, at, len, l4) ==> l4.proto == Udp
  {
  }

  // ---------------------------------------------------------------- IPv6

  /** Section 4 of RFC 8200 and section 2.2 of RFC 4302. */
  function HeaderSize(kind: byte, lenByte: byte): nat {
    if kind == 51 then 4 * (lenByte as int + 2) else 8 * (lenByte as int + 1)
  }

  /**
   Headers at `offs`, of the kinds `kinds`, each naming the next one and ending where that begins. All but the last
   are Hop-by-Hop (0), Routing (43), Fragment (44), Authentication (51) or Destination (60) headers.
   */
  ghost predicate IsHeaderRun(frame: seq<byte>, kinds: seq<byte>, offs: seq<nat>, end: nat)
    requires end <= |frame|
  {
    && 0 < |kinds| == |offs|
    && forall k :: 0 <= k < |offs| - 1 ==>
         && kinds[k] in {0, 43, 44, 51, 60}
         && offs[k] + 2 <= end
         && offs[k + 1] == offs[k] + HeaderSize(kinds[k], frame[offs[k] + 1]) <= end
         && kinds[k + 1] == frame[offs[k]]
  }

  /** The run ends with a TCP (6) or UDP (17) header. */
  ghost predicate RunCarries(frame: seq<byte>, kinds: seq<byte>, offs: seq<nat>, end: nat, l4: L4Info)
    requires end <= |frame|
  {
    && IsHeaderRun(frame, kinds, offs, end)
    && var last := |offs| - 1;
       || (kinds[last] == 6 && TcpAt(frame, offs[last], end - offs[last], l4))
       || (kinds[last] == 17 && UdpAt(frame, offs[last], end - offs[last], l4))
  }

  lemma RunTail(frame: seq<byte>, kinds: seq<byte>, offs: seq<nat>, end: nat, l4: L4Info)
    requires end <= |frame| && RunCarries(frame, kinds, offs, end, l4) && 1 < |offs|
    ensures RunCarries(frame, kinds[1..], offs[1..], end, l4)
    ensures kinds[0] in {0, 43, 44, 51, 60} && offs[0] + 2 <= end && kinds[1] == frame[offs[0]]
    ensures offs[1] == offs[0] + HeaderSize(kinds[0], frame[offs[0] + 1]) <= end
  {
    hide TcpAt, UdpAt, HeaderSize;
    assert offs[0 + 1] == offs[0] + HeaderSize(kinds[0], frame[offs[0] + 1]);
    assert kinds[0 + 1] == frame[offs[0]];
  }

  lemma RunHead(frame: seq<byte>, kind: byte, off: nat, kinds: seq<byte>, offs: seq<nat>, end: nat, l4: L4Info)
    requires end <= |frame| && RunCarries(frame, kinds, offs, end, l4)
    requires kind in {0, 43, 44, 51, 60} && off + 2 <= end && kinds[0] == frame[off]
    requires offs[0] == off + HeaderSize(kind, frame[off + 1]) <= end
    ensures RunCarries(frame, [kind] + kinds, [off] + offs, end, l4)
  {
    hide TcpAt, UdpAt, HeaderSize;
  }

  /** One step of the walk, by the numbers of the RFCs. */
  lemma ChainStep(frame: seq<byte>, next: byte, off: nat, end: nat)
    requires end <= |frame|
    ensures
      ChainWalk(frame, next, off, end)
        == if off >= end then None
           else if next == 6 then ParseTcp(frame, off, end - off)
           else if next == 17 then ParseUdp(frame, off, end - off)
           else if next in {0, 43, 44, 51, 60} && off + 2 <= end && off + HeaderSize(next, frame[off + 1]) <= end
             then ChainWalk(frame, frame[off], off + HeaderSize(next, frame[off + 1]), end)
           else None
  {
    hide ParseTcp, ParseUdp;
  }

  lemma {:induction false} RunWalked(frame: seq<byte>, kinds: seq<byte>, offs: seq<nat>, end: nat, l4: L4Info)
    requires end <= |frame| && RunCarries(frame, kinds, offs, end, l4)
    ensures ChainWalk(frame, kinds[0], offs[0], end) == Some(l4)
    decreases |offs|
  {
    hide ChainWalk, ParseTcp, ParseUdp, TcpAt, UdpAt;
    ChainStep(frame, kinds[0], offs[0], end);
    if |offs| == 1 {
      var len := end - offs[0];
      NoneInNothing(frame, offs[0], len, l4);
      TransportExactly(frame, offs[0], if len < 0 then 0 else len, l4);
    } else {
      RunTail(frame, kinds, offs, end, l4);
      RunWalked(frame, kinds[1..], offs[1..], end, l4);
      assert offs[0] < end;
    }
  }

  lemma {:induction false} WalkedRun(frame: seq<byte>, next: byte, off: nat, end: nat)
    returns (kinds: seq<byte>, offs: seq<nat>)
    requires end <= |frame| && ChainWalk(frame, next, off, end).Some?
    ensures RunCarries(frame, kinds, offs, end, ChainWalk(frame, next, off, end).value)
    ensures RunStarts(kinds, offs, next, off)
    decreases end + 1 - Min(off, end)
  {
    hide ChainWalk, ParseTcp, ParseUdp, TcpAt, UdpAt;
    ChainStep(frame, next, off, end);
    var l4 := ChainWalk(frame, next, off, end).value;
    if next == 6 || next == 17 {
      TransportExactly(frame, off, end - off, l4);
      kinds, offs := [next], [off];
    } else {
      var size := HeaderSize(next, frame[off + 1]);
      kinds, offs := WalkedRun(frame, frame[off], off + size, end);
      RunHead(frame, next, off, kinds, offs, end, l4);
      kinds, offs := [next] + kinds, [off] + offs;
    }
  }

  /** Where the payload of an IPv6 packet ends in the captured bytes. */
  function PayloadEnd(frame: seq<byte>, ip: nat): nat
    requires ip + 40 <= |frame|
  {
    var end := ip + 40 + Word(frame, ip + 4);
    if end < |frame| then end else |frame|
  }

  ghost predicate Ipv6Carries(frame: seq<byte>, ip: nat, l4: L4Info) {
    && ip + 40 <= |frame| && 0x60 <= frame[ip] <= 0x6f
    && exists kinds: seq<byte>, offs: seq<nat> ::
         RunCarries(frame, kinds, offs, PayloadEnd(frame, ip), l4) && RunStarts(kinds, offs, frame[ip + 6], ip + 40)
  }

  ghost predicate RunStarts(kinds: seq<byte>, offs: seq<nat>, next: byte, off: nat) {
    0 < |kinds| && 0 < |offs| && kinds[0] == next && offs[0] == off
  }

  lemma Ipv6Exactly(frame: seq<byte>, ip: nat, l4: L4Info)
    ensures Ipv6Layout(frame, ip).l4 == Some(l4) <==> Ipv6Carries(frame, ip, l4)
    ensures
      var p := Ipv6Layout(frame, ip);
      p.frame == frame && p.ipStart == ip && p.isIpv6 && p.ipHeaderLen == 40
  {
    hide ChainWalk, RunCarries;
    if ip + 40 <= |frame| && frame[ip] / 16 == 6 {
      var end, next := PayloadEnd(frame, ip), frame[ip + 6];
      assert end == Ipv6PayloadEnd(frame, ip);
      if ChainWalk(frame, next, ip + 40, end) == Some(l4) {
        var kinds, offs := WalkedRun(frame, next, ip + 40, end);
      }
      forall kinds: seq<byte>, offs: seq<nat> |
          RunCarries(frame, kinds, offs, end, l4) && RunStarts(kinds, offs, next, ip + 40)
        ensures ChainWalk(frame, next, ip + 40, end) == Some(l4)
      {
        RunWalked(frame, kinds, offs, end, l4);
      }
    }
  }

  // ---------------------------------------------------------------- the fast path

  /** The frames the fast path takes over: untagged, no options, no fragment, wholly captured, with plain headers. */
  lemma FastPathExactly(frame: seq<byte>)
    ensures TryParseIpv4Plain(frame).Some? <==>
              && 54 <= |frame| && frame[12..15] == [0x08, 0x00, 0x45]
              && Word(frame, 20) % 0x4000 == 0
              && 14 + Word(frame, 16) <= |frame|
              && (frame[23] == 6 ==> 40 <= Word(frame, 16) && 0x50 <= frame[46] <= 0x5f)
              && (frame[23] == 17 ==> 28 <= Word(frame, 16))
  {
    if 54 <= |frame| {
      assert frame[12..15] == [frame[12], frame[13], frame[14]];
    }
  }

  // ---------------------------------------------------------------- whole frames

  /** The frame carries this transport header. */
  ghost predicate Carries(frame: seq<byte>, n: nat, l4: L4Info)
    requires Tagged(frame, n)
  {
    || (frame[12 + 4 * n] == 0x08 && frame[13 + 4 * n] == 0x00 && Ipv4Carries(frame, 14 + 4 * n, l4))
    || (frame[12 + 4 * n] == 0x86 && frame[13 + 4 * n] == 0xdd && Ipv6Carries(frame, 14 + 4 * n, l4))
  }

  /** The parser finds a transport header exactly if the frame carries it. */
  lemma HeaderFoundExactly(frame: seq<byte>, l4: L4Info)
    ensures Layout(frame).Ok? && Layout(frame).value.l4 == Some(l4) <==>
              exists n: nat :: Tagged(frame, n) && Carries(frame, n, l4)
  {
    hide Tagged, Ipv4Carries, Ipv6Carries, Layout, ParseIpv4, Ipv6Layout;
    if n: nat :| Tagged(frame, n) {
      FoundBehindTags(frame, n, l4);
      forall m: nat | Tagged(frame, m)
        ensures m == n
      {
        OneTagCount(frame, m, n);
      }
    } else {
      NoEthertype(frame);
    }
  }

  lemma FoundBehindTags(frame: seq<byte>, n: nat, l4: L4Info)
    requires Tagged(frame, n)
    ensures Layout(frame).Ok? && (Layout(frame).value.l4 == Some(l4) <==> Carries(frame, n, l4))
  {
    hide Ipv4Carries, Ipv6Carries, Layout, ParseIpv4, Ipv6Layout;
    EthertypeDecides(frame, n);
    Ipv4Exactly(frame, 14 + 4 * n, l4);
    Ipv6Exactly(frame, 14 + 4 * n, l4);
  }

  lemma OneTagCount(frame: seq<byte>, m: nat, n: nat)
    requires Tagged(frame, m) && Tagged(frame, n)
    ensures m == n
  {
  }

  /** Every other next-header value ends the search: ESP (50) and No Next Header (59) among them. */
  lemma OtherKindsEnd(frame: seq<byte>, next: byte, off: nat, end: nat)
    requires end <= |frame| && next !in {6, 17, 0, 43, 44, 51, 60}
    ensures ChainWalk(frame, next, off, end) == None
  {
    ChainStep(frame, next, off, end);
    hide ChainWalk;
  }

  /**
   The payload ends with the IP packet or the captured bytes. For IPv6 the announced length is taken to begin
   at the transport header, wherever the extension headers have put that.
   */
  lemma PayloadExactly(frame: seq<byte>)
    requires Layout(frame).Ok? && Layout(frame).value.l4.Some?
    ensures
      var p, l4 := Layout(frame).value, Layout(frame).value.l4.value;
      && LengthReadable(p) && p.frame == frame
      && var end := if p.isIpv6 then l4.headerStart + Word(frame, p.ipStart + 4)
                    else p.ipStart + Word(frame, p.ipStart + 2);
         && l4.payloadStart <= end && l4.payloadStart <= |frame|
         && Payload(p) == frame[l4.payloadStart..if end < |frame| then end else |frame|]
  {
    LayoutWellPlaced(frame);
    var p := Layout(frame).value;
    if !p.isIpv6 {
      Ipv4LengthCovers(frame);
    }
    hide Layout;
  }

  lemma Ipv4LengthCovers(frame: seq<byte>)
    requires Layout(frame).Ok? && Layout(frame).value.l4.Some? && !Layout(frame).value.isIpv6
    ensures
      var p := Layout(frame).value;
      && p.ipStart + 20 <= |frame|
      && p.ipHeaderLen + p.l4.value.headerLen <= Word(frame, p.ipStart + 2)
  {
    hide TagWalk;
    LayoutWellPlaced(frame);
  }
}
