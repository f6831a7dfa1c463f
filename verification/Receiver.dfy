/**
 What a receiver adds up over a truncated frame, in the words of the RFCs: addresses, protocol number, segment
 size and segment, taken from the bytes of the frame alone.
 */
module Receiver {
  import opened Bytes
  import opened Checksum
  import opened Parse
  import opened Truncate
  import opened Fidelity
  import opened Packet

  /** A one's-complement sum of words is all ones. */
  predicate AllOnes(words: nat) {
    0 < words && words % 65535 == 0
  }

  lemma VerifiesIsAllOnes(d: seq<byte>)
    ensures Verifies(d) <==> AllOnes(WordSum(d))
  {
    hide WordSum;
    if WordSum(d) > 0 {
      FullResidue(WordSum(d));
    }
  }

  lemma PseudoWords(addresses: seq<byte>, last: seq<byte>, segment: seq<byte>)
    requires |addresses| % 2 == 0 && |last| % 2 == 0
    ensures WordSum(addresses + last + segment) == WordSum(addresses) + WordSum(last) + WordSum(segment)
  {
    hide WordSum;
    WordSumConcat(addresses, last);
    WordSumConcat(addresses + last, segment);
  }

  lemma TwoFields(a: u16, b: u16)
    ensures WordSum([Hi(a), Lo(a), Hi(b), Lo(b)]) == a + b
  {
    var d := [Hi(a), Lo(a), Hi(b), Lo(b)];
    assert d[2..] == [Hi(b), Lo(b)] && d[2..][2..] == [];
    assert WordSum(d[2..]) == Be16(Hi(b), Lo(b)) + WordSum(d[2..][2..]);
  }

  lemma FourFields(a: u16, b: u16, c: u16, e: u16)
    ensures WordSum([Hi(a), Lo(a), Hi(b), Lo(b), Hi(c), Lo(c), Hi(e), Lo(e)]) == a + b + c + e
  {
    var x, y: seq<byte> := [Hi(a), Lo(a), Hi(b), Lo(b)], [Hi(c), Lo(c), Hi(e), Lo(e)];
    TwoFields(a, b);
    TwoFields(c, e);
    hide WordSum;
    WordSumConcat(x, y);
    assert x + y == [Hi(a), Lo(a), Hi(b), Lo(b), Hi(c), Lo(c), Hi(e), Lo(e)];
  }

  /** The IPv6 pseudo-header adds the addresses, the size and the protocol number. */
  lemma CoveredIpv6(b: seq<byte>, p: ParsedFrame)
    requires HoldsHeaders(b, p) && p.isIpv6
    ensures
      var l4 := p.l4.value;
      WordSum(Covered(b, p)) == WordSum(b[p.ipStart + 8..p.ipStart + 40]) + (|b| - l4.headerStart)
                                 + (if l4.proto == Tcp then 6 else 17) + WordSum(b[l4.headerStart..])
  {
    hide WordSum, Hi, Lo;
    var ip, at, proto := p.ipStart, p.l4.value.headerStart, ProtoByte(p.l4.value.proto);
    var last := Be32(|b| - at) + [0, 0, 0, proto];
    assert Hi(0) == 0 && Lo(0) == 0 && Hi(proto) == 0 && Lo(proto) == proto by {
      SmallHalves(proto);
    }
    FourFields(0, |b| - at, 0, proto);
    assert last == [Hi(0), Lo(0), Hi(|b| - at), Lo(|b| - at), Hi(0), Lo(0), Hi(proto), Lo(proto)];
    assert b[ip + 8..ip + 40] == b[ip + 8..ip + 24] + b[ip + 24..ip + 40];
    assert Covered(b, p) == b[ip + 8..ip + 40] + last + b[at..];
    PseudoWords(b[ip + 8..ip + 40], last, b[at..]);
  }

  lemma SmallHalves(v: byte)
    ensures Hi(0) == 0 && Lo(0) == 0 && Hi(v) == 0 && Lo(v) == v
  {
  }

  /** The IPv4 pseudo-header adds source, final destination, the size and the protocol number. */
  lemma CoveredIpv4(b: seq<byte>, p: ParsedFrame)
    requires HoldsHeaders(b, p) && !p.isIpv6
    ensures
      var l4 := p.l4.value;
      WordSum(Covered(b, p)) == WordSum(b[p.ipStart + 12..p.ipStart + 16])
                                 + WordSum(PseudoDst(b, p.ipStart, p.ipHeaderLen)) + (|b| - l4.headerStart)
                                 + (if l4.proto == Tcp then 6 else 17) + WordSum(b[l4.headerStart..])
  {
    hide WordSum, Hi, Lo, PseudoDst;
    var ip, at, proto := p.ipStart, p.l4.value.headerStart, ProtoByte(p.l4.value.proto);
    var last: seq<byte> := [0, proto, Hi(|b| - at), Lo(|b| - at)];
    SmallHalves(proto);
    TwoFields(proto, |b| - at);
    assert last == [Hi(proto), Lo(proto), Hi(|b| - at), Lo(|b| - at)];
    var src, dst := b[ip + 12..ip + 16], PseudoDst(b, ip, p.ipHeaderLen);
    assert Covered(b, p) == (src + dst) + last + b[at..];
    PseudoWords(src + dst, last, b[at..]);
    WordSumConcat(src, dst);
  }

  /** The transport checksum is sent as 0xffff rather than zero for UDP, and never as 0xffff for TCP. */
  lemma StoredSumRange(p: ParsedFrame)
    requires Cuttable(p)
    ensures SumAt(p) == p.l4.value.headerStart + if p.l4.value.proto == Tcp then 16 else 6
    ensures U16At(Edited(p), SumAt(p)) != if p.l4.value.proto == Tcp then 0xffff else 0
  {
    hide Edited, Unsummed, Covered, WordSum, U16At;
    EditedIsSummed(p);
    Put16Reads(Unsummed(p), SumAt(p), NewSum(p));
    if p.isIpv6 {
      CoveredIpv6(Unsummed(p), p);
    } else {
      CoveredIpv4(Unsummed(p), p);
    }
  }

  /** Every receiver of a truncated IPv6 frame finds its TCP or UDP checksum right. */
  lemma Ipv6Accepted(frame: seq<byte>)
    requires Process(frame).Truncated? && Layout(frame).value.isIpv6
    ensures
      var p, out := Layout(frame).value, Process(frame).bytes;
      && Cuttable(p)
      && var ip, at, tcp := p.ipStart, p.l4.value.headerStart, p.l4.value.proto == Tcp;
         && ip + 40 <= at && at + 18 <= |out|
         && AllOnes(WordSum(out[ip + 8..ip + 40]) + (|out| - at) + (if tcp then 6 else 17) + WordSum(out[at..]))
         && (if tcp then U16At(out, at + 16) != 0xffff else U16At(out, at + 6) != 0)
  {
    hide Edited, Layout, Process, WordSum, Verifies, Covered, U16At;
    DecisionAndEffectCoincide(frame);
    var p := Layout(frame).value;
    StoredSumRange(p);
    TransportSumValid(p);
    VerifiesIsAllOnes(Covered(Edited(p), p));
    CoveredIpv6(Edited(p), p);
  }

  /**
   Where a packet with the header `b[ip..end]` finally goes: the last address of the first source route on its
   run of options `offs`, or without one the destination in the header.
   */
  ghost predicate FinallyGoesTo(b: seq<byte>, ip: nat, end: nat, offs: seq<nat>, k: nat, dst: seq<byte>)
    requires ip + 20 <= |b| && end <= |b|
  {
    && FirstOnRun(b, offs, ip + 20, end, k)
    && if k == |offs| - 1 then dst == b[ip + 16..ip + 20]
       else dst == b[offs[k] + b[offs[k] + 1] - 4..offs[k] + b[offs[k] + 1]]
  }

  /**
   Every receiver of a truncated IPv4 frame with IHL 5 or more finds the header checksum right, and the TCP or UDP
   checksum over source, final destination, size and protocol.
   */
  lemma Ipv4Accepted(frame: seq<byte>, offs: seq<nat>, k: nat, dst: seq<byte>)
    requires Process(frame).Truncated? && !Layout(frame).value.isIpv6 && 20 <= Layout(frame).value.ipHeaderLen
    requires
      var p, out := Layout(frame).value, Process(frame).bytes;
      && p.ipStart + 20 <= |out| && p.ipStart + p.ipHeaderLen <= |out|
      && FinallyGoesTo(out, p.ipStart, p.ipStart + p.ipHeaderLen, offs, k, dst)
    ensures
      var p, out := Layout(frame).value, Process(frame).bytes;
      && Cuttable(p)
      && var ip, at, tcp := p.ipStart, p.l4.value.headerStart, p.l4.value.proto == Tcp;
         && at == ip + p.ipHeaderLen && at + 18 <= |out|
         && AllOnes(WordSum(out[ip..at]))
         && AllOnes(WordSum(out[ip + 12..ip + 16]) + WordSum(dst) + (|out| - at) + (if tcp then 6 else 17)
                      + WordSum(out[at..]))
         && (if tcp then U16At(out, at + 16) != 0xffff else U16At(out, at + 6) != 0)
  {
    hide Edited, Layout, Process, WordSum, Verifies, Covered, U16At, PseudoDst, FinallyGoesTo;
    DecisionAndEffectCoincide(frame);
    var p := Layout(frame).value;
    var out := Edited(p);
    StoredSumRange(p);
    TransportSumValid(p);
    VerifiesIsAllOnes(Covered(out, p));
    CoveredIpv4(out, p);
    LongHeaderVerifies(p);
    VerifiesIsAllOnes(out[p.ipStart..p.ipStart + p.ipHeaderLen]);
    FinalIsPseudoDst(out, p.ipStart, p.ipHeaderLen, offs, k, dst);
  }

  lemma FinalIsPseudoDst(b: seq<byte>, ip: nat, ipHeaderLen: nat, offs: seq<nat>, k: nat, dst: seq<byte>)
    requires HasIpv4Header(b, ip, ipHeaderLen) && FinallyGoesTo(b, ip, ip + ipHeaderLen, offs, k, dst)
    ensures PseudoDst(b, ip, ipHeaderLen) == dst
  {
    hide PseudoDst, IsOptionRun, SourceRoute;
    SourceRouteWalk(b, ip, ipHeaderLen, offs, k);
  }
}
