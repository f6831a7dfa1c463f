/** A captured frame whose new IPv6 payload length does not fit its field. */
module LengthWrap {
  import opened Bytes
  import opened Parse
  import opened Policy
  import opened Reparse
  import opened Packet
  import opened Printer = PacketPrinter

  /** `n` hop-by-hop headers of 2048 bytes, then one of 2016: for 31 of them, 65504 bytes in all. */
  function LongChain(n: nat): seq<Extension> {
    if n == 0 then [Extension(0, 251, Zeros(2014))]
    else [Extension(0, 255, Zeros(2046))] + LongChain(n - 1)
  }

  lemma {:induction false} LongChainSize(n: nat)
    ensures |PrintChain(LongChain(n), 0)| == 2048 * n + 2016
    ensures forall e :: e in LongChain(n) ==> e.Valid()
  {
    if n == 0 {
      PrintedChain(LongChain(n), 0);
      PrintedChain([], 0);
      assert LongChain(n)[1..] == [];
    } else {
      LongChainSize(n - 1);
      PrintedChain(LongChain(n), 0);
      assert LongChain(n)[1..] == LongChain(n - 1);
    }
  }

  /** The chain and UDP header fill the payload length almost completely and the padding is taken for payload. */
  lemma LengthWrapWitness() returns (frame: seq<byte>)
    ensures Process(frame).Truncated?
    ensures Layout(frame).value.isIpv6 && Layout(frame).value.l4.Some? && !PayloadLengthFits(Layout(frame).value)
  {
    hide LongChain, PrintChain, Printer.Packet.Print, Layout, ChainWalk, Zeros;
    var pkt := Printer.Packet(Zeros(12), [], V6(0, Zeros(3), 64, Zeros(32), LongChain(31)),
                              UdpHeader(443, 443, Zeros(4)), [], Zeros(49));
    LongChainSize(31);
    assert pkt.Valid();
    frame := pkt.Print();
    ParsingInvertsPrinting(pkt);
    hide Payload;
    assert |Payload(pkt.Expected())| == 49;
    assert DecideAction(pkt.Expected()) == Truncate;
    DecisionAndEffectCoincide(frame);
  }
}
