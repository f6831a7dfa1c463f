/** One frame through parse, decide and truncate. */
module Packet {
  import opened Bytes
  import opened Checksum
  import opened Parse
  import opened Policy
  import opened Truncate
  import opened Fidelity
  import opened Reparse

  /** `Panicked` stands for the out-of-range read of the fragment field, which unwinds in the source. */
  datatype PacketOutcome = Kept | Truncated(bytes: seq<byte>) | Panicked

  lemma DecisionImpliesCuttable(frame: seq<byte>)
    requires Layout(frame).Ok? && FlagsReadable(Layout(frame).value)
    ensures LengthReadable(Layout(frame).value)
    ensures DecideAction(Layout(frame).value) == Truncate ==> ParsedAndCuttable(Layout(frame).value)
  {
    LayoutWellPlaced(frame);
    hide Layout, WellPlaced;
  }

  /** What happens to a frame, without the fast path and without the editor's late refusals. */
  function Process(frame: seq<byte>): PacketOutcome {
    match Layout(frame)
    case Err(_) => Kept
    case Ok(p) =>
      if !FlagsReadable(p) then Panicked
      else
        DecisionImpliesCuttable(frame);
        match DecideAction(p)
        case Keep => Kept
        case Truncate => Truncated(Edited(p))
  }

  method ProcessPacket(frame: seq<byte>) returns (outcome: PacketOutcome, wasTruncated: bool)
    ensures outcome == Process(frame)
    ensures wasTruncated == outcome.Truncated?
  {
    hide Layout, WellPlaced, Edited;
    var parsed := ParseFrame(frame);
    if parsed.Err? {
      return Kept, false;
    }
    var p := parsed.value;
    LayoutWellPlaced(frame);
    if !FlagsReadable(p) {
      return Panicked, false;
    }
    DecisionImpliesCuttable(frame);
    match DecideAction(p) {
      case Keep =>
        return Kept, false;
      case Truncate =>
        var buf := new ByteVec(frame);
        var done := ApplyTruncateOnParsed(buf, p);
        if done {
          return Truncated(buf.data), true;
        } else {
          return Kept, false;
        }
    }
  }

  /** The bytes that replace a frame. */
  function OutFrame(frame: seq<byte>): seq<byte> {
    match Process(frame)
    case Truncated(bytes) => bytes
    case _ => frame
  }

  /** The effect follows the decision: truncated exactly when decided so, then strictly shorter by a known amount. */
  lemma DecisionAndEffectCoincide(frame: seq<byte>)
    ensures Process(frame).Truncated? <==>
              && Layout(frame).Ok?
              && LengthReadable(Layout(frame).value)
              && FlagsReadable(Layout(frame).value)
              && DecideAction(Layout(frame).value) == Truncate
    ensures Process(frame).Truncated? ==>
              var p := Layout(frame).value;
              && ParsedAndCuttable(p)
              && p.frame == frame
              && Process(frame).bytes == Edited(p)
              && |Edited(p)| == p.l4.value.payloadStart + TRUNCATE_PAYLOAD_BYTES < |frame|
  {
    hide Edited, WellPlaced;
    if Layout(frame).Ok? {
      LayoutWellPlaced(frame);
      if FlagsReadable(Layout(frame).value) {
        DecisionImpliesCuttable(frame);
      }
    }
    hide Layout;
  }

  /**
   The specification keeps a frame whose IP header is cut off by the snap length. The code does
   so exactly unless the frame is IPv4 with fewer than 8 bytes behind its L3 offset.
   */
  lemma PanicsExactly(frame: seq<byte>)
    ensures Process(frame).Panicked? <==>
              && 14 <= |frame|
              && TagWalk(frame, 12).Some?
              && TagWalk(frame, 12).value.0 == ETHERTYPE_IPV4
              && |frame| < TagWalk(frame, 12).value.1 + 8
  {
    hide TagWalk, ChainWalk, DecideAction, Edited;
  }

  lemma PanicWitness()
    ensures Process(Zeros(12) + [0x08, 0x00]).Panicked?
  {
    var frame := Zeros(12) + [0x08 as byte, 0x00];
    assert U16At(frame, 12) == ETHERTYPE_IPV4;
    assert TagWalk(frame, 12) == Some((ETHERTYPE_IPV4, 14));
    PanicsExactly(frame);
    assert frame == Zeros(12) + [0x08, 0x00];
  }

  /** A frame without an IP ethertype is kept; its bytes 6 and 7, taken for the fragment field, decide nothing. */
  lemma NoIpKept(frame: seq<byte>)
    requires 14 <= |frame| && U16At(frame, 12) !in {ETHERTYPE_VLAN, ETHERTYPE_IPV4, ETHERTYPE_IPV6}
    ensures Process(frame) == Kept
  {
    assert TagWalk(frame, 12) == Some((U16At(frame, 12), 14));
    hide TagWalk, U16At;
  }

  /** A truncated frame is always kept on a second pass: any header length, any chain, fast path or not. */
  lemma ProcessIdempotent(frame: seq<byte>)
    requires Process(frame).Truncated?
    ensures Process(Process(frame).bytes) == Kept
  {
    hide Edited, Layout, DecideAction;
    DecisionAndEffectCoincide(frame);
    SecondDecisionKeeps(Layout(frame).value);
  }

  lemma OutFrameIdempotent(frame: seq<byte>)
    requires !Process(frame).Panicked?
    ensures Process(OutFrame(frame)) == Kept && OutFrame(OutFrame(frame)) == OutFrame(frame)
            && |OutFrame(frame)| <= |frame|
  {
    hide Layout, Edited;
    if Process(frame).Truncated? {
      ProcessIdempotent(frame);
      DecisionAndEffectCoincide(frame);
    }
  }

  /** Everything a truncated frame keeps or repairs, in one place, for every IHL and every chain. */
  lemma TruncationFaithful(frame: seq<byte>)
    requires Process(frame).Truncated?
    ensures
      var p, out := Layout(frame).value, Process(frame).bytes;
      && ParsedAndCuttable(p)
      && HoldsHeaders(out, p)
      && |out| < |frame|
      && (forall i | 0 <= i < |out| && !InFootprint(p, i) :: out[i] == frame[i])
      && (!p.isIpv6 ==>
            (Verifies(out[p.ipStart..p.ipStart + p.ipHeaderLen]) <==>
               12 <= p.ipHeaderLen || (p.ipHeaderLen == 8 && TwoWordHeaderSum(p) == 0)))
      && (Verifies(Covered(out, p)) <==> (SumInAddresses(p) ==> CoveredWords(p) % 65535 == 0))
      && (Layout(out) == Ok(p.(frame := out)) <==> HeadersRecovered(p))
      && (!p.isIpv6 && p.ipHeaderLen == 0 ==> !HeadersRecovered(p))
  {
    hide Edited, Layout, InFootprint, Covered, Verifies, WellPlaced, Process, SumInAddresses, HeadersRecovered,
         TwoWordHeaderSum, CoveredWords, Put16, Payload;
    DecisionAndEffectCoincide(frame);
    var p := Layout(frame).value;
    forall i | 0 <= i < |Edited(p)| && !InFootprint(p, i)
      ensures Edited(p)[i] == frame[i]
    {
      EditFootprint(p, i);
    }
    if !p.isIpv6 {
      HeaderSumValid(p);
      if p.ipHeaderLen == 0 {
        TruncateNeedsPayload(p);
        ZeroLengthHeaderLost(p);
      }
    }
    TransportSumValid(p);
    ReparseFidelity(p);
  }

  lemma TruncateNeedsPayload(p: ParsedFrame)
    requires LengthReadable(p) && FlagsReadable(p) && DecideAction(p) == Truncate
    ensures |Payload(p)| > TRUNCATE_PAYLOAD_BYTES
  {
    hide Payload;
  }
}
