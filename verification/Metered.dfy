/** A slimming pass under an I/O limit: what it charges, when the bucket grants it, and when it never does. */
module Metered {
  import opened Bytes
  import opened Limit
  import opened Packet
  import opened PcapFormat
  import opened PcapIo

  function Requests(charges: seq<nat>): (requests: seq<Request>)
    ensures |requests| == |charges|
  {
    seq(|charges|, i requires 0 <= i < |charges| => Acquire(charges[i]))
  }

  /** The calls a successful pass over `rs` makes on the limiter. */
  function PassRequests(rs: seq<Record>): seq<Request> {
    Requests(PassCharges(rs)) + [Flush]
  }

  lemma {:induction false} RequestedCharges(charges: seq<nat>)
    ensures Requested(Requests(charges)) == Requested(Requests(charges) + [Flush]) == Sum(charges)
    decreases |charges|
  {
    var requests := Requests(charges);
    assert (requests + [Flush])[..|requests|] == requests;
    if charges != [] {
      RequestedCharges(charges[..|charges| - 1]);
      assert requests[..|requests| - 1] == Requests(charges[..|charges| - 1]);
    }
  }

  /** The bytes a pass reads and writes never exceed twice the file. */
  lemma PassVolume(src: seq<byte>)
    requires SlimFile(src).Done?
    ensures Decode(src).Ok? && AllValid(Decode(src).value.records)
    ensures |Encode(Decode(src).value)| + |SlimFile(src).value| <= 2 * |src|
  {
    hide SlimFile, Decode, Encode, CountFile;
    ReadersAgree(src);
    SlimIsEncodeMapDecode(src);
    var tail := EncodeDecoded(src);
  }

  /**
   Slims `src` and makes the calls of that pass on the shared limiter, in their order, ending a successful
   one with a flush. With three rounds for each batch they are all served exactly when every batch fits the
   burst, and then the bucket has granted what was pending before and every byte read and written.
   */
  method MeteredSlim(src: seq<byte>, limits: ResourceLimits, clock: Clock, rounds: nat)
    returns (dst: seq<byte>, r: Outcome<SlimStats>, done: bool, ghost calls: seq<Call>)
    requires limits.Valid() && (limits.io != null ==> limits.io.lastRefill <= clock.now)
    modifies limits, limits.io, clock
    ensures SlimFile(src).Done? ==>
              && dst == SlimFile(src).value && r.Done?
              && Decode(src).Ok? && AllValid(Decode(src).value.records)
    ensures SlimFile(src).Done? && limits.io != null ==>
              var fits := AllFit(old(limits.ioPending), PassRequests(Decode(src).value.records), limits.io.burst);
              (done ==> fits) && (3 <= rounds && fits ==> done)
    ensures SlimFile(src).Done? && done && IO_BATCH_BYTES + 2 * |src| <= U64_MAX ==>
              && limits.ioPending == 0
              && (limits.io != null ==>
                    limits.granted == old(limits.granted) + old(limits.ioPending) + |Encode(Decode(src).value)| + |dst|)
    ensures limits.io != null ==>
              && CallsInOrder(old(limits.io.View()), calls)
              && TotalGranted(old(limits.io.View()), AllTries(calls)) == (limits.granted - old(limits.granted)) as real
    ensures limits.io == null ==> done
  {
    hide SlimFile, Decode, Encode, StatsOf, After, TotalGranted, CallsInOrder, AllTries, Requested, Sum, Bucket.Valid,
         AllFit, PassCharges, Requests;
    var meter := new Meter();
    NothingCharged();
    dst, r := SlimPcap(src, meter);
    RequestedCharges(meter.charges);
    if SlimFile(src).Done? {
      PassVolume(src);
      assert [] + PassCharges(Decode(src).value.records) == PassCharges(Decode(src).value.records);
    }
    var requests := Requests(meter.charges) + if r.Done? then [Flush] else [];
    done, calls := Serve(limits, clock, requests, rounds);
  }

  lemma NothingCharged()
    ensures Sum([]) == 0
  {
  }

  // ---------------------------------------------------------------- limits at which every capture passes

  function Max(a: nat, b: nat): nat {
    if a < b then b else a
  }

  lemma NeedBound(r: Record)
    ensures PCAP_REC_HDR_LEN <= Need(r) <= PCAP_REC_HDR_LEN + |r.frame|
  {
    hide OutFrame;
    OutFrameNoLonger(r.frame);
  }

  lemma {:induction false} ChargesBounded(rs: seq<Record>, largest: nat)
    requires forall r :: r in rs ==> |r.frame| <= largest
    ensures Buffered(rs) <= Max(WRITE_BATCH_CAP, PCAP_REC_HDR_LEN + largest)
    ensures forall c :: c in LoopCharges(rs) ==> c <= Max(WRITE_BATCH_CAP, PCAP_REC_HDR_LEN + largest)
    decreases |rs|
  {
    hide Need;
    if rs != [] {
      ChargesBounded(rs[..|rs| - 1], largest);
      NeedBound(rs[|rs| - 1]);
    }
  }

  /**
   A burst with room for the larger of a write batch and a record, on top of an almost full 256 KiB, serves
   every capture with frames of that size.
   */
  lemma PassFits(rs: seq<Record>, pending: nat, burst: real, largest: nat)
    requires pending < IO_BATCH_BYTES && forall r :: r in rs ==> |r.frame| <= largest
    requires (IO_BATCH_BYTES - 1 + Max(WRITE_BATCH_CAP, PCAP_REC_HDR_LEN + largest)) as real <= burst
    ensures AllFit(pending, PassRequests(rs), burst)
  {
    hide AllFit, Buffered, LoopCharges;
    ChargesBounded(rs, largest);
    var charges, requests, most := PassCharges(rs), PassRequests(rs), Max(WRITE_BATCH_CAP, PCAP_REC_HDR_LEN + largest);
    forall i | 0 <= i < |requests| && requests[i].Acquire?
      ensures requests[i].bytes <= most
    {
      assert requests[i].bytes == charges[i] && charges[i] in charges;
    }
    SmallRequestsFit(pending, requests, burst, most);
  }

  // ---------------------------------------------------------------- limits at which no long capture passes

  function Total(rs: seq<Record>): nat {
    if rs == [] then 0 else Total(rs[..|rs| - 1]) + Need(rs[|rs| - 1])
  }

  lemma {:induction false} TotalIsBody(e: Endian, rs: seq<Record>)
    requires AllValid(rs)
    ensures AllValid(SlimAll(rs)) && |EncodeAll(e, SlimAll(rs))| == Total(rs)
    decreases |rs|
  {
    if rs == [] {
      NothingYet(e);
    } else {
      hide EncodeAll, EncodeRecord, OutFrame;
      var k := |rs| - 1;
      assert rs[..k] + [rs[k]] == rs;
      TotalIsBody(e, rs[..k]);
      SlimAppend(e, rs[..k], rs[k]);
      EncodeRecordSize(e, SlimRecord(rs[k]));
    }
  }

  /** Output that exceeds the write batch leaves it at least once, and then nearly full. */
  lemma {:induction false} BatchWritten(rs: seq<Record>, most: nat) returns (k: nat)
    requires most <= WRITE_BATCH_CAP && forall r :: r in rs ==> PCAP_REC_HDR_LEN + |r.frame| <= most
    ensures Total(rs) <= WRITE_BATCH_CAP ==> Buffered(rs) == Total(rs)
    ensures WRITE_BATCH_CAP < Total(rs) ==> k < |LoopCharges(rs)| && WRITE_BATCH_CAP - most < LoopCharges(rs)[k]
    decreases |rs|
  {
    hide Need;
    k := 0;
    if rs != [] {
      var before, r := rs[..|rs| - 1], rs[|rs| - 1];
      NeedBound(r);
      k := BatchWritten(before, most);
      if Total(before) <= WRITE_BATCH_CAP < Total(rs) {
        k := |LoopCharges(before)| + 2;
      }
    }
  }

  /**
   Where the burst is below a nearly full write batch, no capture with more output than one batch is ever
   finished: the bucket refuses the write, however long the pass waits.
   */
  lemma PassStalls(src: seq<byte>, pending: nat, burst: real, most: nat)
    requires SlimFile(src).Done? && Decode(src).Ok? && PCAP_HDR_LEN + WRITE_BATCH_CAP < |SlimFile(src).value|
    requires forall r :: r in Decode(src).value.records ==> PCAP_REC_HDR_LEN + |r.frame| <= most
    requires IO_BATCH_BYTES + most <= WRITE_BATCH_CAP && burst <= (WRITE_BATCH_CAP - most) as real
    ensures !AllFit(pending, PassRequests(Decode(src).value.records), burst)
  {
    hide SlimFile, Decode, AllFit, Buffered, LoopCharges, Total, Need, EncodeAll, Quiet, SlimAll;
    SlimIsEncodeMapDecode(src);
    var c := Decode(src).value;
    TotalIsBody(c.endian, c.records);
    var k := BatchWritten(c.records, most);
    ChargesBounded(c.records, most);
    var charges := PassCharges(c.records);
    assert charges[k + 2] == LoopCharges(c.records)[k];
    assert LoopCharges(c.records)[k] in LoopCharges(c.records);
    LargeRequestStalls(pending, PassRequests(c.records), burst, k + 2);
  }

  /** An ordinary record: 1500 zero bytes. */
  function ZeroRecord(): (r: Record)
    ensures r.Valid()
  {
    Record(0, 0, 1500, Zeros(1500))
  }

  lemma ZerosKept()
    ensures Process(ZeroRecord().frame) == Kept
  {
    hide Zeros, Process;
    assert U16At(Zeros(1500), 12) == 0;
    NoIpKept(Zeros(1500));
  }

  lemma ZerosNeed()
    ensures Need(ZeroRecord()) == 1516
  {
    hide Process, Zeros;
    ZerosKept();
  }

  lemma {:induction false} TotalOfEqual(rs: seq<Record>, need: nat)
    requires forall r :: r in rs ==> Need(r) == need
    ensures Total(rs) == need * |rs|
    decreases |rs|
  {
    hide Need;
    if rs != [] {
      TotalOfEqual(rs[..|rs| - 1], need);
      assert need * |rs| == need * (|rs| - 1) + need;
    }
  }

  lemma LittleEndianHeader(header: seq<byte>)
    requires header == [0xd4, 0xc3, 0xb2, 0xa1] + Zeros(20)
    ensures ReadGlobalHeader(header) == Ok(Endian(true))
  {
    assert header[..4] == [0xd4, 0xc3, 0xb2, 0xa1] && header[..PCAP_HDR_LEN] == header;
    assert header[..4][0] != PCAPNG_MAGIC[0];
    MagicExactly(header);
    hide DetectEndian;
  }

  /**
   At 0.2 MB/s a capture of 400 ordinary frames is never finished: its batches of reads fit the burst of
   400000 bytes, its first write batch does not.
   */
  lemma StallWitness() returns (src: seq<byte>)
    ensures SlimFile(src).Done? && Decode(src).Ok? && |Decode(src).value.records| == 400
    ensures FullBucket(0.2, 0.0).Valid() && FullBucket(0.2, 0.0).burst == 400000.0
    ensures !AllFit(0, PassRequests(Decode(src).value.records), FullBucket(0.2, 0.0).burst)
  {
    hide SlimFile, Decode, Encode, AllFit, Total, Need, Process, ZeroRecord, Zeros, PassRequests,
         ReadGlobalHeader, EncodeAll;
    var header := [0xd4 as byte, 0xc3, 0xb2, 0xa1] + Zeros(20);
    LittleEndianHeader(header);
    var rs := seq(400, _ => ZeroRecord());
    var c := Capture(header, Endian(true), rs);
    DecodeEncoded(c);
    src := Encode(c);
    ZerosKept();
    ZerosNeed();
    TotalOfEqual(rs, 1516);
    CountIsDone(src);
    ReadersAgree(src);
    OutputSize(src);
    FrameSize();
    PassStalls(src, 0, 400000.0, 1516);
  }

  lemma FrameSize()
    ensures |ZeroRecord().frame| == 1500
  {
  }

  lemma CountIsDone(src: seq<byte>)
    requires Decode(src).Ok?
    ensures CountFile(src).Done?
  {
    hide Decode;
  }

  lemma OutputSize(src: seq<byte>)
    requires SlimFile(src).Done? && Decode(src).Ok?
    ensures |SlimFile(src).value| == PCAP_HDR_LEN + Total(Decode(src).value.records)
  {
    hide SlimFile, Decode, Total, EncodeAll, Quiet, SlimAll;
    SlimIsEncodeMapDecode(src);
    TotalIsBody(Decode(src).value.endian, Decode(src).value.records);
  }
}
