/** The three stream loops over a capture: slim, analyze and count. */
module PcapIo {
  import opened Bytes
  import opened Packet
  import opened PcapFormat

  const WRITE_BATCH_CAP: nat := 512 * 1024
  const SKIP_BUF_CAP: nat := 65536

  /** `Failed` carries the reported error; `Unwound` is the panic a frame can cause. */
  datatype Outcome<+T> = Done(value: T) | Failed(error: PcapError) | Unwound

  datatype SlimStats = SlimStats(inPkts: nat, truncated: nat, kept: nat, inBytes: nat, outBytes: nat)

  // ---------------------------------------------------------------- what slimming a capture means

  function SlimRecord(r: Record): Record {
    r.(frame := OutFrame(r.frame))
  }

  function SlimAll(rs: seq<Record>): seq<Record> {
    seq(|rs|, i requires 0 <= i < |rs| => SlimRecord(rs[i]))
  }

  /** No frame of `rs` makes the packet step panic. */
  predicate Quiet(rs: seq<Record>) {
    forall r :: r in rs ==> !Process(r.frame).Panicked?
  }

  function Truncations(rs: seq<Record>): nat {
    if rs == [] then 0 else Truncations(rs[..|rs| - 1]) + if Process(rs[|rs| - 1].frame).Truncated? then 1 else 0
  }

  lemma SlimAllValid(rs: seq<Record>)
    requires AllValid(rs)
    ensures AllValid(SlimAll(rs))
  {
    hide OutFrame;
    forall r | r in SlimAll(rs)
      ensures r.Valid()
    {
      var i :| 0 <= i < |rs| && SlimAll(rs)[i] == r;
      assert rs[i] in rs;
      OutFrameNoLonger(rs[i].frame);
    }
  }

  lemma OutFrameNoLonger(frame: seq<byte>)
    ensures |OutFrame(frame)| <= |frame|
  {
    hide Process;
    if Process(frame).Truncated? {
      OutFrameIdempotent(frame);
    }
  }

  /** Decode, map every frame, encode: the reference the stream loop is measured against. */
  function SlimFile(file: seq<byte>): Outcome<seq<byte>> {
    match ReadGlobalHeader(file)
    case Err(error) => Failed(error)
    case Ok(e) =>
      var scan := ScanRecords(e, file[PCAP_HDR_LEN..]);
      ScannedValid(e, file[PCAP_HDR_LEN..]);
      SlimAllValid(scan.records);
      if !Quiet(scan.records) then Unwound
      else if !scan.complete then Failed(UnexpectedEof)
      else Done(file[..PCAP_HDR_LEN] + EncodeAll(e, SlimAll(scan.records)))
  }

  /** The statistics of a successful pass over `file`. */
  function StatsOf(file: seq<byte>, outBytes: nat): SlimStats
    requires Decode(file).Ok?
  {
    var rs := Decode(file).value.records;
    TruncationsBound(rs);
    SlimStats(|rs|, Truncations(rs), |rs| - Truncations(rs), |file|, outBytes)
  }

  lemma {:induction false} TruncationsBound(rs: seq<Record>)
    ensures Truncations(rs) <= |rs|
  {
    hide Process;
    if rs != [] {
      TruncationsBound(rs[..|rs| - 1]);
    }
  }

  function CountFile(file: seq<byte>): Outcome<nat> {
    match Decode(file)
    case Err(error) => Failed(error)
    case Ok(c) => Done(|c.records|)
  }

  // ---------------------------------------------------------------- what a pass charges to the limiter

  /** A record of `need` bytes no longer fits the write batch, which is then written first. */
  predicate Spills(buffered: nat, need: nat) {
    buffered != 0 && buffered + need > WRITE_BATCH_CAP
  }

  /** The size of what replaces a record. */
  function Need(r: Record): nat {
    PCAP_REC_HDR_LEN + |OutFrame(r.frame)|
  }

  /** Bytes in the write batch once `rs` have been processed. */
  function Buffered(rs: seq<Record>): nat {
    if rs == [] then 0
    else
      var before, need := Buffered(rs[..|rs| - 1]), Need(rs[|rs| - 1]);
      if Spills(before, need) then need else before + need
  }

  /** The charges for `rs`: each record header and body read, and each write batch that became full. */
  function LoopCharges(rs: seq<Record>): seq<nat> {
    hide OutFrame, Process;
    if rs == [] then []
    else
      var before, r := rs[..|rs| - 1], rs[|rs| - 1];
      LoopCharges(before) + [PCAP_REC_HDR_LEN, |r.frame|]
        + if Spills(Buffered(before), Need(r)) then [Buffered(before)] else []
  }

  /** All charges of a successful slimming pass, in order. */
  function PassCharges(rs: seq<Record>): seq<nat> {
    [PCAP_HDR_LEN, PCAP_HDR_LEN] + LoopCharges(rs) + if Buffered(rs) == 0 then [] else [Buffered(rs)]
  }

  lemma LoopStart()
    ensures Buffered([]) == 0 && LoopCharges([]) == []
  {
  }

  lemma LoopStep(rs: seq<Record>, r: Record)
    ensures Buffered(rs + [r]) == if Spills(Buffered(rs), Need(r)) then Need(r) else Buffered(rs) + Need(r)
    ensures LoopCharges(rs + [r])
         == LoopCharges(rs) + [PCAP_REC_HDR_LEN, |r.frame|]
              + if Spills(Buffered(rs), Need(r)) then [Buffered(rs)] else []
  {
    hide Need, Spills;
    assert (rs + [r])[..|rs|] == rs;
  }

  /** Two records of together 524288 bytes fill one write batch; one byte more, and the first is written by itself. */
  lemma BatchBoundary(r: Record, s: Record)
    ensures
      var a, b := 16 + |OutFrame(r.frame)|, 16 + |OutFrame(s.frame)|;
      PassCharges([r, s]) == [24, 24, 16, |r.frame|, 16, |s.frame|] + if a + b <= 524288 then [a + b] else [a, b]
  {
    hide OutFrame;
    LoopStart();
    LoopStep([], r);
    LoopStep([r], s);
    assert [] + [r] == [r] && [r] + [s] == [r, s];
  }

  // ---------------------------------------------------------------- streams

  class Reader {
    const data: seq<byte>
    var pos: nat

    constructor (bytes: seq<byte>)
      ensures data == bytes && pos == 0
    {
      data := bytes;
      pos := 0;
    }

    /** All of the next `n` bytes, or nothing and the end of the stream. */
    method ReadExact(n: nat) returns (r: Option<seq<byte>>)
      requires pos <= |data|
      modifies this
      ensures pos <= |data|
      ensures old(pos) + n <= |data| ==> r == Some(data[old(pos)..old(pos) + n]) && pos == old(pos) + n
      ensures |data| < old(pos) + n ==> r == None
    {
      if pos + n <= |data| {
        r := Some(data[pos..pos + n]);
        pos := pos + n;
      } else {
        r := None;
        pos := |data|;
      }
    }
  }

  class Writer {
    var written: seq<byte>

    constructor ()
      ensures written == []
    {
      written := [];
    }

    method WriteAll(b: seq<byte>)
      modifies this
      ensures written == old(written) + b
    {
      written := written + b;
    }
  }

  function Sum(ns: seq<nat>): nat {
    if ns == [] then 0 else Sum(ns[..|ns| - 1]) + ns[|ns| - 1]
  }

  /** The limiter as the loops see it: the byte counts charged to it, in order. */
  class Meter {
    var charges: seq<nat>

    constructor ()
      ensures charges == []
    {
      charges := [];
    }

    function Charged(): nat
      reads this
    {
      Sum(charges)
    }

    method AccountIo(bytes: nat)
      modifies this
      ensures charges == old(charges) + [bytes]
      ensures Charged() == old(Charged()) + bytes
    {
      charges := charges + [bytes];
      assert charges[..|charges| - 1] == old(charges);
    }
  }

  class WriteBatch {
    var buf: seq<byte>
    const writer: Writer
    const meter: Meter

    constructor (writer: Writer, meter: Meter)
      ensures this.writer == writer && this.meter == meter && buf == []
    {
      this.writer := writer;
      this.meter := meter;
      buf := [];
    }

    /** What a direct writer would have written by now. */
    function Contents(): seq<byte>
      reads this, writer
    {
      writer.written + buf
    }

    /** Batching never reorders or drops a byte, and holds back at most the cap or one record. */
    method WriteRecord(recHdr: seq<byte>, frame: seq<byte>)
      requires |recHdr| == PCAP_REC_HDR_LEN
      modifies this, writer, meter
      ensures Contents() == old(Contents()) + recHdr + frame
      ensures
        var need := PCAP_REC_HDR_LEN + |frame|;
        && |buf| == (if Spills(old(|buf|), need) then need else old(|buf|) + need)
        && meter.charges == old(meter.charges) + if Spills(old(|buf|), need) then [old(|buf|)] else []
      ensures |buf| <= if PCAP_REC_HDR_LEN + |frame| < WRITE_BATCH_CAP then WRITE_BATCH_CAP
                       else PCAP_REC_HDR_LEN + |frame|
      ensures meter.Charged() - |writer.written| == old(meter.Charged() - |writer.written|)
    {
      var need := PCAP_REC_HDR_LEN + |frame|;
      if buf != [] && |buf| + need > WRITE_BATCH_CAP {
        Flush();
      }
      buf := buf + recHdr;
      buf := buf + frame;
    }

    method Flush()
      modifies this, writer, meter
      ensures buf == [] && Contents() == old(Contents()) == writer.written
      ensures meter.charges == old(meter.charges) + if old(|buf|) == 0 then [] else [old(|buf|)]
      ensures meter.Charged() - |writer.written| == old(meter.Charged() - |writer.written|)
    {
      if buf == [] {
        return;
      }
      var n := |buf|;
      writer.WriteAll(buf);
      meter.AccountIo(n);
      buf := [];
    }
  }

  /** Steps over a record body in pieces of the skip buffer. */
  method SkipPacketBody(reader: Reader, inclLen: nat) returns (ok: bool)
    requires reader.pos <= |reader.data|
    modifies reader
    ensures reader.pos <= |reader.data|
    ensures ok == (old(reader.pos) + inclLen <= |reader.data|)
    ensures ok ==> reader.pos == old(reader.pos) + inclLen
  {
    var remaining: nat := inclLen;
    while remaining > 0
      invariant remaining <= inclLen
      invariant reader.pos <= |reader.data|
      invariant reader.pos + remaining == old(reader.pos) + inclLen
    {
      var chunk := if remaining < SKIP_BUF_CAP then remaining else SKIP_BUF_CAP;
      var piece := reader.ReadExact(chunk);
      if piece.None? {
        return false;
      }
      remaining := remaining - chunk;
    }
    return true;
  }

  // ---------------------------------------------------------------- progress of a stream loop

  /** The records `before` have been read from `file` behind its header, and the stream stands at `at`. */
  ghost predicate Progress(e: Endian, file: seq<byte>, before: seq<Record>, at: nat) {
    && PCAP_HDR_LEN <= at <= |file|
    && AllValid(before)
    && ScanRecords(e, file[PCAP_HDR_LEN..]) == ScanRecords(e, file[at..]).After(before)
  }

  /** The complete record `r` stands at `at`. */
  ghost predicate HasRecord(e: Endian, file: seq<byte>, at: nat, r: Record) {
    && at + PCAP_REC_HDR_LEN <= |file|
    && at + PCAP_REC_HDR_LEN + e.ReadU32(file[at..][8..12]) <= |file|
    && r == FirstRecord(e, file[at..])
  }

  /** A record body is cut short at `at`. */
  ghost predicate CutAt(e: Endian, file: seq<byte>, at: nat) {
    at + PCAP_REC_HDR_LEN <= |file| < at + PCAP_REC_HDR_LEN + e.ReadU32(file[at..][8..12])
  }

  lemma ProgressStart(e: Endian, file: seq<byte>)
    requires PCAP_HDR_LEN <= |file|
    ensures Progress(e, file, [], PCAP_HDR_LEN)
  {
    hide ScanRecords;
  }

  lemma ProgressStep(e: Endian, file: seq<byte>, before: seq<Record>, at: nat, r: Record)
    requires Progress(e, file, before, at)
    requires HasRecord(e, file, at, r)
    ensures r.Valid()
    ensures Progress(e, file, before + [r], at + PCAP_REC_HDR_LEN + |r.frame|)
  {
    hide ScanRecords, FirstRecord, Endian.ReadU32;
    ScanStep(e, file[at..]);
    assert file[at..][PCAP_REC_HDR_LEN + |r.frame|..] == file[at + PCAP_REC_HDR_LEN + |r.frame|..];
    var rest := ScanRecords(e, file[at + PCAP_REC_HDR_LEN + |r.frame|..]).records;
    assert before + ([r] + rest) == before + [r] + rest;
  }

  lemma ProgressEnd(e: Endian, file: seq<byte>, before: seq<Record>, at: nat)
    requires Progress(e, file, before, at)
    ensures PCAP_HDR_LEN <= |file|
    ensures |file| < at + PCAP_REC_HDR_LEN ==> ScanRecords(e, file[PCAP_HDR_LEN..]) == Scan(before, true)
    ensures CutAt(e, file, at) ==> ScanRecords(e, file[PCAP_HDR_LEN..]) == Scan(before, false)
  {
    hide ScanRecords, Endian.ReadU32;
    ScanStep(e, file[at..]);
    assert before + [] == before;
  }

  lemma TruncationsAppend(rs: seq<Record>, r: Record)
    ensures Truncations(rs + [r]) == Truncations(rs) + if Process(r.frame).Truncated? then 1 else 0
  {
    hide Process;
    assert (rs + [r])[..|rs|] == rs;
  }

  lemma SlimAppend(e: Endian, rs: seq<Record>, r: Record)
    requires AllValid(rs) && r.Valid()
    ensures AllValid(rs + [r]) && AllValid(SlimAll(rs)) && AllValid(SlimAll(rs + [r])) && SlimRecord(r).Valid()
    ensures EncodeAll(e, SlimAll(rs + [r])) == EncodeAll(e, SlimAll(rs)) + EncodeRecord(e, SlimRecord(r))
  {
    hide EncodeAll, EncodeRecord, Process, OutFrame;
    SlimAllValid(rs);
    OutFrameNoLonger(r.frame);
    assert SlimAll(rs + [r]) == SlimAll(rs) + [SlimRecord(r)];
    EncodeAppend(e, SlimAll(rs), SlimRecord(r));
    SlimAllValid(rs + [r]);
  }

  lemma NextRecord(e: Endian, s: seq<byte>, r: Record)
    requires PCAP_REC_HDR_LEN <= |s| && PCAP_REC_HDR_LEN + e.ReadU32(s[8..12]) <= |s|
    requires r == Record(e.ReadU32(s[0..4]), e.ReadU32(s[4..8]), e.ReadU32(s[12..16]),
                         s[PCAP_REC_HDR_LEN..PCAP_REC_HDR_LEN + e.ReadU32(s[8..12])])
    ensures r == FirstRecord(e, s) && r.Valid()
  {
    hide Endian.ReadU32;
  }

  lemma UnwindHere(e: Endian, file: seq<byte>, before: seq<Record>, r: Record, at: nat)
    requires Progress(e, file, before + [r], at) && Process(r.frame).Panicked?
    ensures PCAP_HDR_LEN <= |file| && !Quiet(ScanRecords(e, file[PCAP_HDR_LEN..]).records)
  {
    hide Process, ScanRecords;
    assert (before + [r])[|before|] == r;
    assert r in ScanRecords(e, file[PCAP_HDR_LEN..]).records;
  }

  lemma NothingYet(e: Endian)
    ensures SlimAll([]) == [] && EncodeAll(e, []) == [] && Truncations([]) == 0
  {
  }

  lemma EncodeSlim(e: Endian, r: Record)
    requires r.Valid()
    ensures SlimRecord(r).Valid()
    ensures EncodeRecord(e, SlimRecord(r))
         == RecordHeader(e, r.tsSec, r.tsUsec, |OutFrame(r.frame)|, r.origLen) + OutFrame(r.frame)
  {
    hide OutFrame, Endian.WriteU32;
    OutFrameNoLonger(r.frame);
  }

  datatype Counters = Counters(inPkts: nat, truncated: nat, kept: nat)

  /**
   A slimming pass over `file` has consumed `before` and stands at `at`; `out` is the encoding of what
   replaces those records, `read` their own size, and the counters sort them.
   */
  ghost predicate Reached(e: Endian, file: seq<byte>, before: seq<Record>, at: nat, out: seq<byte>, read: nat,
                          n: Counters) {
    && Progress(e, file, before, at)
    && Quiet(before)
    && AllValid(SlimAll(before))
    && out == EncodeAll(e, SlimAll(before))
    && read == |EncodeAll(e, before)|
    && n.inPkts == |before| == n.truncated + n.kept
    && n.truncated == Truncations(before)
  }

  lemma ReachedStart(e: Endian, file: seq<byte>)
    requires PCAP_HDR_LEN <= |file|
    ensures Reached(e, file, [], PCAP_HDR_LEN, [], 0, Counters(0, 0, 0))
  {
    hide Progress, EncodeAll, Truncations;
    ProgressStart(e, file);
    NothingYet(e);
  }

  function Counted(n: Counters, outcome: PacketOutcome): Counters {
    if outcome.Truncated? then Counters(n.inPkts + 1, n.truncated + 1, n.kept)
    else Counters(n.inPkts + 1, n.truncated, n.kept + 1)
  }

  lemma ReachedStep(e: Endian, file: seq<byte>, before: seq<Record>, at: nat, out: seq<byte>, read: nat,
                    n: Counters, r: Record)
    requires Reached(e, file, before, at, out, read, n)
    requires HasRecord(e, file, at, r)
    ensures Progress(e, file, before + [r], at + PCAP_REC_HDR_LEN + |r.frame|)
    ensures SlimRecord(r).Valid()
    ensures !Process(r.frame).Panicked? ==>
              Reached(e, file, before + [r], at + PCAP_REC_HDR_LEN + |r.frame|, out + EncodeRecord(e, SlimRecord(r)),
                      read + PCAP_REC_HDR_LEN + |r.frame|, Counted(n, Process(r.frame)))
  {
    hide Process, EncodeAll, EncodeRecord, Truncations, Progress, OutFrame;
    assert AllValid(before) by {
      ProgressValid(e, file, before, at);
    }
    ProgressStep(e, file, before, at, r);
    EncodeAppend(e, before, r);
    EncodeRecordSize(e, r);
    SlimAppend(e, before, r);
    TruncationsAppend(before, r);
  }

  lemma ProgressValid(e: Endian, file: seq<byte>, before: seq<Record>, at: nat)
    requires Progress(e, file, before, at)
    ensures AllValid(before) && PCAP_HDR_LEN <= at <= |file|
  {
    hide ScanRecords;
  }

  lemma EncodeRecordSize(e: Endian, r: Record)
    requires r.Valid()
    ensures |EncodeRecord(e, r)| == PCAP_REC_HDR_LEN + |r.frame|
  {
  }

  lemma UnwoundFile(src: seq<byte>)
    requires ReadGlobalHeader(src).Ok?
    requires PCAP_HDR_LEN <= |src| && !Quiet(ScanRecords(ReadGlobalHeader(src).value, src[PCAP_HDR_LEN..]).records)
    ensures SlimFile(src) == Unwound
  {
    hide DetectEndian, ScanRecords, Quiet, EncodeAll;
  }

  // ---------------------------------------------------------------- the three loops

  datatype ReadOutcome = EndOfStream | CutShort | Got(record: Record)

  lemma WindowOfTail(b: seq<byte>, pos: nat, n: nat, lo: nat, hi: nat)
    requires pos + n <= |b| && lo <= hi <= n
    ensures b[pos..pos + n][lo..hi] == b[pos..][lo..hi] == b[pos + lo..pos + hi]
  {
    var w := b[pos..pos + n];
    assert forall k :: 0 <= k < hi - lo ==> w[lo..hi][k] == b[pos + lo + k];
    assert w[lo..hi] == b[pos + lo..pos + hi];
    assert b[pos..][lo..hi] == b[pos + lo..pos + hi];
  }

  /** Reads one record, header first and then its body, and charges what was read. */
  method ReadRecord(reader: Reader, e: Endian, meter: Meter) returns (next: ReadOutcome)
    requires reader.pos <= |reader.data|
    modifies reader, meter
    ensures reader.pos <= |reader.data|
    ensures
      match next
      case EndOfStream =>
        && |reader.data| < old(reader.pos) + PCAP_REC_HDR_LEN
        && meter.charges == old(meter.charges) && meter.Charged() == old(meter.Charged())
      case CutShort => CutAt(e, reader.data, old(reader.pos))
      case Got(r) =>
        && HasRecord(e, reader.data, old(reader.pos), r) && r.Valid()
        && old(reader.pos) < reader.pos
        && reader.pos == old(reader.pos) + PCAP_REC_HDR_LEN + |r.frame|
        && meter.Charged() == old(meter.Charged()) + PCAP_REC_HDR_LEN + |r.frame|
        && meter.charges == old(meter.charges) + [PCAP_REC_HDR_LEN, |r.frame|]
  {
    hide Endian.ReadU32, FirstRecord;
    ghost var at := reader.pos;
    ghost var s := reader.data[at..];
    var recHdr := reader.ReadExact(PCAP_REC_HDR_LEN);
    if recHdr.None? {
      return EndOfStream;
    }
    var hdr := recHdr.value;
    meter.AccountIo(PCAP_REC_HDR_LEN);
    WindowOfTail(reader.data, at, PCAP_REC_HDR_LEN, 0, 4);
    WindowOfTail(reader.data, at, PCAP_REC_HDR_LEN, 4, 8);
    WindowOfTail(reader.data, at, PCAP_REC_HDR_LEN, 8, 12);
    WindowOfTail(reader.data, at, PCAP_REC_HDR_LEN, 12, 16);
    var tsSec := e.ReadU32(hdr[0..4]);
    var tsUsec := e.ReadU32(hdr[4..8]);
    var inclLen := e.ReadU32(hdr[8..12]);
    var origLen := e.ReadU32(hdr[12..16]);
    var frameBuf := reader.ReadExact(inclLen);
    if frameBuf.None? {
      return CutShort;
    }
    meter.AccountIo(inclLen);
    WindowOfTail(reader.data, at, |s|, PCAP_REC_HDR_LEN, PCAP_REC_HDR_LEN + inclLen);
    next := Got(Record(tsSec, tsUsec, origLen, frameBuf.value));
    NextRecord(e, s, next.record);
  }

  /** Processes one record and queues what replaces it, with its header rewritten. */
  method SlimOne(batch: WriteBatch, e: Endian, rec: Record) returns (outcome: PacketOutcome)
    requires rec.Valid()
    modifies batch, batch.writer, batch.meter
    ensures outcome == Process(rec.frame)
    ensures SlimRecord(rec).Valid()
    ensures !outcome.Panicked? ==> batch.Contents() == old(batch.Contents()) + EncodeRecord(e, SlimRecord(rec))
    ensures !outcome.Panicked? ==>
              && |batch.buf|
                 == (if Spills(old(|batch.buf|), Need(rec)) then Need(rec) else old(|batch.buf|) + Need(rec))
              && batch.meter.charges
                 == old(batch.meter.charges) + if Spills(old(|batch.buf|), Need(rec)) then [old(|batch.buf|)] else []
    ensures batch.meter.Charged() - |batch.writer.written| == old(batch.meter.Charged() - |batch.writer.written|)
  {
    hide Process, EncodeRecord, RecordHeader;
    EncodeSlim(e, rec);
    var wasTruncated: bool;
    outcome, wasTruncated := ProcessPacket(rec.frame);
    if outcome.Panicked? {
      return;
    }
    var frameOut := if outcome.Truncated? then outcome.bytes else rec.frame;
    var newIncl := |frameOut|;
    var recHdr := RecordHeader(e, rec.tsSec, rec.tsUsec, newIncl, rec.origLen);
    batch.WriteRecord(recHdr, frameOut);
    assert old(batch.Contents()) + recHdr + frameOut == old(batch.Contents()) + (recHdr + frameOut);
  }

  /** How a pass over the record area ended. */
  datatype PassEnd = PassDone(n: Counters) | PassCut | PassUnwound

  /** The slim loop behind the global header. */
  method SlimRecords(reader: Reader, e: Endian, batch: WriteBatch)
    returns (end: PassEnd, ghost before: seq<Record>, ghost out: seq<byte>)
    requires reader.pos == PCAP_HDR_LEN <= |reader.data| && batch.buf == []
    modifies reader, batch, batch.writer, batch.meter
    ensures
      match end
      case PassDone(n) =>
        && ScanRecords(e, reader.data[PCAP_HDR_LEN..]) == Scan(before, true)
        && batch.writer.written == old(batch.Contents()) + out
        && batch.meter.charges
           == old(batch.meter.charges) + LoopCharges(before)
                + (if Buffered(before) == 0 then [] else [Buffered(before)])
        && (exists at, read :: Reached(e, reader.data, before, at, out, read, n)
             && batch.meter.Charged() - |batch.writer.written|
                == old(batch.meter.Charged() - |batch.writer.written|) + read)
      case PassCut => ScanRecords(e, reader.data[PCAP_HDR_LEN..]) == Scan(before, false) && Quiet(before)
      case PassUnwound => !Quiet(ScanRecords(e, reader.data[PCAP_HDR_LEN..]).records)
  {
    hide *;
    before, out := [], [];
    var n := Counters(0, 0, 0);
    ghost var read: nat := 0;
    ghost var lead, base := batch.Contents(), batch.meter.Charged() - |batch.writer.written|;
    ReachedStart(e, reader.data);
    LoopStart();
    while true
      invariant reader.pos <= |reader.data|
      invariant Reached(e, reader.data, before, reader.pos, out, read, n)
      invariant batch.Contents() == lead + out
      invariant |batch.buf| == Buffered(before) && batch.meter.charges == old(batch.meter.charges) + LoopCharges(before)
      invariant batch.meter.Charged() - |batch.writer.written| == base + read
      decreases |reader.data| - reader.pos
    {
      ghost var at := reader.pos;
      ReachedParts(e, reader.data, before, at, out, read, n);
      ProgressEnd(e, reader.data, before, at);
      var next := ReadRecord(reader, e, batch.meter);
      match next {
        case EndOfStream =>
          batch.Flush();
          return PassDone(n), before, out;
        case CutShort =>
          return PassCut, before, out;
        case Got(rec) =>
          ReachedStep(e, reader.data, before, at, out, read, n, rec);
          LoopStep(before, rec);
          var outcome := SlimOne(batch, e, rec);
          if outcome.Panicked? {
            UnwindHere(e, reader.data, before, rec, at + PCAP_REC_HDR_LEN + |rec.frame|);
            return PassUnwound, before, out;
          }
          n := Counted(n, outcome);
          before, out := before + [rec], out + EncodeRecord(e, SlimRecord(rec));
          read := read + PCAP_REC_HDR_LEN + |rec.frame|;
      }
    }
  }

  lemma ReachedParts(e: Endian, file: seq<byte>, before: seq<Record>, at: nat, out: seq<byte>, read: nat, n: Counters)
    requires Reached(e, file, before, at, out, read, n)
    ensures Progress(e, file, before, at) && Quiet(before)
  {
  }

  /** From the end of the loop to the reference result. */
  lemma PassEnds(src: seq<byte>, e: Endian, before: seq<Record>, complete: bool)
    requires ReadGlobalHeader(src) == Ok(e) && PCAP_HDR_LEN <= |src|
    requires ScanRecords(e, src[PCAP_HDR_LEN..]) == Scan(before, complete)
    ensures AllValid(before) && AllValid(SlimAll(before))
    ensures !Quiet(before) ==> SlimFile(src) == Unwound
    ensures Quiet(before) ==>
              SlimFile(src) == if complete then Done(src[..PCAP_HDR_LEN] + EncodeAll(e, SlimAll(before)))
                               else Failed(UnexpectedEof)
    ensures Decode(src) == if complete then Ok(Capture(src[..PCAP_HDR_LEN], e, before)) else Err(UnexpectedEof)
    ensures complete ==> |Encode(Decode(src).value)| == PCAP_HDR_LEN + |EncodeAll(e, before)|
  {
    hide ReadGlobalHeader, ScanRecords, Quiet, EncodeAll, SlimAll;
    ScannedValid(e, src[PCAP_HDR_LEN..]);
    SlimAllValid(before);
  }

  lemma HeaderPresent(file: seq<byte>)
    requires ReadGlobalHeader(file).Ok?
    ensures PCAP_HDR_LEN <= |file|
  {
    hide DetectEndian;
  }

  lemma HeaderFails(file: seq<byte>)
    requires ReadGlobalHeader(file).Err?
    ensures SlimFile(file) == Failed(ReadGlobalHeader(file).error) && Decode(file) == Err(ReadGlobalHeader(file).error)
  {
    hide ReadGlobalHeader;
  }

  /** The counters of a finished pass are the statistics of the file. */
  lemma ReachedStats(e: Endian, file: seq<byte>, before: seq<Record>, at: nat, out: seq<byte>, read: nat, n: Counters)
    requires Reached(e, file, before, at, out, read, n)
    requires Decode(file).Ok? && Decode(file).value.records == before
    ensures SlimStats(n.inPkts, n.truncated, n.kept, |file|, 0) == StatsOf(file, 0)
    ensures AllValid(SlimAll(before)) && AllValid(before) && Quiet(before)
    ensures out == EncodeAll(e, SlimAll(before)) && read == |EncodeAll(e, before)|
  {
    hide Decode, EncodeAll, Truncations, Quiet, ScanRecords;
  }

  /** Slims `src`: decode, map, encode, with every byte read and written charged once. */
  method SlimPcapToWriter(src: seq<byte>, writer: Writer, meter: Meter) returns (r: Outcome<SlimStats>)
    modifies writer, meter
    ensures
      match SlimFile(src)
      case Failed(error) => r == Failed(error)
      case Unwound => r == Unwound
      case Done(out) =>
        && Decode(src).Ok? && AllValid(Decode(src).value.records)
        && r == Done(StatsOf(src, 0))
        && writer.written == old(writer.written) + out
        && meter.Charged() == old(meter.Charged()) + |Encode(Decode(src).value)| + |out|
        && meter.charges == old(meter.charges) + PassCharges(Decode(src).value.records)
  {
    hide LoopCharges, Buffered, Sum, ReadGlobalHeader, SlimFile, Decode, ScanRecords, Reached, Quiet, EncodeAll,
         SlimAll, AllValid, Encode, StatsOf;
    var header := ReadGlobalHeader(src);
    if header.Err? {
      HeaderFails(src);
      return Failed(header.error);
    }
    HeaderPresent(src);
    var e := header.value;
    var reader := new Reader(src);
    var ghdr := reader.ReadExact(PCAP_HDR_LEN);
    meter.AccountIo(PCAP_HDR_LEN);
    writer.WriteAll(ghdr.value);
    meter.AccountIo(PCAP_HDR_LEN);
    var batch := new WriteBatch(writer, meter);
    var end, before, out := SlimRecords(reader, e, batch);
    match end {
      case PassDone(n) =>
        PassEnds(src, e, before, true);
        ghost var at, read :| Reached(e, src, before, at, out, read, n)
             && meter.Charged() - |writer.written| == old(meter.Charged() - |writer.written|) + PCAP_HDR_LEN + read;
        ReachedStats(e, src, before, at, out, read, n);
        return Done(SlimStats(n.inPkts, n.truncated, n.kept, |src|, 0));
      case PassCut =>
        PassEnds(src, e, before, false);
        return Failed(UnexpectedEof);
      case PassUnwound =>
        UnwoundFile(src);
        return Unwound;
    }
  }

  /** Slims into an empty destination and reports its size. */
  method SlimPcap(src: seq<byte>, meter: Meter) returns (dst: seq<byte>, r: Outcome<SlimStats>)
    modifies meter
    ensures
      match SlimFile(src)
      case Failed(error) => r == Failed(error)
      case Unwound => r == Unwound
      case Done(out) =>
        && dst == out && Decode(src).Ok? && AllValid(Decode(src).value.records)
        && r == Done(StatsOf(src, |out|))
        && meter.Charged() == old(meter.Charged()) + |Encode(Decode(src).value)| + |out|
        && meter.charges == old(meter.charges) + PassCharges(Decode(src).value.records)
  {
    hide SlimFile, Decode, Encode, EncodeAll, PassCharges;
    var writer := new Writer();
    r := SlimPcapToWriter(src, writer, meter);
    dst := writer.written;
    assert [] + dst == dst;
    if r.Done? {
      r := Done(r.value.(outBytes := |dst|));
    }
  }

  /** Predicts the statistics of slimming, output size included, without writing. */
  method AnalyzePcap(src: seq<byte>, meter: Meter) returns (r: Outcome<SlimStats>)
    modifies meter
    ensures
      match SlimFile(src)
      case Failed(error) => r == Failed(error)
      case Unwound => r == Unwound
      case Done(out) =>
        && Decode(src).Ok? && AllValid(Decode(src).value.records)
        && r == Done(StatsOf(src, |out|))
        && meter.Charged() == old(meter.Charged()) + |Encode(Decode(src).value)|
  {
    hide *;
    var header := ReadGlobalHeader(src);
    if header.Err? {
      HeaderFails(src);
      return Failed(header.error);
    }
    HeaderPresent(src);
    var e := header.value;
    var reader := new Reader(src);
    var ghdr := reader.ReadExact(PCAP_HDR_LEN);
    meter.AccountIo(PCAP_HDR_LEN);
    var n := Counters(0, 0, 0);
    var bodyBytes := 0;
    ghost var before: seq<Record>, out: seq<byte>, read: nat := [], [], 0;
    ReachedStart(e, src);
    while true
      invariant reader.pos <= |src|
      invariant Reached(e, src, before, reader.pos, out, read, n)
      invariant bodyBytes == |out|
      invariant meter.Charged() == old(meter.Charged()) + PCAP_HDR_LEN + read
      decreases |src| - reader.pos
    {
      ghost var at := reader.pos;
      ReachedParts(e, src, before, at, out, read, n);
      ProgressEnd(e, src, before, at);
      var next := ReadRecord(reader, e, meter);
      match next {
        case EndOfStream =>
          PassEnds(src, e, before, true);
          ReachedStats(e, src, before, at, out, read, n);
          StatsSize(src, PCAP_HDR_LEN + bodyBytes);
          return Done(SlimStats(n.inPkts, n.truncated, n.kept, |src|, PCAP_HDR_LEN + bodyBytes));
        case CutShort =>
          PassEnds(src, e, before, false);
          return Failed(UnexpectedEof);
        case Got(rec) =>
          ReachedStep(e, src, before, at, out, read, n, rec);
          var outcome, wasTruncated := ProcessPacket(rec.frame);
          if outcome.Panicked? {
            UnwindHere(e, src, before, rec, at + PCAP_REC_HDR_LEN + |rec.frame|);
            UnwoundFile(src);
            return Unwound;
          }
          OutLength(e, rec, outcome);
          var outLen := if outcome.Truncated? then |outcome.bytes| else |rec.frame|;
          n := Counted(n, outcome);
          bodyBytes := bodyBytes + PCAP_REC_HDR_LEN + outLen;
          before, out := before + [rec], out + EncodeRecord(e, SlimRecord(rec));
          read := read + PCAP_REC_HDR_LEN + |rec.frame|;
      }
    }
  }

  lemma StatsSize(file: seq<byte>, outBytes: nat)
    requires Decode(file).Ok?
    ensures StatsOf(file, outBytes) == StatsOf(file, 0).(outBytes := outBytes)
  {
    hide Decode;
  }

  lemma OutLength(e: Endian, r: Record, outcome: PacketOutcome)
    requires r.Valid() && outcome == Process(r.frame) && !outcome.Panicked?
    ensures SlimRecord(r).Valid()
    ensures |EncodeRecord(e, SlimRecord(r))|
         == PCAP_REC_HDR_LEN + if outcome.Truncated? then |outcome.bytes| else |r.frame|
  {
    hide Process;
    OutFrameNoLonger(r.frame);
  }

  /** Counts the records by skipping their bodies. */
  method CountPackets(src: seq<byte>, meter: Meter) returns (r: Outcome<nat>)
    modifies meter
    ensures r == CountFile(src)
    ensures r.Done? ==>
              && Decode(src).Ok? && AllValid(Decode(src).value.records)
              && meter.Charged() == old(meter.Charged()) + |Encode(Decode(src).value)|
  {
    hide ReadGlobalHeader, ScanRecords, CountFile, Progress, Decode, Encode, EncodeAll, AllValid, SlimFile,
         Endian.ReadU32, HasRecord, CutAt, CountedSoFar, Sum;
    var header := ReadGlobalHeader(src);
    if header.Err? {
      CountOf(src);
      HeaderFails(src);
      return Failed(header.error);
    }
    HeaderPresent(src);
    var e := header.value;
    var reader := new Reader(src);
    var ghdr := reader.ReadExact(PCAP_HDR_LEN);
    meter.AccountIo(PCAP_HDR_LEN);
    var count := 0;
    ghost var before: seq<Record> := [];
    ProgressStart(e, src);
    CountedStart(e);
    CountOf(src);
    while true
      invariant reader.pos <= |src|
      invariant Progress(e, src, before, reader.pos)
      invariant count == |before|
      invariant CountedSoFar(e, before, meter.Charged() - old(meter.Charged()) - PCAP_HDR_LEN)
      decreases |src| - reader.pos
    {
      ghost var at := reader.pos;
      ProgressValid(e, src, before, at);
      ProgressEnd(e, src, before, at);
      var recHdr := reader.ReadExact(PCAP_REC_HDR_LEN);
      if recHdr.None? {
        PassEnds(src, e, before, true);
        CountedEnd(e, before, meter.Charged() - old(meter.Charged()) - PCAP_HDR_LEN);
        return Done(count);
      }
      meter.AccountIo(PCAP_REC_HDR_LEN);
      var inclLen := e.ReadU32(recHdr.value[8..12]);
      WindowOfTail(src, at, PCAP_REC_HDR_LEN, 8, 12);
      var ok := SkipPacketBody(reader, inclLen);
      if !ok {
        CutHere(e, src, at, inclLen);
        PassEnds(src, e, before, false);
        return Failed(UnexpectedEof);
      }
      meter.AccountIo(inclLen);
      ghost var rec := RecordHere(e, src, at, inclLen);
      ProgressStep(e, src, before, at, rec);
      CountedStep(e, before, rec, meter.Charged() - old(meter.Charged()) - PCAP_HDR_LEN);
      count := count + 1;
      before := before + [rec];
    }
  }

  /** `charge` is the size of the records `before`. */
  ghost predicate CountedSoFar(e: Endian, before: seq<Record>, charge: int) {
    AllValid(before) && charge == |EncodeAll(e, before)|
  }

  lemma CountedStart(e: Endian)
    ensures CountedSoFar(e, [], 0)
  {
  }

  lemma CountedEnd(e: Endian, before: seq<Record>, charge: int)
    requires CountedSoFar(e, before, charge)
    ensures AllValid(before) && charge == |EncodeAll(e, before)|
  {
  }

  lemma CountedStep(e: Endian, before: seq<Record>, r: Record, charge: int)
    requires CountedSoFar(e, before, charge - PCAP_REC_HDR_LEN - |r.frame|) && r.Valid()
    ensures CountedSoFar(e, before + [r], charge)
  {
    hide EncodeAll, EncodeRecord;
    EncodeAppend(e, before, r);
    EncodeRecordSize(e, r);
  }

  lemma CountOf(file: seq<byte>)
    ensures CountFile(file) == match Decode(file) case Err(error) => Failed(error) case Ok(c) => Done(|c.records|)
  {
  }

  lemma CutHere(e: Endian, file: seq<byte>, at: nat, inclLen: nat)
    requires at + PCAP_REC_HDR_LEN <= |file| < at + PCAP_REC_HDR_LEN + inclLen
    requires inclLen == e.ReadU32(file[at..][8..12])
    ensures CutAt(e, file, at)
  {
  }

  lemma RecordHere(e: Endian, file: seq<byte>, at: nat, inclLen: nat) returns (r: Record)
    requires at + PCAP_REC_HDR_LEN + inclLen <= |file| && inclLen == e.ReadU32(file[at..][8..12])
    ensures HasRecord(e, file, at, r) && |r.frame| == inclLen
  {
    r := FirstRecord(e, file[at..]);
  }

  // ---------------------------------------------------------------- laws of slimming

  /** The three readers refuse the same files, for the same reasons: by their length and their first four bytes. */
  lemma HeaderRefusals(file: seq<byte>)
    ensures |file| < 24 ==> SlimFile(file) == Failed(HeaderTooShort) && CountFile(file) == Failed(HeaderTooShort)
    ensures 24 <= |file| ==>
              var magic := file[..4];
              && (magic == [0x0a, 0x0d, 0x0d, 0x0a] ==>
                    SlimFile(file) == Failed(Pcapng) && CountFile(file) == Failed(Pcapng))
              && (magic !in {[0x0a, 0x0d, 0x0d, 0x0a], [0xd4, 0xc3, 0xb2, 0xa1], [0xa1, 0xb2, 0xc3, 0xd4]} ==>
                    SlimFile(file) == Failed(UnknownMagic) && CountFile(file) == Failed(UnknownMagic))
              && (magic in {[0xd4, 0xc3, 0xb2, 0xa1], [0xa1, 0xb2, 0xc3, 0xd4]} ==>
                    && SlimFile(file) !in {Failed(HeaderTooShort), Failed(Pcapng), Failed(UnknownMagic)}
                    && CountFile(file) !in {Failed(HeaderTooShort), Failed(Pcapng), Failed(UnknownMagic)}
                    && (Decode(file).Ok? ==> Decode(file).value.endian.le == (magic[0] == 0xd4)))
  {
    hide ReadGlobalHeader, ScanRecords, EncodeAll, Quiet, SlimAll;
    HeaderExactly(file);
  }

  /**
   With a known header, slimming ends by a panic exactly if some record read has a frame that makes the packet
   step panic; otherwise with an error exactly if a record body is cut short.
   */
  lemma SlimOutcome(file: seq<byte>)
    requires ReadGlobalHeader(file).Ok?
    ensures PCAP_HDR_LEN <= |file|
    ensures
      var scan := ScanRecords(ReadGlobalHeader(file).value, file[24..]);
      var panics := !Quiet(scan.records);
      && (panics <==> exists i :: 0 <= i < |scan.records| && Process(scan.records[i].frame).Panicked?)
      && (SlimFile(file) == Unwound <==> panics)
      && (SlimFile(file) == Failed(UnexpectedEof) <==> !panics && !scan.complete)
      && (SlimFile(file).Done? <==> !panics && scan.complete)
      && (CountFile(file) == Failed(UnexpectedEof) <==> !scan.complete)
      && (CountFile(file) == if scan.complete then Done(|scan.records|) else Failed(UnexpectedEof))
  {
    hide ReadGlobalHeader, ScanRecords, EncodeAll, SlimAll, Process;
    HeaderPresent(file);
    QuietExactly(ScanRecords(ReadGlobalHeader(file).value, file[24..]).records);
    hide Quiet;
  }

  lemma QuietExactly(rs: seq<Record>)
    ensures Quiet(rs) <==> !exists i :: 0 <= i < |rs| && Process(rs[i].frame).Panicked?
  {
    hide Process;
    if !Quiet(rs) {
      var r :| r in rs && Process(r.frame).Panicked?;
      var i :| 0 <= i < |rs| && rs[i] == r;
      assert Process(rs[i].frame).Panicked?;
    }
  }

  /** In the output a record keeps bytes 0 to 8 and 12 to 16 of its header; bytes 8 to 12 name the new length. */
  lemma SlimmedByBytes(e: Endian, s: seq<byte>)
    requires 16 <= |s| && 16 + Number(e.le, s[8..12]) <= |s|
    ensures
      var n := 16 + Number(e.le, s[8..12]);
      var r, frame := FirstRecord(e, s), OutFrame(s[16..n]);
      && n == 16 + e.ReadU32(s[8..12]) && SlimRecord(r).Valid()
      && exists len: seq<byte> ::
           && |len| == 4 && Number(e.le, len) == |frame|
           && EncodeRecord(e, SlimRecord(r)) == s[0..8] + len + s[12..16] + frame
  {
    hide Endian.ReadU32, Endian.WriteU32, OutFrame, Number;
    ReadsNumber(e, s[8..12]);
    var r := FirstRecord(e, s);
    var len := |OutFrame(r.frame)|;
    OutFrameNoLonger(r.frame);
    WrittenRead(e, s[0..4]);
    WrittenRead(e, s[4..8]);
    WrittenRead(e, s[12..16]);
    WritesNumber(e, len);
    assert s[0..8] == s[0..4] + s[4..8];
    assert EncodeRecord(e, SlimRecord(r)) == s[0..8] + e.WriteU32(len) + s[12..16] + OutFrame(r.frame);
  }

  /** What the statistics count: records, frames cut, frames kept, and the sizes of both files. */
  lemma StatsExactly(file: seq<byte>)
    requires SlimFile(file).Done?
    ensures Decode(file).Ok?
    ensures
      var rs, stats := Decode(file).value.records, StatsOf(file, |SlimFile(file).value|);
      && stats.inPkts == |rs| == stats.truncated + stats.kept
      && stats.truncated == |set i | 0 <= i < |rs| && Process(rs[i].frame).Truncated?|
      && stats.inBytes == |file| && stats.outBytes == |SlimFile(file).value|
  {
    SlimIsEncodeMapDecode(file);
    hide SlimFile, Decode, Process;
    TruncationsCounted(Decode(file).value.records);
  }

  lemma {:induction false} TruncationsCounted(rs: seq<Record>)
    ensures Truncations(rs) == |set i | 0 <= i < |rs| && Process(rs[i].frame).Truncated?|
    decreases |rs|
  {
    hide Process;
    var cut := set i | 0 <= i < |rs| && Process(rs[i].frame).Truncated?;
    if rs != [] {
      var k := |rs| - 1;
      var before := set i | 0 <= i < |rs[..k]| && Process(rs[..k][i].frame).Truncated?;
      TruncationsCounted(rs[..k]);
      if Process(rs[k].frame).Truncated? {
        assert cut == before + {k};
      } else {
        assert cut == before;
      }
    } else {
      assert cut == {};
    }
  }

  /** An accepted capture has a well-formed decoding, and its output is that decoding mapped and encoded. */
  lemma SlimIsEncodeMapDecode(file: seq<byte>)
    requires SlimFile(file).Done?
    ensures Decode(file).Ok? && WellFormed(Decode(file).value) && Quiet(Decode(file).value.records)
    ensures
      var c := Decode(file).value;
      var d := c.(records := SlimAll(c.records));
      WellFormed(d) && SlimFile(file).value == Encode(d)
  {
    hide ReadGlobalHeader, ScanRecords, EncodeAll, Quiet;
    DecodedWellFormed(file);
    SlimAllValid(Decode(file).value.records);
  }

  /**
   Stream homomorphism: the output decodes to the same header, byte order and number of records, each
   with its timestamps and original length, and with its frame replaced by the packet result.
   */
  lemma SlimHomomorphism(file: seq<byte>)
    requires SlimFile(file).Done?
    ensures Decode(file).Ok?
    ensures
      var c := Decode(file).value;
      && Decode(SlimFile(file).value) == Ok(c.(records := SlimAll(c.records)))
      && |SlimAll(c.records)| == |c.records|
      && forall i | 0 <= i < |c.records| ::
           SlimAll(c.records)[i] == c.records[i].(frame := OutFrame(c.records[i].frame))
  {
    SlimIsEncodeMapDecode(file);
    hide SlimFile, Decode, Encode, WellFormed, Quiet, OutFrame;
    var c := Decode(file).value;
    DecodeEncoded(c.(records := SlimAll(c.records)));
  }

  lemma SlimAllIdempotent(rs: seq<Record>)
    requires Quiet(rs)
    ensures Quiet(SlimAll(rs)) && SlimAll(SlimAll(rs)) == SlimAll(rs) && Truncations(SlimAll(rs)) == 0
  {
    hide Process, OutFrame;
    forall i | 0 <= i < |rs|
      ensures Process(SlimAll(rs)[i].frame) == Kept && SlimRecord(SlimAll(rs)[i]) == SlimAll(rs)[i]
    {
      assert rs[i] in rs;
      OutFrameIdempotent(rs[i].frame);
    }
    NoTruncations(SlimAll(rs));
  }

  lemma {:induction false} NoTruncations(rs: seq<Record>)
    requires forall i :: 0 <= i < |rs| ==> Process(rs[i].frame) == Kept
    ensures Truncations(rs) == 0
  {
    hide Process;
    if rs != [] {
      NoTruncations(rs[..|rs| - 1]);
    }
  }

  /** Slimming a slim file reproduces it byte for byte and truncates nothing. */
  lemma SlimIdempotent(file: seq<byte>)
    requires SlimFile(file).Done?
    ensures SlimFile(SlimFile(file).value) == SlimFile(file)
    ensures Decode(SlimFile(file).value).Ok? && Truncations(Decode(SlimFile(file).value).value.records) == 0
  {
    SlimHomomorphism(file);
    SlimIsEncodeMapDecode(file);
    hide SlimFile, Decode, Encode, WellFormed, Quiet, OutFrame, SlimAll;
    var out, c := SlimFile(file).value, Decode(file).value;
    SlimAllIdempotent(c.records);
    SlimDecoded(out);
  }

  lemma SlimDecoded(file: seq<byte>)
    requires Decode(file).Ok? && Quiet(Decode(file).value.records)
    ensures
      var c := Decode(file).value;
      var d := c.(records := SlimAll(c.records));
      WellFormed(d) && SlimFile(file) == Done(Encode(d))
  {
    hide ReadGlobalHeader, ScanRecords, EncodeAll, Quiet;
    DecodedWellFormed(file);
    SlimAllValid(Decode(file).value.records);
  }

  /**
   The readers agree: slimming succeeds exactly when counting does and no frame panics; the output
   counts to the same number of packets; and the output is never larger than the input.
   */
  lemma ReadersAgree(file: seq<byte>)
    ensures SlimFile(file).Done? <==> CountFile(file).Done? && Quiet(Decode(file).value.records)
    ensures SlimFile(file).Done? ==>
              && CountFile(SlimFile(file).value) == CountFile(file)
              && |SlimFile(file).value| <= |file|
              && StatsOf(file, 0).inPkts == CountFile(file).value
              && PCAP_HDR_LEN + PCAP_REC_HDR_LEN * CountFile(file).value <= |file|
    ensures CountFile(file).Failed? && CountFile(file).error != UnexpectedEof ==>
              SlimFile(file) == Failed(CountFile(file).error)
  {
    if CountFile(file).Done? && Quiet(Decode(file).value.records) {
      SlimDecoded(file);
    }
    if SlimFile(file).Done? {
      SlimHomomorphism(file);
      SlimIsEncodeMapDecode(file);
      hide SlimFile, Decode, Encode, WellFormed, Quiet, OutFrame, SlimAll;
      SlimNoLarger(file);
    }
  }

  lemma SlimNoLarger(file: seq<byte>)
    requires SlimFile(file).Done? && Decode(file).Ok?
    ensures |SlimFile(file).value| <= |file|
    ensures PCAP_HDR_LEN + PCAP_REC_HDR_LEN * |Decode(file).value.records| <= |file|
  {
    SlimIsEncodeMapDecode(file);
    hide SlimFile, Decode, Quiet, OutFrame, EncodeAll;
    var c := Decode(file).value;
    var tail := EncodeDecoded(file);
    EncodeSlimNoLarger(c.endian, c.records);
  }

  lemma {:induction false} EncodeSlimNoLarger(e: Endian, rs: seq<Record>)
    requires AllValid(rs)
    ensures AllValid(SlimAll(rs)) && |EncodeAll(e, SlimAll(rs))| <= |EncodeAll(e, rs)|
    ensures PCAP_REC_HDR_LEN * |rs| <= |EncodeAll(e, rs)|
    decreases |rs|
  {
    if rs == [] {
      NothingYet(e);
    } else {
      hide EncodeAll, EncodeRecord, OutFrame;
      var k := |rs| - 1;
      assert rs[..k] + [rs[k]] == rs;
      EncodeSlimNoLarger(e, rs[..k]);
      SlimAppend(e, rs[..k], rs[k]);
      EncodeAppend(e, rs[..k], rs[k]);
      EncodeRecordSize(e, rs[k]);
      EncodeRecordSize(e, SlimRecord(rs[k]));
      OutFrameNoLonger(rs[k].frame);
    }
  }
}
