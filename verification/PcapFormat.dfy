/** The libpcap container as bytes: decoding, encoding and their inverse laws. */
module PcapFormat {
  import opened Bytes

  const PCAP_HDR_LEN: nat := 24
  const PCAP_REC_HDR_LEN: nat := 16

  const MAGIC_LE: u32 := 0xa1b2_c3d4
  const MAGIC_BE: u32 := 0xd4c3_b2a1
  const PCAPNG_MAGIC: seq<byte> := [0x0a, 0x0d, 0x0d, 0x0a]

  datatype PcapError = HeaderTooShort | Pcapng | UnknownMagic | UnexpectedEof

  datatype Endian = Endian(le: bool) {

    function ReadU32(b: seq<byte>): u32
      requires |b| == 4
    {
      if le then 0x100_0000 * (b[3] as int) + 0x1_0000 * (b[2] as int) + 0x100 * (b[1] as int) + b[0]
      else 0x100_0000 * (b[0] as int) + 0x1_0000 * (b[1] as int) + 0x100 * (b[2] as int) + b[3]
    }

    function WriteU32(v: u32): (b: seq<byte>)
      ensures |b| == 4
    {
      var b0: byte, b1: byte, b2: byte, b3: byte := v / 0x100_0000, v / 0x1_0000 % 256, v / 256 % 256, v % 256;
      if le then [b3, b2, b1, b0] else [b0, b1, b2, b3]
    }
  }

  lemma ReadWritten(e: Endian, v: u32)
    ensures e.ReadU32(e.WriteU32(v)) == v
  {
    assert v == 0x100_0000 * (v / 0x100_0000) + v % 0x100_0000;
    assert v / 0x1_0000 == 256 * (v / 0x100_0000) + v / 0x1_0000 % 256;
    assert v / 256 == 256 * (v / 0x1_0000) + v / 256 % 256;
  }

  /** The quotients and remainders that take a four-byte number apart. */
  lemma Digits(b0: byte, b1: byte, b2: byte, b3: byte)
    ensures
      var v := 0x100_0000 * (b0 as int) + 0x1_0000 * (b1 as int) + 0x100 * (b2 as int) + b3;
      && v / 0x100_0000 == b0 as int && v / 0x1_0000 % 256 == b1 as int
      && v / 256 % 256 == b2 as int && v % 256 == b3 as int
  {
    var v := 0x100_0000 * (b0 as int) + 0x1_0000 * (b1 as int) + 0x100 * (b2 as int) + b3;
    var upper := 256 * (b0 as int) + b1;
    LastDigit(b0, b1);
    LastDigit(upper, b2);
    LastDigit(256 * upper + b2, b3);
    assert v == 256 * (256 * upper + b2) + b3;
    assert v / 256 == 256 * upper + b2;
    assert v / 0x1_0000 == upper;
  }

  lemma LastDigit(n: nat, b: byte)
    ensures (256 * n + b) / 256 == n && (256 * n + b) % 256 == b
  {
  }

  lemma WrittenRead(e: Endian, b: seq<byte>)
    requires |b| == 4
    ensures e.WriteU32(e.ReadU32(b)) == b
  {
    if e.le {
      Digits(b[3], b[2], b[1], b[0]);
    } else {
      Digits(b[0], b[1], b[2], b[3]);
    }
  }

  // ---------------------------------------------------------------- global header

  /** The source tries the little-endian reading first and the big-endian one after it. */
  function DetectEndian(ghdr: seq<byte>): Result<Endian, PcapError>
    requires |ghdr| == PCAP_HDR_LEN
  {
    var magic := Endian(true).ReadU32(ghdr[0..4]);
    if magic == MAGIC_LE then Ok(Endian(true))
    else if magic == MAGIC_BE then Ok(Endian(false))
    else
      var magicBe := Endian(false).ReadU32(ghdr[0..4]);
      if magicBe == MAGIC_LE then Ok(Endian(true))
      else if magicBe == MAGIC_BE then Ok(Endian(false))
      else Err(UnknownMagic)
  }

  /** The number that four bytes stand for, the last or the first of them weighing most. */
  function Number(le: bool, b: seq<byte>): nat
    requires |b| == 4
  {
    if le then b[0] + 256 * (b[1] + 256 * (b[2] + 256 * (b[3] as int)))
    else b[3] + 256 * (b[2] + 256 * (b[1] + 256 * (b[0] as int)))
  }

  lemma ReadsNumber(e: Endian, b: seq<byte>)
    requires |b| == 4
    ensures e.ReadU32(b) == Number(e.le, b)
  {
  }

  /** A number is written as the four bytes that stand for it. */
  lemma WritesNumber(e: Endian, v: u32)
    ensures Number(e.le, e.WriteU32(v)) == v
  {
    hide Endian.ReadU32, Endian.WriteU32, Number;
    ReadWritten(e, v);
    ReadsNumber(e, e.WriteU32(v));
  }

  lemma ReadExactly(e: Endian, b: seq<byte>, v: u32)
    requires |b| == 4
    ensures e.ReadU32(b) == v <==> b == e.WriteU32(v)
  {
    hide Endian.ReadU32, Endian.WriteU32;
    ReadWritten(e, v);
    WrittenRead(e, b);
  }

  lemma MagicBytes()
    ensures Endian(true).WriteU32(MAGIC_LE) == Endian(false).WriteU32(MAGIC_BE) == [0xd4, 0xc3, 0xb2, 0xa1]
    ensures Endian(true).WriteU32(MAGIC_BE) == Endian(false).WriteU32(MAGIC_LE) == [0xa1, 0xb2, 0xc3, 0xd4]
  {
    hide Endian.WriteU32;
    var d4First, a1First: seq<byte> := [0xd4, 0xc3, 0xb2, 0xa1], [0xa1, 0xb2, 0xc3, 0xd4];
    assert Endian(true).ReadU32(d4First) == MAGIC_LE && Endian(false).ReadU32(d4First) == MAGIC_BE;
    assert Endian(true).ReadU32(a1First) == MAGIC_BE && Endian(false).ReadU32(a1First) == MAGIC_LE;
    hide Endian.ReadU32;
    WrittenRead(Endian(true), d4First);
    WrittenRead(Endian(false), d4First);
    WrittenRead(Endian(true), a1First);
    WrittenRead(Endian(false), a1First);
  }

  /** Two byte patterns are accepted and no other; the second reading of the magic never decides. */
  lemma MagicExactly(ghdr: seq<byte>)
    requires |ghdr| == PCAP_HDR_LEN
    ensures DetectEndian(ghdr) ==
              if ghdr[..4] == [0xd4, 0xc3, 0xb2, 0xa1] then Ok(Endian(true))
              else if ghdr[..4] == [0xa1, 0xb2, 0xc3, 0xd4] then Ok(Endian(false))
              else Err(UnknownMagic)
  {
    hide Endian.ReadU32, Endian.WriteU32;
    MagicBytes();
    assert ghdr[0..4] == ghdr[..4];
    ReadExactly(Endian(true), ghdr[..4], MAGIC_LE);
    ReadExactly(Endian(true), ghdr[..4], MAGIC_BE);
    ReadExactly(Endian(false), ghdr[..4], MAGIC_LE);
    ReadExactly(Endian(false), ghdr[..4], MAGIC_BE);
  }

  function ReadGlobalHeader(file: seq<byte>): Result<Endian, PcapError> {
    if |file| < PCAP_HDR_LEN then Err(HeaderTooShort)
    else if file[..4] == PCAPNG_MAGIC then Err(Pcapng)
    else DetectEndian(file[..PCAP_HDR_LEN])
  }

  /**
   Which files are read, in which byte order, and what is said of the others: fewer than 24 bytes are too short
   whatever they are, 0a 0d 0d 0a is pcapng, and only d4 c3 b2 a1 and a1 b2 c3 d4 are libpcap.
   */
  lemma HeaderExactly(file: seq<byte>)
    ensures ReadGlobalHeader(file)
         == if |file| < 24 then Err(HeaderTooShort)
            else if file[..4] == [0x0a, 0x0d, 0x0d, 0x0a] then Err(Pcapng)
            else if file[..4] == [0xd4, 0xc3, 0xb2, 0xa1] then Ok(Endian(true))
            else if file[..4] == [0xa1, 0xb2, 0xc3, 0xd4] then Ok(Endian(false))
            else Err(UnknownMagic)
  {
    if 24 <= |file| {
      hide DetectEndian;
      MagicExactly(file[..24]);
      assert file[..24][..4] == file[..4];
    }
  }

  // ---------------------------------------------------------------- records

  datatype Record = Record(tsSec: u32, tsUsec: u32, origLen: u32, frame: seq<byte>) {
    predicate Valid() {
      |frame| < 0x1_0000_0000
    }
  }

  function RecordHeader(e: Endian, tsSec: u32, tsUsec: u32, inclLen: u32, origLen: u32): (h: seq<byte>)
    ensures |h| == PCAP_REC_HDR_LEN
  {
    e.WriteU32(tsSec) + e.WriteU32(tsUsec) + e.WriteU32(inclLen) + e.WriteU32(origLen)
  }

  function EncodeRecord(e: Endian, r: Record): (b: seq<byte>)
    requires r.Valid()
    ensures |b| == PCAP_REC_HDR_LEN + |r.frame|
  {
    RecordHeader(e, r.tsSec, r.tsUsec, |r.frame|, r.origLen) + r.frame
  }

  predicate AllValid(rs: seq<Record>) {
    forall r :: r in rs ==> r.Valid()
  }

  function EncodeAll(e: Endian, rs: seq<Record>): seq<byte>
    requires AllValid(rs)
  {
    if rs == [] then [] else EncodeRecord(e, rs[0]) + EncodeAll(e, rs[1..])
  }

  /** The record at the front of `s`, whose body is complete. */
  function FirstRecord(e: Endian, s: seq<byte>): (r: Record)
    requires PCAP_REC_HDR_LEN <= |s| && PCAP_REC_HDR_LEN + e.ReadU32(s[8..12]) <= |s|
    ensures r.Valid() && |r.frame| == e.ReadU32(s[8..12])
  {
    Record(e.ReadU32(s[0..4]), e.ReadU32(s[4..8]), e.ReadU32(s[12..16]),
           s[PCAP_REC_HDR_LEN..PCAP_REC_HDR_LEN + e.ReadU32(s[8..12])])
  }

  /** The records read before the stream ends; `complete` unless a record body was cut short. */
  datatype Scan = Scan(records: seq<Record>, complete: bool) {
    function After(before: seq<Record>): Scan {
      Scan(before + records, complete)
    }
  }

  /** A cut-off record header ends the stream quietly; a cut-off body is an error. */
  function ScanRecords(e: Endian, s: seq<byte>): Scan
    decreases |s|
  {
    if |s| < PCAP_REC_HDR_LEN then Scan([], true)
    else if |s| < PCAP_REC_HDR_LEN + e.ReadU32(s[8..12]) then Scan([], false)
    else
      var r := FirstRecord(e, s);
      ScanRecords(e, s[PCAP_REC_HDR_LEN + |r.frame|..]).After([r])
  }

  /** Bytes 0, 4, 8 and 12 of a record begin its seconds, microseconds, captured length and original length. */
  lemma RecordByBytes(e: Endian, s: seq<byte>)
    ensures |s| < 16 ==> ScanRecords(e, s) == Scan([], true)
    ensures 16 <= |s| < 16 + Number(e.le, s[8..12]) ==> ScanRecords(e, s) == Scan([], false)
    ensures 16 <= |s| && 16 + Number(e.le, s[8..12]) <= |s| ==>
              var n := 16 + Number(e.le, s[8..12]);
              && Number(e.le, s[0..4]) < 0x1_0000_0000 && Number(e.le, s[4..8]) < 0x1_0000_0000
              && Number(e.le, s[12..16]) < 0x1_0000_0000
              && ScanRecords(e, s) == ScanRecords(e, s[n..]).After(
                   [Record(Number(e.le, s[0..4]), Number(e.le, s[4..8]), Number(e.le, s[12..16]), s[16..n])])
  {
    hide Endian.ReadU32, Number, ScanRecords;
    ScanStep(e, s);
    if 16 <= |s| {
      ReadsNumber(e, s[0..4]);
      ReadsNumber(e, s[4..8]);
      ReadsNumber(e, s[8..12]);
      ReadsNumber(e, s[12..16]);
    }
  }

  // ---------------------------------------------------------------- inverse laws

  lemma FirstOfEncoded(e: Endian, r: Record, rest: seq<byte>)
    requires r.Valid()
    ensures var s := EncodeRecord(e, r) + rest;
            && e.ReadU32(s[8..12]) == |r.frame|
            && FirstRecord(e, s) == r
            && s[PCAP_REC_HDR_LEN + |r.frame|..] == rest
  {
    hide Endian.ReadU32, Endian.WriteU32;
    var s := EncodeRecord(e, r) + rest;
    assert s[0..4] == e.WriteU32(r.tsSec) && s[4..8] == e.WriteU32(r.tsUsec);
    assert s[8..12] == e.WriteU32(|r.frame|) && s[12..16] == e.WriteU32(r.origLen);
    ReadWritten(e, r.tsSec);
    ReadWritten(e, r.tsUsec);
    ReadWritten(e, |r.frame|);
    ReadWritten(e, r.origLen);
    assert s[PCAP_REC_HDR_LEN..PCAP_REC_HDR_LEN + |r.frame|] == r.frame;
  }

  lemma EncodeCons(e: Endian, r: Record, rs: seq<Record>)
    requires r.Valid() && AllValid(rs)
    ensures AllValid([r] + rs) && EncodeAll(e, [r] + rs) == EncodeRecord(e, r) + EncodeAll(e, rs)
  {
    assert ([r] + rs)[1..] == rs;
  }

  /** One step of the scan, in every case. */
  lemma ScanStep(e: Endian, s: seq<byte>)
    ensures |s| < PCAP_REC_HDR_LEN ==> ScanRecords(e, s) == Scan([], true)
    ensures PCAP_REC_HDR_LEN <= |s| < PCAP_REC_HDR_LEN + e.ReadU32(s[8..12]) ==> ScanRecords(e, s) == Scan([], false)
    ensures PCAP_REC_HDR_LEN <= |s| && PCAP_REC_HDR_LEN + e.ReadU32(s[8..12]) <= |s| ==>
              var r := FirstRecord(e, s);
              ScanRecords(e, s) == ScanRecords(e, s[PCAP_REC_HDR_LEN + |r.frame|..]).After([r])
  {
  }

  /** Decoding inverts encoding; a leftover shorter than a record header is dropped. */
  lemma {:induction false} ScanEncoded(e: Endian, rs: seq<Record>, tail: seq<byte>)
    requires AllValid(rs) && |tail| < PCAP_REC_HDR_LEN
    ensures ScanRecords(e, EncodeAll(e, rs) + tail) == Scan(rs, true)
    decreases |rs|
  {
    hide Endian.ReadU32, EncodeRecord, FirstRecord, ScanRecords;
    if rs == [] {
      assert EncodeAll(e, rs) + tail == tail;
      ScanStep(e, tail);
    } else {
      hide EncodeAll;
      var rest := EncodeAll(e, rs[1..]) + tail;
      EncodeCons(e, rs[0], rs[1..]);
      assert [rs[0]] + rs[1..] == rs;
      assert EncodeAll(e, rs) + tail == EncodeRecord(e, rs[0]) + rest;
      FirstOfEncoded(e, rs[0], rest);
      ScanStep(e, EncodeRecord(e, rs[0]) + rest);
      ScanEncoded(e, rs[1..], tail);
    }
  }

  lemma EncodeFirst(e: Endian, s: seq<byte>)
    requires PCAP_REC_HDR_LEN <= |s| && PCAP_REC_HDR_LEN + e.ReadU32(s[8..12]) <= |s|
    ensures EncodeRecord(e, FirstRecord(e, s)) == s[..PCAP_REC_HDR_LEN + e.ReadU32(s[8..12])]
  {
    hide Endian.ReadU32, Endian.WriteU32;
    WrittenRead(e, s[0..4]);
    WrittenRead(e, s[4..8]);
    WrittenRead(e, s[8..12]);
    WrittenRead(e, s[12..16]);
  }

  /** Encoding inverts decoding: a complete stream is its records and a cut-off header. */
  lemma {:induction false} EncodeScanned(e: Endian, s: seq<byte>) returns (tail: seq<byte>)
    requires ScanRecords(e, s).complete
    ensures AllValid(ScanRecords(e, s).records)
    ensures |tail| < PCAP_REC_HDR_LEN && s == EncodeAll(e, ScanRecords(e, s).records) + tail
    decreases |s|
  {
    hide Endian.ReadU32, EncodeRecord, FirstRecord, ScanRecords;
    ScanStep(e, s);
    if |s| < PCAP_REC_HDR_LEN {
      tail := s;
      assert [] + s == s;
    } else {
      hide EncodeAll;
      EncodeFirst(e, s);
      var r := FirstRecord(e, s);
      var k := PCAP_REC_HDR_LEN + e.ReadU32(s[8..12]);
      assert |r.frame| == k - PCAP_REC_HDR_LEN;
      tail := EncodeScanned(e, s[k..]);
      EncodeCons(e, r, ScanRecords(e, s[k..]).records);
      assert s == s[..k] + s[k..];
    }
  }

  lemma {:induction false} ScannedValid(e: Endian, s: seq<byte>)
    ensures AllValid(ScanRecords(e, s).records)
    decreases |s|
  {
    if PCAP_REC_HDR_LEN <= |s| && PCAP_REC_HDR_LEN + e.ReadU32(s[8..12]) <= |s| {
      ScannedValid(e, s[PCAP_REC_HDR_LEN + |FirstRecord(e, s).frame|..]);
    }
  }

  lemma {:induction false} EncodeAppend(e: Endian, rs: seq<Record>, r: Record)
    requires AllValid(rs) && r.Valid()
    ensures AllValid(rs + [r]) && EncodeAll(e, rs + [r]) == EncodeAll(e, rs) + EncodeRecord(e, r)
    decreases |rs|
  {
    hide EncodeRecord;
    if rs == [] {
      assert rs + [r] == [r];
      assert EncodeAll(e, [r]) == EncodeRecord(e, r) + EncodeAll(e, [r][1..]);
    } else {
      EncodeAppend(e, rs[1..], r);
      assert (rs + [r])[1..] == rs[1..] + [r];
    }
  }

  // ---------------------------------------------------------------- whole files

  datatype Capture = Capture(header: seq<byte>, endian: Endian, records: seq<Record>)

  function Decode(file: seq<byte>): Result<Capture, PcapError> {
    match ReadGlobalHeader(file)
    case Err(error) => Err(error)
    case Ok(e) =>
      var scan := ScanRecords(e, file[PCAP_HDR_LEN..]);
      if scan.complete then Ok(Capture(file[..PCAP_HDR_LEN], e, scan.records)) else Err(UnexpectedEof)
  }

  function Encode(c: Capture): seq<byte>
    requires AllValid(c.records)
  {
    c.header + EncodeAll(c.endian, c.records)
  }

  /** A capture whose header names its own byte order. */
  predicate WellFormed(c: Capture) {
    |c.header| == PCAP_HDR_LEN && ReadGlobalHeader(c.header) == Ok(c.endian) && AllValid(c.records)
  }

  lemma HeaderAlone(header: seq<byte>, body: seq<byte>)
    requires |header| == PCAP_HDR_LEN
    ensures ReadGlobalHeader(header + body) == ReadGlobalHeader(header)
  {
    assert (header + body)[..4] == header[..4];
    assert (header + body)[..PCAP_HDR_LEN] == header == header[..PCAP_HDR_LEN];
  }

  lemma DecodeEncoded(c: Capture)
    requires WellFormed(c)
    ensures Decode(Encode(c)) == Ok(c)
  {
    hide ReadGlobalHeader, ScanRecords, EncodeAll;
    var body := EncodeAll(c.endian, c.records);
    HeaderAlone(c.header, body);
    ScanEncoded(c.endian, c.records, []);
    assert body + [] == body;
    assert Encode(c)[PCAP_HDR_LEN..] == body;
  }

  lemma DecodedWellFormed(file: seq<byte>)
    requires Decode(file).Ok?
    ensures WellFormed(Decode(file).value) && PCAP_HDR_LEN <= |file|
  {
    hide DetectEndian, ScanRecords;
    HeaderAlone(file[..PCAP_HDR_LEN], file[PCAP_HDR_LEN..]);
    assert file[..PCAP_HDR_LEN] + file[PCAP_HDR_LEN..] == file;
    hide ReadGlobalHeader;
    ScannedValid(Decode(file).value.endian, file[PCAP_HDR_LEN..]);
  }

  /** A decodable file is its capture's encoding followed by less than one record header. */
  lemma EncodeDecoded(file: seq<byte>) returns (tail: seq<byte>)
    requires Decode(file).Ok?
    ensures WellFormed(Decode(file).value) && |tail| < PCAP_REC_HDR_LEN
    ensures file == Encode(Decode(file).value) + tail
  {
    DecodedWellFormed(file);
    hide ReadGlobalHeader, ScanRecords, EncodeAll;
    var c := Decode(file).value;
    tail := EncodeScanned(c.endian, file[PCAP_HDR_LEN..]);
  }
}
