/** RFC 1071 one's-complement checksums and the TCP/UDP pseudo-headers. */
module Checksum {
  import opened Bytes

  /** Largest slice whose 16-bit words always add up inside a u32. */
  const MAX_SUM_BYTES := 131074

  /** Sum of the big-endian 16-bit words of `d`; an odd last byte is padded with zero. */
  function WordSum(d: seq<byte>): nat {
    if |d| == 0 then 0
    else if |d| == 1 then Be16(d[0], 0)
    else Be16(d[0], d[1]) + WordSum(d[2..])
  }

  /** The one representative of `n` modulo 65535 that end-around carries leave: zero only for zero. */
  function Residue(n: nat): u16 {
    if n == 0 then 0 else (n - 1) % 65535 + 1
  }

  /** The Internet checksum of `d`: the complement of its folded sum. */
  function Checksum16(d: seq<byte>): u16 {
    65535 - Residue(WordSum(d))
  }

  /** A receiver accepts `d` when its words fold to all ones. */
  predicate Verifies(d: seq<byte>) {
    Residue(WordSum(d)) == 0xffff
  }

  // ---------------------------------------------------------------- residues

  lemma ResidueStep(n: nat, k: nat)
    requires 0 < n
    ensures Residue(n + 65535 * k) == Residue(n)
  {
    assert (n - 1 + 65535 * k) % 65535 == (n - 1) % 65535;
  }

  lemma ResidueOfResidue(n: nat)
    ensures exists k: nat :: n == Residue(n) + 65535 * k
  {
    if n == 0 {
      assert n == Residue(n) + 65535 * 0;
    } else {
      assert n == Residue(n) + 65535 * ((n - 1) / 65535);
    }
  }

  /** Folding a part first never changes the folded total. */
  lemma ResidueAdd(a: nat, b: nat)
    ensures Residue(Residue(a) + b) == Residue(a + b)
  {
    ResidueOfResidue(a);
    var k: nat :| a == Residue(a) + 65535 * k;
    if Residue(a) + b > 0 {
      ResidueStep(Residue(a) + b, k);
    }
  }

  lemma ResidueAdd2(a: nat, b: nat)
    ensures Residue(Residue(a) + Residue(b)) == Residue(a + b)
  {
    ResidueAdd(a, Residue(b));
    ResidueAdd(b, a);
  }

  lemma ResidueAdd5(a: nat, b: nat, c: nat, d: nat, e: nat)
    ensures Residue(Residue(a) + Residue(b) + Residue(c) + d + Residue(e)) == Residue(a + b + c + d + e)
  {
    ResidueAdd(a, Residue(b) + Residue(c) + d + Residue(e));
    ResidueAdd(b, a + Residue(c) + d + Residue(e));
    ResidueAdd(c, a + b + d + Residue(e));
    ResidueAdd(e, a + b + c + d);
  }

  /** Adding the complement of a sum makes the total fold to all ones, also when zero is sent as 0xffff. */
  lemma ComplementVerifies(n: nat)
    ensures Residue(n + (65535 - Residue(n))) == 0xffff
    ensures Residue(n) == 0xffff ==> Residue(n + 0xffff) == 0xffff
  {
    ResidueOfResidue(n);
    var k: nat :| n == Residue(n) + 65535 * k;
    ResidueStep(65535, k);
    if Residue(n) == 0xffff {
      ResidueStep(65535, k + 1);
      assert n + 65535 == 65535 + 65535 * (k + 1);
    }
  }

  // ---------------------------------------------------------------- word sums

  lemma {:induction false} WordSumConcat(a: seq<byte>, b: seq<byte>)
    requires |a| % 2 == 0
    ensures WordSum(a + b) == WordSum(a) + WordSum(b)
  {
    if |a| == 0 {
      assert a + b == b;
    } else {
      WordSumConcat(a[2..], b);
      assert (a + b)[2..] == a[2..] + b;
    }
  }

  /** Every word is below 2^16, so a sum of n bytes needs no more than this. */
  lemma {:induction false} WordSumBound(d: seq<byte>)
    ensures WordSum(d) <= (|d| + 1) / 2 * 65535
  {
    if |d| > 1 {
      WordSumBound(d[2..]);
    }
  }

  lemma {:induction false} WordSumOfOnes(d: seq<byte>)
    requires forall i :: 0 <= i < |d| ==> d[i] == 255
    requires |d| % 2 == 0
    ensures WordSum(d) == |d| / 2 * 65535
  {
    if |d| > 1 {
      WordSumOfOnes(d[2..]);
    }
  }

  /** The u32 accumulator is safe for every slice of a given length exactly up to MAX_SUM_BYTES. */
  lemma NoOverflowExactly(len: nat)
    ensures (forall d: seq<byte> :: |d| == len ==> WordSum(d) < 0x1_0000_0000) <==> len <= MAX_SUM_BYTES
  {
    if len <= MAX_SUM_BYTES {
      forall d: seq<byte> | |d| == len
        ensures WordSum(d) < 0x1_0000_0000
      {
        WordSumBound(d);
      }
    } else {
      var head := seq(131074, _ => 255 as byte);
      var tail := [255 as byte] + seq(len - 131075, _ => 0 as byte);
      WordSumOfOnes(head);
      WordSumConcat(head, tail);
      assert |head + tail| == len && WordSum(tail) >= 1;
    }
  }

  /** Storing a word at an even offset moves the sum by the difference of the two words. */
  lemma {:induction false} WordSumPut(d: seq<byte>, i: nat, v: u16)
    requires i % 2 == 0 && i + 1 < |d|
    ensures WordSum(Put16(d, i, v)) == WordSum(d) - U16At(d, i) + v
  {
    var e := Put16(d, i, v);
    if i == 0 {
      assert e[2..] == d[2..];
    } else {
      WordSumPut(d[2..], i - 2, v);
      assert e[2..] == Put16(d[2..], i - 2, v);
    }
  }

  /** Writing the checksum of `rest + d` into a zeroed even field of `d` makes the whole verify. */
  lemma InsertVerifies(rest: seq<byte>, d: seq<byte>, i: nat, c: u16)
    requires |rest| % 2 == 0
    requires i % 2 == 0 && i + 1 < |d| && U16At(d, i) == 0
    requires c == Checksum16(rest + d) || (Checksum16(rest + d) == 0 && c == 0xffff)
    ensures Verifies(rest + Put16(d, i, c))
  {
    hide WordSum;
    WordSumConcat(rest, d);
    WordSumConcat(rest, Put16(d, i, c));
    WordSumPut(d, i, c);
    ComplementVerifies(WordSum(rest + d));
  }

  /** An odd last byte is the high half of its word. */
  lemma {:induction false} WordSumPadded(d: seq<byte>)
    requires |d| % 2 == 1
    ensures WordSum(d) == WordSum(d + [0])
  {
    if |d| > 1 {
      WordSumPadded(d[2..]);
      assert (d + [0])[2..] == d[2..] + [0];
    } else {
      assert (d + [0])[2..] == [];
    }
  }

  /** Bytes at even offsets weigh 256, bytes at odd offsets one. */
  lemma {:induction false} WordSumWeighs(d: seq<byte>, i: nat)
    requires i < |d|
    ensures WordSum(d) == WordSum(d[i := 0]) + (if i % 2 == 0 then 256 else 1) * (d[i] as int)
    decreases |d|
  {
    if i > 1 {
      WordSumWeighs(d[2..], i - 2);
      assert d[i := 0][2..] == d[2..][i - 2 := 0];
    } else if |d| > 1 {
      assert d[i := 0][2..] == d[2..];
    }
  }

  lemma {:induction false} WordSumOfZeros(d: seq<byte>)
    requires forall i :: 0 <= i < |d| ==> d[i] == 0
    ensures WordSum(d) == 0
  {
    if |d| > 1 {
      WordSumOfZeros(d[2..]);
    }
  }

  // ---------------------------------------------------------------- algorithms

  /** Adds the carries above the low 16 bits back in until none is left. */
  method Fold(total: u32) returns (sum: u32)
    ensures sum == Residue(total)
  {
    sum := total;
    while sum / 0x1_0000 != 0
      invariant Residue(sum) == Residue(total)
      decreases sum
    {
      var next := sum % 0x1_0000 + sum / 0x1_0000;
      ResidueStep(next, sum / 0x1_0000);
      assert sum == next + 65535 * (sum / 0x1_0000);
      sum := next;
    }
  }

  lemma WordSumStep(data: seq<byte>, i: nat)
    requires i % 2 == 0 && i + 1 < |data| <= MAX_SUM_BYTES
    ensures WordSum(data[..i + 2]) == WordSum(data[..i]) + U16At(data, i) < 0x1_0000_0000
  {
    WordSumConcat(data[..i], data[i..i + 2]);
    assert data[..i] + data[i..i + 2] == data[..i + 2];
    WordSumBound(data[..i + 2]);
  }

  lemma WordSumLastByte(data: seq<byte>, i: nat)
    requires i % 2 == 0 && i + 1 == |data| <= MAX_SUM_BYTES
    ensures WordSum(data) == WordSum(data[..i]) + Be16(data[i], 0) < 0x1_0000_0000
  {
    WordSumConcat(data[..i], data[i..]);
    assert data[..i] + data[i..] == data;
    WordSumBound(data);
  }

  method ChecksumSum(data: seq<byte>) returns (sum: u32)
    requires |data| <= MAX_SUM_BYTES
    ensures sum == Residue(WordSum(data))
  {
    sum := 0;
    var i := 0;
    assert WordSum(data[..0]) == 0;
    hide WordSum, Residue, Be16;
    while i + 1 < |data|
      invariant 0 <= i <= |data| && i % 2 == 0
      invariant sum == WordSum(data[..i])
    {
      WordSumStep(data, i);
      sum := sum + U16At(data, i);
      i := i + 2;
    }
    if i < |data| {
      WordSumLastByte(data, i);
      sum := sum + Be16(data[i], 0);
    } else {
      assert data[..i] == data;
    }
    sum := Fold(sum);
  }

  method Finish(total: u32) returns (c: u16)
    ensures c == 65535 - Residue(total)
  {
    var sum := Fold(total);
    c := 0xffff - sum;
  }

  method InternetChecksum(data: seq<byte>) returns (c: u16)
    requires |data| <= MAX_SUM_BYTES
    ensures c == Checksum16(data)
  {
    var sum := ChecksumSum(data);
    c := Finish(sum);
    ResidueAdd(WordSum(data), 0);
  }

  /** The 12-byte pseudo-header of section 3.1 of RFC 9293 and of RFC 768. */
  function PseudoV4(src: seq<byte>, dst: seq<byte>, proto: byte, len: nat): (ph: seq<byte>)
    requires |src| == 4 && |dst| == 4
    ensures |ph| == 12
  {
    src + dst + [0, proto, Hi(Low16(len)), Lo(Low16(len))]
  }

  /** The 40-byte pseudo-header of section 8.1 of RFC 8200. */
  function PseudoV6(src: seq<byte>, dst: seq<byte>, proto: byte, len: nat): (ph: seq<byte>)
    requires |src| == 16 && |dst| == 16
    ensures |ph| == 40
  {
    src + dst + Be32(len) + [0, 0, 0, proto]
  }

  function Be32(v: nat): (b: seq<byte>)
    ensures |b| == 4
  {
    [Hi(Low16(v / 0x1_0000)), Lo(Low16(v / 0x1_0000)), Hi(Low16(v)), Lo(Low16(v))]
  }

  /** Where the fields of the IPv6 pseudo-header lie: two addresses, a four-byte length, three zeros, the protocol. */
  lemma PseudoV6Fields(src: seq<byte>, dst: seq<byte>, proto: byte, len: nat)
    requires |src| == 16 && |dst| == 16 && len < 0x1_0000_0000
    ensures
      var ph := PseudoV6(src, dst, proto, len);
      && ph[..16] == src && ph[16..32] == dst
      && 0x100_0000 * (ph[32] as int) + 0x1_0000 * (ph[33] as int) + 0x100 * (ph[34] as int) + ph[35] == len
      && ph[36..] == [0, 0, 0, proto]
  {
    hide Be32;
    Be32Exactly(len);
    assert PseudoV6(src, dst, proto, len) == src + dst + Be32(len) + [0, 0, 0, proto];
  }

  lemma Be32Exactly(v: nat)
    requires v < 0x1_0000_0000
    ensures
      var b := Be32(v);
      0x100_0000 * (b[0] as int) + 0x1_0000 * (b[1] as int) + 0x100 * (b[2] as int) + b[3] == v
  {
    assert v == 0x1_0000 * (v / 0x1_0000) + v % 0x1_0000;
    assert 0x100 * (Hi(Low16(v)) as int) + Lo(Low16(v)) == v % 0x1_0000;
    assert 0x100 * (Hi(Low16(v / 0x1_0000)) as int) + Lo(Low16(v / 0x1_0000)) == v / 0x1_0000;
  }

  lemma PseudoV4Fields(src: seq<byte>, dst: seq<byte>, proto: byte, len: u16)
    requires |src| == 4 && |dst| == 4
    ensures
      var ph := PseudoV4(src, dst, proto, len);
      ph[..4] == src && ph[4..8] == dst && ph[8] == 0 && ph[9] == proto && 256 * (ph[10] as int) + ph[11] == len
  {
  }

  /** The pseudo-header as the source lays it out: a zeroed 12-byte array filled field by field. */
  method FillPseudoV4(src: seq<byte>, dst: seq<byte>, proto: byte, len: u16) returns (ph: array<byte>)
    requires |src| == 4 && |dst| == 4
    ensures fresh(ph) && ph[..] == PseudoV4(src, dst, proto, len)
  {
    ph := new byte[12](_ => 0);
    forall k | 0 <= k < 4 {
      ph[k] := src[k];
    }
    forall k | 0 <= k < 4 {
      ph[4 + k] := dst[k];
    }
    ph[9] := proto;
    ph[10] := Hi(len);
    ph[11] := Lo(len);
    assert ph[..4] == src && ph[4..8] == dst;
  }

  /** Two separately folded parts give the checksum of the concatenated bytes. */
  method TransportChecksumIpv4(src: seq<byte>, dst: seq<byte>, proto: byte, segment: seq<byte>) returns (c: u16)
    requires |src| == 4 && |dst| == 4 && |segment| <= MAX_SUM_BYTES
    ensures c == Checksum16(PseudoV4(src, dst, proto, |segment|) + segment)
  {
    hide WordSum, Residue;
    var len := Low16(|segment|);
    var ph := FillPseudoV4(src, dst, proto, len);
    assert PseudoV4(src, dst, proto, len) == PseudoV4(src, dst, proto, |segment|);
    var head := ChecksumSum(ph[..]);
    var tail := ChecksumSum(segment);
    var sum := Fold(head + tail);
    c := Finish(sum);
    FoldedPair(ph[..], segment);
    ResidueAdd(head + tail, 0);
  }

  lemma FoldedPair(a: seq<byte>, b: seq<byte>)
    requires |a| % 2 == 0
    ensures Residue(Residue(WordSum(a)) + Residue(WordSum(b))) == Residue(WordSum(a + b))
  {
    hide *;
    WordSumConcat(a, b);
    ResidueAdd2(WordSum(a), WordSum(b));
  }

  /** Five separately folded parts give the checksum of the concatenated bytes. */
  method TransportChecksumIpv6(src: seq<byte>, dst: seq<byte>, proto: byte, segment: seq<byte>) returns (c: u16)
    requires |src| == 16 && |dst| == 16 && |segment| <= MAX_SUM_BYTES
    ensures c == Checksum16(PseudoV6(src, dst, proto, |segment|) + segment)
  {
    hide WordSum, Residue, Be32;
    var srcSum := ChecksumSum(src);
    var dstSum := ChecksumSum(dst);
    var sum: u32 := srcSum + dstSum;
    var lenSum := ChecksumSum(Be32(|segment|));
    sum := sum + lenSum;
    sum := sum + proto;
    var segSum := ChecksumSum(segment);
    sum := sum + segSum;
    ghost var parts := sum;
    sum := Fold(sum);
    c := Finish(sum);
    ResidueAdd(parts, 0);
    ghost var last: seq<byte> := [0, 0, 0, proto];
    WordSumLast(last);
    FoldedParts(src, dst, Be32(|segment|), last, segment);
  }

  lemma WordSumLast(last: seq<byte>)
    requires |last| == 4 && last[0] == last[1] == last[2] == 0
    ensures WordSum(last) == last[3]
  {
    assert last[2..] == [last[2], last[3]];
    assert WordSum(last[2..]) == Be16(last[2], last[3]) + WordSum(last[2..][2..]);
  }

  lemma FoldedParts(a: seq<byte>, b: seq<byte>, c: seq<byte>, d: seq<byte>, e: seq<byte>)
    requires |a| % 2 == |b| % 2 == |c| % 2 == |d| % 2 == 0
    ensures Residue(Residue(WordSum(a)) + Residue(WordSum(b)) + Residue(WordSum(c)) + WordSum(d) + Residue(WordSum(e)))
         == Residue(WordSum(a + b + c + d + e))
  {
    hide *;
    WordSumConcat5(a, b, c, d, e);
    ResidueAdd5(WordSum(a), WordSum(b), WordSum(c), WordSum(d), WordSum(e));
  }

  lemma WordSumConcat5(a: seq<byte>, b: seq<byte>, c: seq<byte>, d: seq<byte>, e: seq<byte>)
    requires |a| % 2 == |b| % 2 == |c| % 2 == |d| % 2 == 0
    ensures WordSum(a + b + c + d + e) == WordSum(a) + WordSum(b) + WordSum(c) + WordSum(d) + WordSum(e)
  {
    hide *;
    WordSumConcat(a, b);
    WordSumConcat(a + b, c);
    WordSumConcat(a + b + c, d);
    WordSumConcat(a + b + c + d, e);
  }
}
