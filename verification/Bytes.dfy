/** Bytes, machine-word ranges and big-endian 16-bit fields inside a byte buffer. */
module Bytes {

  type byte = b: int | 0 <= b < 256
  type u16 = v: int | 0 <= v < 0x1_0000
  type u32 = v: int | 0 <= v < 0x1_0000_0000

  /** `(v >> 8) as u8` */
  function Hi(v: u16): byte {
    v / 256
  }

  /** `(v & 0xff) as u8` */
  function Lo(v: u16): byte {
    v % 256
  }

  /** `u16::from_be_bytes([hi, lo])` */
  function Be16(hi: byte, lo: byte): u16 {
    256 * (hi as int) + lo
  }

  /** `u16::from_be_bytes([s[i], s[i + 1]])` */
  function U16At(s: seq<byte>, i: nat): u16
    requires i + 1 < |s|
  {
    Be16(s[i], s[i + 1])
  }

  /** The low 16 bits, `v as u16`. */
  function Low16(v: nat): u16 {
    if v < 0x1_0000 then v else v % 0x1_0000
  }

  /** Store `v` at `i`, high byte first. */
  function Put16(s: seq<byte>, i: nat, v: u16): (t: seq<byte>)
    requires i + 1 < |s|
    ensures |t| == |s|
    ensures forall j :: 0 <= j < |s| && j != i && j != i + 1 ==> t[j] == s[j]
  {
    s[i := Hi(v)][i + 1 := Lo(v)]
  }

  lemma Put16Reads(s: seq<byte>, i: nat, v: u16)
    requires i + 1 < |s|
    ensures U16At(Put16(s, i, v), i) == v
  {
  }

  lemma U16Stored(s: seq<byte>, i: nat, v: u16)
    requires i + 1 < |s| && s[i] == Hi(v) && s[i + 1] == Lo(v)
    ensures U16At(s, i) == v
  {
  }

  function Zeros(n: nat): (z: seq<byte>)
    ensures |z| == n
    ensures forall i :: 0 <= i < n ==> z[i] == 0
  {
    seq(n, _ => 0 as byte)
  }

  datatype Option<+T> = None | Some(value: T)

  datatype Result<+T, +E> = Ok(value: T) | Err(error: E)

  /** A growable byte vector that is edited in place. */
  class ByteVec {
    var data: seq<byte>

    constructor (bytes: seq<byte>)
      ensures data == bytes
    {
      data := bytes;
    }

    method Truncate(len: nat)
      modifies this
      ensures data == if len < |old(data)| then old(data)[..len] else old(data)
    {
      if len < |data| {
        data := data[..len];
      }
    }

    method Set(i: nat, b: byte)
      requires i < |data|
      modifies this
      ensures data == old(data)[i := b]
    {
      data := data[i := b];
    }
  }
}
