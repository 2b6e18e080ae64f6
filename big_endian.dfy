/** A Rust `u8` as a number, and its round trip through an 8-bit vector. */
module Octets {

  type byte = x: int | 0 <= x < 0x100

  /** A bit position `0..31` held as a number (a `u32` loop counter or
      difference), as the `u8` index `AckBitfield::get` and `set` take. */
  function BitIndex(i: int): (b: bv8)
    requires 0 <= i < 32
    ensures b <= 31 && b as int == i
  {
    i as bv8
  }

  lemma OctetRound(v: bv8)
    ensures (v as int) as bv8 == v
  {
  }
}

/** Bytes, unsigned 32-bit words and their big-endian encoding, as Rust's
    `u32::to_be_bytes` and `u32::from_be_bytes` do it. Shared by the
    sequence number, the ack bitfield and the packet header codecs. */
module BigEndian {
  import opened Octets

  /** A Rust `u32`, as a number. */
  type u32 = x: int | 0 <= x < 0x1_0000_0000

  type u16 = x: int | 0 <= x < 0x1_0000

  /* ---------------- numeric words ---------------- */

  function HalfToBytes(y: u16): (r: seq<byte>)
    ensures |r| == 2
  {
    [y / 0x100, y % 0x100]
  }

  function HalfFromBytes(hi: byte, lo: byte): u16
  {
    hi * 0x100 + lo
  }

  /** The four bytes of `x`, most significant first. */
  function ToBeBytes(x: u32): (r: seq<byte>)
    ensures |r| == 4
  {
    HalfToBytes(x / 0x1_0000) + HalfToBytes(x % 0x1_0000)
  }

  /** The word whose big-endian bytes are `b`. */
  function FromBeBytes(b: seq<byte>): u32
    requires |b| == 4
  {
    HalfFromBytes(b[0], b[1]) * 0x1_0000 + HalfFromBytes(b[2], b[3])
  }

  lemma HalfFromTo(y: u16)
    ensures HalfFromBytes(HalfToBytes(y)[0], HalfToBytes(y)[1]) == y
  {
  }

  lemma HalfToFrom(hi: byte, lo: byte)
    ensures HalfToBytes(HalfFromBytes(hi, lo)) == [hi, lo]
  {
  }

  /** Decoding the encoding of a word gives the word back. */
  lemma {:induction false} FromToBeBytes(x: u32)
    ensures FromBeBytes(ToBeBytes(x)) == x
  {
    HalfFromTo(x / 0x1_0000);
    HalfFromTo(x % 0x1_0000);
  }

  /** Encoding the decoding of four bytes gives the bytes back. */
  lemma {:induction false} ToFromBeBytes(b: seq<byte>)
    requires |b| == 4
    ensures ToBeBytes(FromBeBytes(b)) == b
  {
    var hi := HalfFromBytes(b[0], b[1]);
    var lo := HalfFromBytes(b[2], b[3]);
    assert FromBeBytes(b) / 0x1_0000 == hi && FromBeBytes(b) % 0x1_0000 == lo;
    HalfToFrom(b[0], b[1]);
    HalfToFrom(b[2], b[3]);
  }

  /** The most significant byte comes first and the least significant
      last. */
  lemma ByteOrder(x: u32)
    ensures ToBeBytes(x)[0] == x / 0x100_0000
    ensures ToBeBytes(x)[1] == (x / 0x1_0000) % 0x100
    ensures ToBeBytes(x)[2] == (x / 0x100) % 0x100
    ensures ToBeBytes(x)[3] == x % 0x100
  {
    var q, r := x / 0x1_0000, x % 0x1_0000;
    assert x / 0x100 == q * 0x100 + r / 0x100;
  }

  /* ---------------- bit-vector words ---------------- */

  /** A 32-bit vector taken to its value and back is unchanged; the
      bitfield's byte form is the byte form of its value. */
  lemma BitsRound(y: bv32)
    ensures y as int < 0x1_0000_0000
    ensures (y as int) as bv32 == y
  {
  }
}
