/** The wire layout of src/network/mod.rs: a packet is a byte buffer whose
    first 16 bytes are the header (protocol id, sequence number, ack, ack
    bitfield, each four bytes, numbers big-endian) and whose rest is the
    payload. A `Packet<Box<[u8]>>` is an array here; a `PacketHeader` over a
    borrowed slice is either the header bytes (for reading) or the packet
    array written at offsets 0..16 (for `header_mut().set`). */
module Packets {
  import opened Octets
  import opened BigEndian
  import opened AckBitfields
  import opened SeqNumbers

  /** `ProtocolId = [u8; 4]` and the `PROTOCOL_ID` constant. */
  const PROTOCOL_ID: seq<byte> := [0, 1, 2, 3]

  const PROTOCOL_ID_LEN: nat := 4
  const SEQ_NUMBER_LEN: nat := 4
  const ACK_BITFIELD_LEN: nat := 4

  /** `PacketHeader::len()` and `connection::header_size()`: the two are
      written as the same sum of type sizes, in a different order. */
  function HeaderLen(): (len: nat)
    ensures len == 16
    ensures len == PROTOCOL_ID_LEN + SEQ_NUMBER_LEN * 2 + ACK_BITFIELD_LEN
  {
    PROTOCOL_ID_LEN + 2 * SEQ_NUMBER_LEN + ACK_BITFIELD_LEN
  }

  const HEADER_LEN: nat := HeaderLen()

  /* ---------------- reading ---------------- */

  /** `Packet::header`: bytes `[0, 16)`; the slice panics on a shorter
      buffer. */
  function Header(p: array<byte>): (h: seq<byte>)
    requires p.Length >= HEADER_LEN
    reads p
    ensures |h| == HEADER_LEN
  {
    p[..HEADER_LEN]
  }

  /** `Packet::payload`: bytes `[16, len)`. */
  function Payload(p: array<byte>): (b: seq<byte>)
    requires p.Length >= HEADER_LEN
    reads p
    ensures |b| == p.Length - HEADER_LEN
  {
    p[HEADER_LEN..]
  }

  /** `PacketHeader::protocol_id`: bytes `[0, 4)`; `try_into().unwrap()`
      panics on fewer. */
  function ProtocolId(h: seq<byte>): (id: seq<byte>)
    requires |h| >= PROTOCOL_ID_LEN
    ensures |id| == PROTOCOL_ID_LEN
  {
    h[0..4]
  }

  /** `PacketHeader::seq`: bytes `[4, 8)`. */
  function Seq(h: seq<byte>): SeqNumber
    requires |h| >= 8
  {
    SeqNumber.FromBytes(h[4..8])
  }

  /** `PacketHeader::ack`: bytes `[8, 12)`. */
  function Ack(h: seq<byte>): SeqNumber
    requires |h| >= 12
  {
    SeqNumber.FromBytes(h[8..12])
  }

  /** `PacketHeader::ack_bitfield`: bytes `[12, 16)`. */
  function Bitfield(h: seq<byte>): AckBitfield
    requires |h| >= 16
  {
    AckBitfield.FromBytes(h[12..16])
  }

  /** The 16 bytes `set(seq, ack, bf)` writes, in the order of its `parts`
      array. */
  function HeaderBytes(s: SeqNumber, a: SeqNumber, bf: AckBitfield): (h: seq<byte>)
    ensures |h| == HEADER_LEN
  {
    PROTOCOL_ID + s.ToBytes() + a.ToBytes() + bf.ToBytes()
  }

  /* ---------------- allocation and writing ---------------- */

  /** `Packet::new_boxed(payload_len)`: a zeroed buffer of the payload
      length plus the header length. */
  method NewBoxed(payloadLen: nat) returns (p: array<byte>)
    ensures fresh(p)
    ensures p.Length == payloadLen + HEADER_LEN
    ensures forall i :: 0 <= i < p.Length ==> p[i] == 0
  {
    p := new byte[payloadLen + HEADER_LEN](_ => 0);
  }

  /** `PacketHeader::set` through `header_mut`: copies the four parts one
      after the other, advancing `low`, into bytes `[0, 16)`; the slice
      indexing panics on a shorter buffer. Everything behind the header is
      left alone. */
  method SetHeader(buf: array<byte>, s: SeqNumber, a: SeqNumber, bf: AckBitfield)
    requires buf.Length >= HEADER_LEN
    modifies buf
    ensures buf[..] == HeaderBytes(s, a, bf) + old(buf[HEADER_LEN..])
  {
    var parts := [PROTOCOL_ID, s.ToBytes(), a.ToBytes(), bf.ToBytes()];
    var low := 0;
    var k := 0;
    while k < |parts|
      invariant 0 <= k <= |parts|
      invariant low == 4 * k
      invariant buf[..low] == Flatten(parts[..k])
      invariant buf[low..] == old(buf[low..])
    {
      var part := parts[k];
      CopyInto(buf, low, part);
      assert parts[..k + 1] == parts[..k] + [part];
      FlattenSnoc(parts[..k], part);
      low := low + |part|;
      k := k + 1;
    }
    assert parts[..4] == parts;
    assert Flatten(parts) == HeaderBytes(s, a, bf) by {
      FlattenFour(PROTOCOL_ID, s.ToBytes(), a.ToBytes(), bf.ToBytes());
    }
    assert buf[..] == buf[..HEADER_LEN] + buf[HEADER_LEN..];
  }

  /** `buf[low..low + part.len()].copy_from_slice(part)`. */
  method CopyInto(buf: array<byte>, low: nat, part: seq<byte>)
    requires low + |part| <= buf.Length
    modifies buf
    ensures buf[..] == old(buf[..low]) + part + old(buf[low + |part|..])
  {
    var j := 0;
    while j < |part|
      invariant 0 <= j <= |part|
      invariant buf[..low] == old(buf[..low])
      invariant buf[low..low + j] == part[..j]
      invariant buf[low + j..] == old(buf[low + j..])
    {
      buf[low + j] := part[j];
      assert buf[low..low + j + 1] == buf[low..low + j] + [part[j]];
      assert part[..j + 1] == part[..j] + [part[j]];
      j := j + 1;
    }
    assert buf[..] == buf[..low] + buf[low..low + |part|] + buf[low + |part|..];
  }

  /** `payload_mut()[i] = v`: the mutable payload view writes byte
      `16 + i` of the buffer. */
  method SetPayloadByte(p: array<byte>, i: nat, v: byte)
    requires p.Length >= HEADER_LEN && i < p.Length - HEADER_LEN
    modifies p
    ensures p[..] == old(p[..])[HEADER_LEN + i := v]
  {
    p[HEADER_LEN + i] := v;
  }

  function Flatten(parts: seq<seq<byte>>): seq<byte>
  {
    if parts == [] then [] else Flatten(parts[..|parts| - 1]) + parts[|parts| - 1]
  }

  lemma FlattenSnoc(parts: seq<seq<byte>>, part: seq<byte>)
    ensures Flatten(parts + [part]) == Flatten(parts) + part
  {
    assert (parts + [part])[..|parts|] == parts;
  }

  lemma {:induction false} FlattenFour(a: seq<byte>, b: seq<byte>, c: seq<byte>, d: seq<byte>)
    ensures Flatten([a, b, c, d]) == a + b + c + d
  {
    FlattenSnoc([], a);
    FlattenSnoc([a], b);
    FlattenSnoc([a, b], c);
    FlattenSnoc([a, b, c], d);
    assert [a] == [] + [a] && [a, b] == [a] + [b] && [a, b, c] == [a, b] + [c]
      && [a, b, c, d] == [a, b, c] + [d];
  }

  /* ---------------- properties ---------------- */

  /** The header and the payload split the whole buffer. */
  lemma HeaderPayloadSplit(p: array<byte>)
    requires p.Length >= HEADER_LEN
    ensures Header(p) + Payload(p) == p[..]
  {
  }

  /** The four 4-byte slices of a 16-byte concatenation are its parts. */
  lemma Quarters(p: seq<byte>, x: seq<byte>, y: seq<byte>, z: seq<byte>)
    requires |p| == 4 && |x| == 4 && |y| == 4 && |z| == 4
    ensures (p + x + y + z)[..4] == p && (p + x + y + z)[4..8] == x
    ensures (p + x + y + z)[8..12] == y && (p + x + y + z)[12..16] == z
  {
    assert p + x + y + z == (p + x + y) + z;
    assert (p + x + y)[8..12] == y;
  }

  /** Reading back what `set` wrote gives the protocol id and the three
      values it was given (the `header_serde` property test). */
  lemma {:induction false} SetThenRead(s: SeqNumber, a: SeqNumber, bf: AckBitfield)
    ensures ProtocolId(HeaderBytes(s, a, bf)) == PROTOCOL_ID
    ensures Seq(HeaderBytes(s, a, bf)) == s
    ensures Ack(HeaderBytes(s, a, bf)) == a
    ensures Bitfield(HeaderBytes(s, a, bf)) == bf
  {
    Quarters(PROTOCOL_ID, s.ToBytes(), a.ToBytes(), bf.ToBytes());
    SeqNumbers.FromToBytes(s);
    SeqNumbers.FromToBytes(a);
    AckBitfields.FromToBytes(bf);
  }

  /** After `header_mut().set(..)` the packet's header decodes to what was
      written and the payload is unchanged (an array's length is fixed, as
      a boxed slice's is). */
  method FillAndRead(p: array<byte>, s: SeqNumber, a: SeqNumber, bf: AckBitfield)
    requires p.Length >= HEADER_LEN
    modifies p
    ensures Payload(p) == old(Payload(p))
    ensures ProtocolId(Header(p)) == PROTOCOL_ID
    ensures Seq(Header(p)) == s && Ack(Header(p)) == a && Bitfield(Header(p)) == bf
  {
    SetHeader(p, s, a, bf);
    assert Header(p) == HeaderBytes(s, a, bf);
    SetThenRead(s, a, bf);
  }

  /** A freshly allocated packet carries protocol id `[0, 0, 0, 0]`, which is
      not `PROTOCOL_ID`. */
  lemma ZeroedProtocolId(h: seq<byte>)
    requires |h| >= PROTOCOL_ID_LEN && forall i :: 0 <= i < |h| ==> h[i] == 0
    ensures ProtocolId(h) == [0, 0, 0, 0]
    ensures ProtocolId(h) != PROTOCOL_ID
  {
  }
}
