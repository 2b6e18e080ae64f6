/** What `check` of src/network/connection.rs does with an incoming
    header: the update of the local `ack` and its 32-bit history, and the
    set of sent packets the peer's `ack` and bitfield acknowledge. */
module AckStates {
  import opened Octets
  import opened BigEndian
  import opened Wrappers
  import opened AckBitfields
  import opened SeqNumbers

  /* ---------------- receiving: the ack state ---------------- */

  /** When the ack update of `check` (lines 60-73) runs to completion: either
      the incoming number is not numerically behind `ack` (the first
      branch), or the `unwrap` of `self.seq.distance_to(header.seq())`
      succeeds and the distance is not zero, since `32 - 0` would hand
      `set` the index 32. */
  predicate AckUpdateDefined(localSeq: SeqNumber, ack: SeqNumber, s: SeqNumber)
  {
    s.DistanceTo(ack).Some? || (localSeq.DistanceTo(s).Some? && localSeq.DistanceTo(s).value != 0)
  }

  /** The update is defined exactly when the incoming number is not behind
      `ack` or is strictly behind the local `seq`: the "header.seq() < self.seq"
      that the code's own comment assumes. */
  lemma AckUpdateDefinedIff(localSeq: SeqNumber, ack: SeqNumber, s: SeqNumber)
    ensures AckUpdateDefined(localSeq, ack, s) <==> s.n >= ack.n || s.n < localSeq.n
  {
  }

  /** The new `(ack, ack_bitfield)` after receiving a packet numbered `s`,
      as lines 60-73 compute it: a number not behind `ack` becomes the new
      `ack` and the history shifts by the distance plus one; an older
      number sets bit `32 - diff`, where `diff` is its distance behind the
      local `seq`, unless that distance exceeds 32. */
  function ReceiveAck(localSeq: SeqNumber, ack: SeqNumber, bf: AckBitfield, s: SeqNumber): (r: (SeqNumber, AckBitfield))
    requires AckUpdateDefined(localSeq, ack, s)
    // the first branch moves `ack` to the incoming number
    ensures s.n >= ack.n ==> r.0 == s
    // the second keeps `ack`, so `ack` never moves back
    ensures s.n < ack.n ==> r.0 == ack
    ensures r.0.n >= ack.n
  {
    match s.DistanceTo(ack)
    case Some(shifts) => (s, ShiftPast(bf, shifts))
    case None => (ack, MarkOlder(localSeq, bf, s))
  }

  /** Lines 61-63: the history when `shifts` numbers lie between `ack` and
      the incoming one. */
  function ShiftPast(bf: AckBitfield, shifts: u32): AckBitfield
    requires shifts <= HALF + 1
  {
    bf.Shift(shifts + 1)
  }

  /** Lines 66-71: the history when the incoming number `s` is behind `ack`
      and `diff` behind the local `seq`. */
  function MarkOlder(localSeq: SeqNumber, bf: AckBitfield, s: SeqNumber): AckBitfield
    requires localSeq.DistanceTo(s).Some? && localSeq.DistanceTo(s).value != 0
  {
    var diff := localSeq.DistanceTo(s).value;
    if diff <= 32 then bf.Set(BitIndex(32 - diff)) else bf
  }

  /** The first branch's history: the old one shifted by the distance plus
      one. */
  lemma ReceiveNewerHistory(localSeq: SeqNumber, ack: SeqNumber, bf: AckBitfield, s: SeqNumber, d: u32)
    requires s.DistanceTo(ack) == Some(d)
    ensures AckUpdateDefined(localSeq, ack, s)
    ensures ReceiveAck(localSeq, ack, bf, s).1 == bf.Shift(d + 1)
  {
  }

  /** The first branch, bit by bit: for a number `d <= 31` ahead of `ack`,
      bit `31 - d` of the new history is set, each bit `j` below it holds
      the old bit `j + d + 1`, and the bits above it are clear; for
      `d >= 32` the history is cleared. */
  lemma {:induction false} ReceiveNewerBits(localSeq: SeqNumber, ack: SeqNumber, bf: AckBitfield, s: SeqNumber, j: bv8)
    requires s.n >= ack.n && j <= 31
    ensures AckUpdateDefined(localSeq, ack, s)
    ensures var d := s.DistanceTo(ack).value;
      d <= 31 ==>
        ReceiveAck(localSeq, ack, bf, s).1.Get(j) ==
          (j as int == 31 - d || (j as int + d + 1 <= 31 && bf.Get(j + BitIndex(d + 1))))
    ensures var d := s.DistanceTo(ack).value;
      d >= 32 ==> ReceiveAck(localSeq, ack, bf, s).1 == AckBitfield(0)
  {
    var d := s.DistanceTo(ack).value;
    ReceiveNewerHistory(localSeq, ack, bf, s, d);
    if d <= 31 {
      var t := SmallAmount(d + 1);
      ShiftBit(bf, t, j);
      BitSums(j, t);
    } else {
      ShiftBeyondWindow(bf, d + 1);
    }
  }

  /** The bit-vector sums `ReceiveNewerBits` uses, as integers. */
  lemma BitSums(j: bv8, t: bv8)
    requires j <= 31 && 1 <= t <= 32
    ensures (j == 32 - t) == (j as int == 32 - t as int)
    ensures (j + t <= 31) == (j as int + t as int <= 31)
    ensures j as int + t as int <= 31 ==> j + t == j + BitIndex(t as int)
  {
  }

  /** The second branch's history: bit `32 - diff` set when `diff <= 32`,
      the old history otherwise. */
  lemma ReceiveOlderHistory(localSeq: SeqNumber, ack: SeqNumber, bf: AckBitfield, s: SeqNumber)
    requires s.n < ack.n && s.n < localSeq.n
    ensures AckUpdateDefined(localSeq, ack, s)
    ensures var diff := localSeq.DistanceTo(s).value;
      1 <= diff &&
      ReceiveAck(localSeq, ack, bf, s).1 == (if diff <= 32 then bf.Set(BitIndex(32 - diff)) else bf)
  {
  }

  lemma SetGet(bf: AckBitfield, i: bv8, j: bv8)
    requires i <= 31 && j <= 31
    ensures bf.Set(i).Get(j) == (bf.Get(j) || j == i)
  {
    if j == i {
      SetGetSame(bf, i);
    } else {
      SetGetOther(bf, i, j);
    }
  }

  /** The second branch, bit by bit: within 32 of the local `seq` exactly
      bit `32 - diff` is turned on and no other bit changes; further back
      nothing changes. */
  lemma {:induction false} ReceiveOlderBits(localSeq: SeqNumber, ack: SeqNumber, bf: AckBitfield, s: SeqNumber, j: bv8)
    requires s.n < ack.n && s.n < localSeq.n && j <= 31
    ensures AckUpdateDefined(localSeq, ack, s)
    ensures var diff := localSeq.DistanceTo(s).value;
      ReceiveAck(localSeq, ack, bf, s).1.Get(j) ==
        (bf.Get(j) || (diff <= 32 && j == BitIndex(32 - diff)))
  {
    ReceiveOlderHistory(localSeq, ack, bf, s);
    var diff := localSeq.DistanceTo(s).value;
    if diff <= 32 {
      SetGet(bf, BitIndex(32 - diff), j);
    }
  }

  /* ---------------- receiving: the acknowledged packets ---------------- */

  /** `upper.checked_sub(32).unwrap_or(0)`: the first number the peer's
      bitfield speaks about. */
  function WindowLower(upper: u32): (lower: u32)
    ensures lower <= upper && upper - lower <= 32
    ensures upper >= 32 ==> upper - lower == 32
    ensures upper < 32 ==> lower == 0
  {
    if upper >= 32 then upper - 32 else 0
  }

  /** The numbers `lower + i`, `i < count`, whose bit `offset + i` is set:
      what the first `count` rounds of the loop at lines 82-86 remove. The
      code as written reads bit `i` (`offset == 0`); the corrected loop
      reads bit `i + 32 - (upper - lower)`, so that bit 31 always stands
      for `upper - 1`. */
  function AckedFrom(lower: u32, bf: AckBitfield, count: nat, offset: nat): set<SeqNumber>
    requires offset + count <= 32 && lower + count <= MAX
  {
    if count == 0 then {} else AckedFrom(lower, bf, count - 1, offset) + AckedStep(lower, bf, count - 1, offset)
  }

  /** What round `index` of the loop removes. */
  function AckedStep(lower: u32, bf: AckBitfield, index: nat, offset: nat): set<SeqNumber>
    requires offset + index < 32 && lower + index <= MAX
  {
    if bf.Get(BitIndex(offset + index)) then {SeqNumber(lower + index)} else {}
  }

  lemma AckedFromNext(lower: u32, bf: AckBitfield, index: nat, offset: nat)
    requires offset + index < 32 && lower + index < MAX
    ensures AckedFrom(lower, bf, index + 1, offset) == AckedFrom(lower, bf, index, offset) + AckedStep(lower, bf, index, offset)
  {
  }

  /** Every sent number a peer header acknowledges, as lines 75-86 read it:
      its `ack` and, for each set bit `i` of its bitfield, `lower + i` over
      `lower..ack`. */
  function Acked(peerAck: SeqNumber, bf: AckBitfield): set<SeqNumber>
  {
    var lower := WindowLower(peerAck.n);
    {peerAck} + AckedFrom(lower, bf, peerAck.n - lower, 0)
  }

  /** The bit offset of the corrected loop: 0 once `ack >= 32`, and below
      that the number of bits that would stand for negative numbers. */
  function BitOffset(upper: u32): (offset: nat)
    ensures upper >= 32 ==> offset == 0
    ensures upper < 32 ==> offset == 32 - upper
  {
    32 - (upper - WindowLower(upper))
  }

  /** What a peer header acknowledges under the corrected loop: its `ack`
      and, for each set bit `i`, the number `ack - 32 + i` when that is not
      negative. */
  function AckedFixed(peerAck: SeqNumber, bf: AckBitfield): set<SeqNumber>
  {
    var lower := WindowLower(peerAck.n);
    {peerAck} + AckedFrom(lower, bf, peerAck.n - lower, BitOffset(peerAck.n))
  }

  /** Membership in `AckedFrom`: a number is there exactly when it lies in
      `lower..lower + count` and its bit is set. */
  lemma {:induction false} AckedFromMembers(lower: u32, bf: AckBitfield, count: nat, offset: nat, x: SeqNumber)
    requires offset + count <= 32 && lower + count <= MAX
    ensures x in AckedFrom(lower, bf, count, offset) <==>
      lower <= x.n < lower + count && bf.Get(BitIndex(x.n - lower + offset))
    decreases count
  {
    if count > 0 {
      AckedFromMembers(lower, bf, count - 1, offset, x);
      var newest := SeqNumber(lower + count - 1);
      var rest := AckedFrom(lower, bf, count - 1, offset);
      if x == newest {
        assert x.n - lower == count - 1;
        assert x !in rest;
      } else {
        assert x.n != lower + count - 1;
      }
    }
  }

  /** What a peer header acknowledges as written, stated directly: its
      `ack`, and the number `ack - 32 + i` (or `i`, near zero) for every set
      bit `i` below `ack`. */
  lemma {:induction false} AckedMembers(peerAck: SeqNumber, bf: AckBitfield, x: SeqNumber)
    ensures x in Acked(peerAck, bf) <==>
      x == peerAck ||
      (WindowLower(peerAck.n) <= x.n < peerAck.n && bf.Get(BitIndex(x.n - WindowLower(peerAck.n))))
  {
    var lower := WindowLower(peerAck.n);
    AckedFromMembers(lower, bf, peerAck.n - lower, 0, x);
  }

  /** What a peer header acknowledges under the corrected loop: its `ack`,
      and every number `x` of the 32 below it whose bit `x - ack + 32` is
      set, near zero as well. */
  lemma {:induction false} AckedFixedMembers(peerAck: SeqNumber, bf: AckBitfield, x: SeqNumber)
    ensures x in AckedFixed(peerAck, bf) <==>
      x == peerAck || (peerAck.n - 32 <= x.n < peerAck.n && bf.Get(BitIndex(x.n - peerAck.n + 32)))
  {
    var lower := WindowLower(peerAck.n);
    AckedFromMembers(lower, bf, peerAck.n - lower, BitOffset(peerAck.n), x);
  }

  /** From `ack = 32` on, the two readings agree. */
  lemma {:induction false} ReadingsAgree(peerAck: SeqNumber, bf: AckBitfield)
    requires peerAck.n >= 32
    ensures Acked(peerAck, bf) == AckedFixed(peerAck, bf)
  {
    forall x
      ensures x in Acked(peerAck, bf) <==> x in AckedFixed(peerAck, bf)
    {
      AckedMembers(peerAck, bf, x);
      AckedFixedMembers(peerAck, bf, x);
    }
  }

  /** A zero bitfield acknowledges only the `ack` itself. */
  lemma {:induction false} AckedZero(peerAck: SeqNumber, x: SeqNumber)
    ensures x in AckedFixed(peerAck, AckBitfield(0)) <==> x == peerAck
    ensures x in Acked(peerAck, AckBitfield(0)) <==> x == peerAck
  {
    AckedMembers(peerAck, AckBitfield(0), x);
    if WindowLower(peerAck.n) <= x.n < peerAck.n {
      ZeroGetFalse(BitIndex(x.n - WindowLower(peerAck.n)));
    }
    AckedFixedMembers(peerAck, AckBitfield(0), x);
    if peerAck.n - 32 <= x.n < peerAck.n {
      ZeroGetFalse(BitIndex(x.n - peerAck.n + 32));
    }
  }

  lemma ZeroGetFalse(i: bv8)
    requires i <= 31
    ensures !AckBitfield(0).Get(i)
  {
  }
}
