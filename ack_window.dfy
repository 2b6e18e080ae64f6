/** The ack update of `check` measured against what the peer's reader
    makes of the header (src/network/connection.rs lines 75-86): a header
    with `ack = a` acknowledges `a` and, for each set bit `i`, the number
    `a - 32 + i`. The update as written breaks that reading in both
    branches (see `ShiftMisaligns` and `ReorderedPanics`), and the reader as
    written reads it differently below 32 (see `NearZeroMisread`).
    `ReceiveAckFixed` and `AckedFixed` are the update and the reading that
    agree, and `FixedKeepsWindow` proves so. */
module AckWindows {
  import opened Octets
  import opened BigEndian
  import opened Wrappers
  import opened AckBitfields
  import opened SeqNumbers
  import opened AckStates
  import opened BitViews

  /* ---------------- the update as written ---------------- */

  /** Line 62: receiving 100 right after 99 shifts the history by two, so
      the old `ack` 99 lands on bit 30, which the reader takes for 98. */
  lemma ShiftMisaligns()
    ensures AckUpdateDefined(SeqNumber(100), SeqNumber(99), SeqNumber(100))
    ensures var r := ReceiveAck(SeqNumber(100), SeqNumber(99), AckBitfield(0), SeqNumber(100));
      r == (SeqNumber(100), AckBitfield(0x4000_0000)) &&
      SeqNumber(98) in Acked(r.0, r.1) && SeqNumber(99) !in Acked(r.0, r.1)
  {
    var r := ReceiveAck(SeqNumber(100), SeqNumber(99), AckBitfield(0), SeqNumber(100));
    DistanceToNear(SeqNumber(100), SeqNumber(99));
    ShiftWithinWindow(AckBitfield(0), 2);
    assert r.1 == AckBitfield(0x4000_0000);
    AckedMembers(r.0, r.1, SeqNumber(98));
    AckedMembers(r.0, r.1, SeqNumber(99));
    assert BitIndex(98 - 68) == 30 && BitIndex(99 - 68) == 31;
  }

  /** Lines 66-69: a fresh connection that receives the peer's 1 and then,
      reordered, its 0 measures 0 against its own `seq` 0: the distance is
      zero and `set(32)` panics. */
  lemma ReorderedPanics()
    ensures var first := ReceiveAck(SeqNumber(0), SeqNumber(0), AckBitfield(0), SeqNumber(1));
      first.0 == SeqNumber(1) &&
      !AckUpdateDefined(SeqNumber(0), first.0, SeqNumber(0))
  {
    DistanceToNear(SeqNumber(1), SeqNumber(0));
    DistanceToSelf(SeqNumber(0));
  }

  /** Lines 80-86 near zero: a peer at `ack` 20 got our 0 and set bit
      `32 - 20 = 12` for it, but the loop reads bit 12 as our 12, a packet
      the peer may never have had, and does not acknowledge 0. */
  lemma NearZeroMisread()
    ensures ReceiveAckFixed(SeqNumber(20), AckBitfield(0), SeqNumber(0)) == (SeqNumber(20), AckBitfield(0x1000))
    ensures SeqNumber(12) in Acked(SeqNumber(20), AckBitfield(0x1000))
    ensures SeqNumber(0) !in Acked(SeqNumber(20), AckBitfield(0x1000))
    ensures SeqNumber(0) in AckedFixed(SeqNumber(20), AckBitfield(0x1000))
    ensures SeqNumber(12) !in AckedFixed(SeqNumber(20), AckBitfield(0x1000))
  {
    DistanceToNear(SeqNumber(20), SeqNumber(0));
    assert BitIndex(12) == 12 && BitIndex(0) == 0;
    AckedMembers(SeqNumber(20), AckBitfield(0x1000), SeqNumber(12));
    AckedMembers(SeqNumber(20), AckBitfield(0x1000), SeqNumber(0));
    AckedFixedMembers(SeqNumber(20), AckBitfield(0x1000), SeqNumber(0));
    AckedFixedMembers(SeqNumber(20), AckBitfield(0x1000), SeqNumber(12));
  }

  /* ---------------- the corrected update ---------------- */

  /** The update the reader expects: a number `d >= 1` ahead of `ack`
      becomes the new `ack`, and the history moves down by `d` with the old
      `ack` at bit `32 - d`; the current `ack` again changes nothing; a
      number `diff` behind `ack` (measured from `ack`, not from the local
      `seq`) sets bit `32 - diff` when `diff <= 32`. Defined for every
      input. */
  function ReceiveAckFixed(ack: SeqNumber, bf: AckBitfield, s: SeqNumber): (r: (SeqNumber, AckBitfield))
    ensures s.n >= ack.n ==> r.0 == s
    ensures s.n < ack.n ==> r.0 == ack
  {
    match s.DistanceTo(ack)
    case Some(shifts) =>
      if shifts == 0 then (ack, bf) else (s, bf.Shift(shifts))
    case None =>
      var diff := ack.DistanceTo(s).value;
      if diff <= 32 then (ack, bf.Set(BitIndex(32 - diff))) else (ack, bf)
  }

  /** The numbers a header with `ack = a` can speak about. */
  predicate InWindow(a: SeqNumber, x: SeqNumber)
  {
    a.n - 32 <= x.n <= a.n
  }

  /** What a header with `ack = a` and reference sequence `m` acknowledges,
      as numbers. */
  ghost predicate AckedBy(a: int, m: seq<bool>, x: int)
    requires |m| == 32
  {
    x == a || (a - 32 <= x < a && m[x - a + 32])
  }

  /** Membership in `AckedFixed`, read through a reference sequence. */
  lemma {:induction false} AckedVia(a: SeqNumber, bf: AckBitfield, m: seq<bool>, x: SeqNumber)
    requires Models(m, bf)
    ensures x in AckedFixed(a, bf) <==> AckedBy(a.n, m, x.n)
  {
    AckedFixedMembers(a, bf, x);
    if a.n - 32 <= x.n < a.n {
      GetAt(m, bf, x.n - a.n + 32);
    }
  }

  /** The reference reading of a shift by `d`, `1 <= d <= 32`, to a new
      `ack` `d` further on. */
  lemma {:induction false} ShiftedReading(m: seq<bool>, a: int, d: int, x: int)
    requires |m| == 32 && 1 <= d <= 32
    ensures AckedBy(a + d, RefShift(m, d), x) <==>
      (x == a + d || AckedBy(a, m, x)) && a + d - 32 <= x <= a + d
  {
    if a + d - 32 <= x < a + d {
      RefShiftAt(m, d, x - a - d + 32);
    }
  }

  /** The reference reading of setting the bit of a number `diff` behind,
      `1 <= diff <= 32`. */
  lemma {:induction false} SetReading(m: seq<bool>, a: int, diff: int, i: bv8, x: int)
    requires |m| == 32 && 1 <= diff <= 32 && i <= 31 && i as int == 32 - diff
    ensures AckedBy(a, RefSet(m, i), x) <==> (x == a - diff || AckedBy(a, m, x)) && a - 32 <= x <= a
  {
  }

  /** A number `d` ahead, `1 <= d <= 32`: the old `ack` and its history
      move down by `d`. */
  lemma {:induction false} NewerNearWindow(ack: SeqNumber, bf: AckBitfield, s: SeqNumber, x: SeqNumber)
    requires ack.n < s.n <= ack.n + 32
    ensures x in AckedFixed(s, bf.Shift(s.n - ack.n)) <==>
      (x == s || x in AckedFixed(ack, bf)) && InWindow(s, x)
  {
    var d := s.n - ack.n;
    var m := View(bf);
    ViewModels(bf);
    AckedVia(ack, bf, m, x);
    ShiftAgrees(m, bf, d);
    AckedVia(s, bf.Shift(d), RefShift(m, d), x);
    ShiftedReading(m, ack.n, d, x.n);
  }

  /** A number more than 32 ahead: the whole history falls out. */
  lemma {:induction false} NewerFarWindow(ack: SeqNumber, bf: AckBitfield, s: SeqNumber, x: SeqNumber)
    requires s.n > ack.n + 32
    ensures x in AckedFixed(s, bf.Shift(s.n - ack.n)) <==>
      (x == s || x in AckedFixed(ack, bf)) && InWindow(s, x)
  {
    ShiftBeyondWindow(bf, s.n - ack.n);
    AckedZero(s, x);
    AckedFixedMembers(ack, bf, x);
  }

  /** A number `diff` behind, `1 <= diff <= 32`: its own bit is turned on. */
  lemma {:induction false} OlderNearWindow(ack: SeqNumber, bf: AckBitfield, s: SeqNumber, x: SeqNumber)
    requires ack.n - 32 <= s.n < ack.n
    ensures x in AckedFixed(ack, bf.Set(BitIndex(32 - (ack.n - s.n)))) <==>
      (x == s || x in AckedFixed(ack, bf)) && InWindow(ack, x)
  {
    var diff := ack.n - s.n;
    var i := BitIndex(32 - diff);
    var m := View(bf);
    ViewModels(bf);
    AckedVia(ack, bf, m, x);
    SetAgrees(m, bf, i);
    AckedVia(ack, bf.Set(i), RefSet(m, i), x);
    SetReading(m, ack.n, diff, i, x.n);
  }

  /** A number more than 32 behind lies outside the window already. */
  lemma {:induction false} OlderFarWindow(ack: SeqNumber, bf: AckBitfield, s: SeqNumber, x: SeqNumber)
    requires s.n < ack.n - 32
    ensures x in AckedFixed(ack, bf) <==> (x == s || x in AckedFixed(ack, bf)) && InWindow(ack, x)
  {
    AckedFixedMembers(ack, bf, x);
  }

  /** The current `ack` again changes nothing. */
  lemma {:induction false} SameWindow(ack: SeqNumber, bf: AckBitfield, x: SeqNumber)
    ensures x in AckedFixed(ack, bf) <==> (x == ack || x in AckedFixed(ack, bf)) && InWindow(ack, x)
  {
    AckedFixedMembers(ack, bf, x);
  }

  /** The property the corrected update keeps, read by the corrected
      loop: without wrap-around, the new header acknowledges exactly the
      old acknowledgements plus `s`, less what falls out of the new
      window. */
  lemma {:induction false} FixedKeepsWindow(ack: SeqNumber, bf: AckBitfield, s: SeqNumber, x: SeqNumber)
    requires s.n <= ack.n + HALF && ack.n <= s.n + HALF
    ensures var r := ReceiveAckFixed(ack, bf, s);
      x in AckedFixed(r.0, r.1) <==> (x == s || x in AckedFixed(ack, bf)) && InWindow(r.0, x)
  {
    var r := ReceiveAckFixed(ack, bf, s);
    if s.n >= ack.n {
      DistanceToNear(s, ack);
      if s == ack {
        assert r == (ack, bf);
        SameWindow(ack, bf, x);
      } else if s.n <= ack.n + 32 {
        assert r == (s, bf.Shift(s.n - ack.n));
        NewerNearWindow(ack, bf, s, x);
      } else {
        assert r == (s, bf.Shift(s.n - ack.n));
        NewerFarWindow(ack, bf, s, x);
      }
    } else {
      DistanceToNear(ack, s);
      if ack.n - 32 <= s.n {
        assert r == (ack, bf.Set(BitIndex(32 - (ack.n - s.n))));
        OlderNearWindow(ack, bf, s, x);
      } else {
        assert r == (ack, bf);
        OlderFarWindow(ack, bf, s, x);
      }
    }
  }
}
