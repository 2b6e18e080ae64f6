/** `Connection` of src/network/connection.rs: the per-peer state of the
    reliable-UDP layer. It numbers outgoing packets, remembers which
    incoming packets it has seen (the highest `ack` and a 32-bit history
    behind it), keeps a timer for every sent packet not yet acknowledged,
    and an idle timer. Durations are whole nanoseconds, as a Rust
    `Duration` is. */
module Connections {
  import opened Octets
  import opened BigEndian
  import opened Wrappers
  import opened AckBitfields
  import opened SeqNumbers
  import opened Packets
  import opened AckStates
  import opened AckWindows

  /** `timeout()`: ten seconds. */
  const TIMEOUT: nat := 10_000_000_000

  /** `packet_timeout()`: one second. */
  const PACKET_TIMEOUT: nat := 1_000_000_000

  /** The one `NetworkError` the connection itself raises. */
  datatype NetworkError = InvalidProtocolId

  /* ---------------- updating: the timers ---------------- */

  /** The sent packets whose remaining time runs out within `dt`:
      `checked_sub(dt)` fails exactly when the remaining time is below
      `dt`. */
  ghost function Expired(timeouts: map<SeqNumber, nat>, dt: nat): set<SeqNumber>
  {
    set s | s in timeouts && timeouts[s] < dt
  }

  /** The timers after the first loop of `update`: those with at least
      `dt` left are `dt` shorter, the rest unchanged. */
  ghost function Ticked(timeouts: map<SeqNumber, nat>, dt: nat): map<SeqNumber, nat>
  {
    map s | s in timeouts :: if timeouts[s] >= dt then timeouts[s] - dt else timeouts[s]
  }

  /** The surviving timers, each `dt` shorter: the run-down timers less
      the expired ones. */
  ghost function Aged(timeouts: map<SeqNumber, nat>, dt: nat): map<SeqNumber, nat>
  {
    Ticked(timeouts, dt) - Expired(timeouts, dt)
  }

  /** Ageing splits the timers: every entry either expires or survives
      (including one with exactly `dt` left, which stays at zero), never
      both, and a survivor is exactly `dt` shorter. */
  lemma AgedPartition(timeouts: map<SeqNumber, nat>, dt: nat, s: SeqNumber)
    requires s in timeouts
    ensures (s in Expired(timeouts, dt)) != (s in Aged(timeouts, dt))
    ensures s in Aged(timeouts, dt) ==> Aged(timeouts, dt)[s] + dt == timeouts[s]
    ensures timeouts[s] == dt ==> s in Aged(timeouts, dt) && Aged(timeouts, dt)[s] == 0
  {
  }

  /** Ageing adds no timer, and ageing by zero changes nothing. */
  lemma AgedKeys(timeouts: map<SeqNumber, nat>, dt: nat)
    ensures Aged(timeouts, dt).Keys + Expired(timeouts, dt) == timeouts.Keys
    ensures Aged(timeouts, 0) == timeouts && Expired(timeouts, 0) == {}
  {
  }

  lemma RemoveNothing(m: map<SeqNumber, nat>)
    ensures m - {} == m
  {
  }

  lemma RemoveMore(m: map<SeqNumber, nat>, a: set<SeqNumber>, b: set<SeqNumber>)
    ensures (m - a) - b == m - (a + b)
  {
  }

  predicate NoDuplicates(xs: seq<SeqNumber>)
  {
    forall i, j :: 0 <= i < j < |xs| ==> xs[i] != xs[j]
  }

  ghost function Elements(xs: seq<SeqNumber>): set<SeqNumber>
  {
    set x | x in xs
  }

  lemma ElementsSnoc(xs: seq<SeqNumber>, x: SeqNumber)
    ensures Elements(xs + [x]) == Elements(xs) + {x}
  {
  }

  /** Running the timers down and then dropping the expired ones leaves
      exactly the aged timers. */
  lemma TickedThenDropped(timeouts: map<SeqNumber, nat>, dt: nat, timedOut: seq<SeqNumber>)
    requires forall s :: s in timedOut <==> s in Expired(timeouts, dt)
    ensures Ticked(timeouts, dt) - Elements(timedOut) == Aged(timeouts, dt)
  {
    assert Elements(timedOut) == Expired(timeouts, dt);
  }

  /** One round of the loop at lines 82-86 removes what `AckedStep` says. */
  lemma ForgetStep(base: map<SeqNumber, nat>, lower: u32, bf: AckBitfield, index: nat, offset: nat)
    requires offset + index < 32 && lower + index < MAX
    ensures var t := base - AckedFrom(lower, bf, index, offset);
      (if bf.Get(BitIndex(offset + index)) then t - {SeqNumber(lower + index)} else t) ==
        base - AckedFrom(lower, bf, index + 1, offset)
  {
    var t := base - AckedFrom(lower, bf, index, offset);
    var step := AckedStep(lower, bf, index, offset);
    AckedFromNext(lower, bf, index, offset);
    RemoveMore(base, AckedFrom(lower, bf, index, offset), step);
    if !bf.Get(BitIndex(offset + index)) {
      RemoveNothing(t);
    }
  }

  /** Lines 75-86 of `check`: the peer's `ack` loses its timer, then the
      loop over `lower..upper` drops the timer of `lower + index` for every
      set bit `offset + index` of the peer's bitfield. The code as written
      reads bit `index` (offset 0); the corrected loop starts at
      `BitOffset(upper)`, so that bit 31 stands for `upper - 1` below 32 as
      well. */
  method Scan(timeouts: map<SeqNumber, nat>, peerAck: SeqNumber, bitset: AckBitfield, offset: nat)
      returns (pending: map<SeqNumber, nat>)
    requires offset + (peerAck.n - WindowLower(peerAck.n)) <= 32
    ensures pending == timeouts - ({peerAck} +
      AckedFrom(WindowLower(peerAck.n), bitset, peerAck.n - WindowLower(peerAck.n), offset))
  {
    pending := timeouts - {peerAck};

    var upper := peerAck.n;
    var lower := WindowLower(upper);
    var index := 0;
    while index < upper - lower
      invariant 0 <= index <= upper - lower
      invariant pending == timeouts - {peerAck} - AckedFrom(lower, bitset, index, offset)
    {
      ForgetStep(timeouts - {peerAck}, lower, bitset, index, offset);
      if bitset.Get(BitIndex(offset + index)) {
        pending := pending - {SeqNumber(lower + index)};
      }
      index := index + 1;
    }
    RemoveMore(timeouts, {peerAck}, AckedFrom(lower, bitset, upper - lower, offset));
  }

  /** The corrected scan: drops every timer `AckedFixed` names. */
  method Forget(timeouts: map<SeqNumber, nat>, peerAck: SeqNumber, bitset: AckBitfield)
      returns (pending: map<SeqNumber, nat>)
    ensures pending == timeouts - AckedFixed(peerAck, bitset)
  {
    pending := Scan(timeouts, peerAck, bitset, BitOffset(peerAck.n));
  }

  /** The scan as written: drops every timer `Acked` names. */
  method ForgetAsWritten(timeouts: map<SeqNumber, nat>, peerAck: SeqNumber, bitset: AckBitfield)
      returns (pending: map<SeqNumber, nat>)
    ensures pending == timeouts - Acked(peerAck, bitset)
  {
    pending := Scan(timeouts, peerAck, bitset, 0);
  }

  /** Lines 107-115 of `update`: every timer with at least `dt` left runs
      down by `dt`; the others are left as they are and reported, in the
      map's iteration order, which the model leaves open. */
  method RunDown(timeouts: map<SeqNumber, nat>, dt: nat) returns (left: map<SeqNumber, nat>, timedOut: seq<SeqNumber>)
    ensures left == Ticked(timeouts, dt)
    ensures forall s :: s in timedOut <==> s in Expired(timeouts, dt)
    ensures NoDuplicates(timedOut)
  {
    timedOut := [];
    left := timeouts;
    var pending := timeouts.Keys;
    while pending != {}
      invariant pending <= timeouts.Keys && left.Keys == timeouts.Keys
      invariant forall s :: s in pending ==> left[s] == timeouts[s]
      invariant forall s :: s in timeouts && s !in pending ==> left[s] == Ticked(timeouts, dt)[s]
      invariant forall s :: s in timedOut <==> s in Expired(timeouts, dt) && s !in pending
      invariant NoDuplicates(timedOut)
      decreases |pending|
    {
      var s :| s in pending;
      if left[s] >= dt {
        left := left[s := left[s] - dt];
      } else {
        timedOut := timedOut + [s];
      }
      pending := pending - {s};
    }
  }

  /** Lines 116-118 of `update`: the timers of the reported packets are
      removed. */
  method DropAll(timeouts: map<SeqNumber, nat>, timedOut: seq<SeqNumber>) returns (left: map<SeqNumber, nat>)
    ensures left == timeouts - Elements(timedOut)
  {
    left := timeouts;
    var i := 0;
    while i < |timedOut|
      invariant 0 <= i <= |timedOut|
      invariant left == timeouts - Elements(timedOut[..i])
    {
      ElementsSnoc(timedOut[..i], timedOut[i]);
      assert timedOut[..i + 1] == timedOut[..i] + [timedOut[i]];
      RemoveMore(timeouts, Elements(timedOut[..i]), {timedOut[i]});
      left := left - {timedOut[i]};
      i := i + 1;
    }
    assert timedOut[..i] == timedOut;
  }

  /* ---------------- the connection ---------------- */

  /** The Rust field `seq` is `localSeq` here (`seq` is a Dafny keyword). */
  class Connection {
    var timeoutTimer: nat
    var localSeq: SeqNumber
    var ack: SeqNumber
    var ackBitfield: AckBitfield
    var timeouts: map<SeqNumber, nat>

    /** `Connection::new`: a full idle timer, every number at its default
        of zero, an empty history and no pending packets. */
    constructor ()
      ensures timeoutTimer == TIMEOUT
      ensures localSeq == SeqNumber(0) && ack == SeqNumber(0)
      ensures ackBitfield == AckBitfield(0) && timeouts == map[]
    {
      timeoutTimer := TIMEOUT;
      localSeq := SeqNumber(0);
      ack := SeqNumber(0);
      ackBitfield := AckBitfield(0);
      timeouts := map[];
    }

    /** `check`: a header with the wrong protocol id is refused and changes
        nothing; otherwise the ack state takes in the incoming number, every
        sent packet the peer acknowledges loses its timer, and the idle
        timer is reset. The local `seq` never changes. The ack state is
        updated as `ReceiveAckFixed` does it and the peer's history is read
        as `AckedFixed` does; `ReceiveAck` and `Acked` are the code as
        written (see `CheckAsWritten`), which can panic and which disagree about
        the history. */
    method Check(packet: array<byte>) returns (r: Result<(), NetworkError>)
      requires packet.Length >= HEADER_LEN
      modifies this
      ensures localSeq == old(localSeq)
      ensures ProtocolId(Header(packet)) != PROTOCOL_ID ==>
        r == Err(InvalidProtocolId) && ack == old(ack) && ackBitfield == old(ackBitfield) &&
        timeouts == old(timeouts) && timeoutTimer == old(timeoutTimer)
      ensures ProtocolId(Header(packet)) == PROTOCOL_ID ==>
        r == Ok(()) &&
        (ack, ackBitfield) == ReceiveAckFixed(old(ack), old(ackBitfield), Seq(Header(packet))) &&
        timeouts == old(timeouts) - AckedFixed(Ack(Header(packet)), Bitfield(Header(packet))) &&
        timeoutTimer == TIMEOUT
    {
      var header := Header(packet);
      if ProtocolId(header) != PROTOCOL_ID {
        return Err(InvalidProtocolId);
      }

      // lines 60-73: the ack state takes in the incoming number
      var incoming := Seq(header);
      ack, ackBitfield := ReceiveAckFixed(ack, ackBitfield, incoming).0,
        ReceiveAckFixed(ack, ackBitfield, incoming).1;

      // lines 75-86: drop the timers of everything the peer acknowledges
      timeouts := Forget(timeouts, Ack(header), Bitfield(header));

      timeoutTimer := TIMEOUT;
      r := Ok(());
    }

    /** `check` exactly as lines 54-91 write it: the ack state follows
        `ReceiveAck` and the peer's history is read as `Acked` does. The
        precondition is the domain on which lines 66-71 neither unwrap a
        `None` nor call `set(32)`; outside it the code panics (see
        `ReorderedPanics`). */
    method CheckAsWritten(packet: array<byte>) returns (r: Result<(), NetworkError>)
      requires packet.Length >= HEADER_LEN
      requires ProtocolId(Header(packet)) == PROTOCOL_ID ==> AckUpdateDefined(localSeq, ack, Seq(Header(packet)))
      modifies this
      ensures localSeq == old(localSeq)
      ensures ProtocolId(Header(packet)) != PROTOCOL_ID ==>
        r == Err(InvalidProtocolId) && ack == old(ack) && ackBitfield == old(ackBitfield) &&
        timeouts == old(timeouts) && timeoutTimer == old(timeoutTimer)
      ensures ProtocolId(Header(packet)) == PROTOCOL_ID ==>
        r == Ok(()) &&
        (ack, ackBitfield) == ReceiveAck(old(localSeq), old(ack), old(ackBitfield), Seq(Header(packet))) &&
        timeouts == old(timeouts) - Acked(Ack(Header(packet)), Bitfield(Header(packet))) &&
        timeoutTimer == TIMEOUT
    {
      var header := Header(packet);
      if ProtocolId(header) != PROTOCOL_ID {
        return Err(InvalidProtocolId);
      }

      var incoming := Seq(header);
      ack, ackBitfield := ReceiveAck(localSeq, ack, ackBitfield, incoming).0,
        ReceiveAck(localSeq, ack, ackBitfield, incoming).1;

      timeouts := ForgetAsWritten(timeouts, Ack(header), Bitfield(header));

      timeoutTimer := TIMEOUT;
      r := Ok(());
    }

    /** `fill_header`: stamps the current `seq`, `ack` and history into the
        packet's header, starts a one-second timer for that `seq`, and moves
        to the next number. */
    method FillHeader(packet: array<byte>)
      requires packet.Length >= HEADER_LEN
      modifies this, packet
      ensures packet[..] == HeaderBytes(old(localSeq), old(ack), old(ackBitfield)) + old(packet[HEADER_LEN..])
      ensures timeouts == old(timeouts)[old(localSeq) := PACKET_TIMEOUT]
      ensures localSeq == old(localSeq).Next()
      ensures ack == old(ack) && ackBitfield == old(ackBitfield) && timeoutTimer == old(timeoutTimer)
    {
      SetHeader(packet, localSeq, ack, ackBitfield);
      timeouts := timeouts[localSeq := PACKET_TIMEOUT];
      localSeq := localSeq.Next();
    }

    /** `update(dt)`: within the idle timer, the timer and every pending
        packet's timer run down by `dt`, and the packets whose time ran out
        are dropped and reported, each once. Past the idle timer nothing
        happens and nothing is reported. */
    method Update(dt: nat) returns (timedOut: seq<SeqNumber>)
      modifies this
      ensures localSeq == old(localSeq) && ack == old(ack) && ackBitfield == old(ackBitfield)
      ensures dt <= old(timeoutTimer) ==>
        timeoutTimer == old(timeoutTimer) - dt &&
        timeouts == Aged(old(timeouts), dt) &&
        (forall s :: s in timedOut <==> s in Expired(old(timeouts), dt)) &&
        NoDuplicates(timedOut)
      ensures dt > old(timeoutTimer) ==>
        timedOut == [] && timeouts == old(timeouts) && timeoutTimer == old(timeoutTimer)
    {
      timedOut := [];
      if dt <= timeoutTimer {
        timeoutTimer := timeoutTimer - dt;
        var ticked;
        ticked, timedOut := RunDown(timeouts, dt);
        timeouts := DropAll(ticked, timedOut);
        TickedThenDropped(old(timeouts), dt, timedOut);
      }
    }
  }
}
