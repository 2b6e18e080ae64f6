/** The two-peer exchanges of the tests in src/network/connection.rs
    (lines 176-239), played out on the model: which sent packets each side
    reports as lost once a little more than the packet timeout has
    passed. */
module ConnectionScenarios {
  import opened Octets
  import opened Wrappers
  import opened AckBitfields
  import opened SeqNumbers
  import opened Packets
  import opened AckStates
  import opened AckWindows
  import opened Connections

  /** Two seconds: `PACKET_TIMEOUT + Duration::from_secs(1)`. */
  const WAIT: nat := PACKET_TIMEOUT + 1_000_000_000

  /** What a receiver reads from a packet whose header was just filled. */
  lemma ReadFilled(p: array<byte>, s: SeqNumber, a: SeqNumber, bf: AckBitfield, rest: seq<byte>)
    requires p.Length >= HEADER_LEN
    requires p[..] == HeaderBytes(s, a, bf) + rest
    ensures ProtocolId(Header(p)) == PROTOCOL_ID
    ensures Seq(Header(p)) == s && Ack(Header(p)) == a && Bitfield(Header(p)) == bf
  {
    assert Header(p) == p[..][..HEADER_LEN] == HeaderBytes(s, a, bf);
    SetThenRead(s, a, bf);
  }

  /** A duplicate-free sequence has as many entries as elements. */
  lemma {:induction false} DistinctCount(xs: seq<SeqNumber>)
    requires NoDuplicates(xs)
    ensures |Elements(xs)| == |xs|
  {
    if xs != [] {
      var init := xs[..|xs| - 1];
      var last := xs[|xs| - 1];
      assert xs == init + [last];
      assert NoDuplicates(init);
      DistinctCount(init);
      ElementsSnoc(init, last);
      assert last !in Elements(init);
    }
  }

  /** A report holding exactly one number is that number alone. */
  lemma ReportOfOne(xs: seq<SeqNumber>, x: SeqNumber)
    requires NoDuplicates(xs)
    requires forall s :: s in xs <==> s == x
    ensures xs == [x]
  {
    assert Elements(xs) == {x};
    DistinctCount(xs);
  }

  /** Two timers (or one, when `a == b`) shorter than `dt` both expire. */
  lemma ExpiredPair(a: SeqNumber, b: SeqNumber, t: nat, dt: nat)
    requires t < dt
    ensures Expired(map[a := t, b := t], dt) == {a, b}
  {
  }

  /** A report holding exactly two different numbers has two entries. */
  lemma ReportOfTwo(xs: seq<SeqNumber>, x: SeqNumber, y: SeqNumber)
    requires x != y && NoDuplicates(xs)
    requires forall s :: s in xs <==> s == x || s == y
    ensures |xs| == 2
  {
    assert Elements(xs) == {x, y};
    DistinctCount(xs);
  }

  lemma ReportOfNone(xs: seq<SeqNumber>)
    ensures (forall s :: s !in xs) ==> xs == []
  {
    if xs != [] {
      assert xs[0] in xs;
    }
  }

  /** The opening of both tests: the client fills a packet (its number 0)
      and the server checks it. */
  method ClientOpens() returns (client: Connection, server: Connection)
    ensures fresh(client) && fresh(server) && client != server
    ensures client.localSeq == SeqNumber(1) && client.ack == SeqNumber(0)
    ensures client.ackBitfield == AckBitfield(0) && client.timeoutTimer == TIMEOUT
    ensures client.timeouts == map[SeqNumber(0) := PACKET_TIMEOUT]
    ensures server.localSeq == SeqNumber(0) && server.ack == SeqNumber(0)
    ensures server.timeoutTimer == TIMEOUT && server.timeouts == map[]
    ensures server.ackBitfield == AckBitfield(0)
  {
    client := new Connection();
    server := new Connection();
    var msg1 := NewBoxed(0);
    client.FillHeader(msg1);
    ReadFilled(msg1, SeqNumber(0), SeqNumber(0), AckBitfield(0), []);
    var r1 := server.Check(msg1);
    assert server.timeouts == map[];
  }

  /** `test_connection_one_roundtrip`: the client's packet and the
      server's reply. The reply acknowledges the client's packet 0, so the
      client reports nothing; nothing acknowledges the server's packet 0,
      so the server reports it. */
  method OneRoundTrip() returns (clientLost: seq<SeqNumber>, serverLost: seq<SeqNumber>)
    ensures clientLost == []
    ensures serverLost == [SeqNumber(0)]
  {
    var client, server := ClientOpens();

    var msg2 := NewBoxed(0);
    server.FillHeader(msg2);
    ReadFilled(msg2, SeqNumber(0), server.ack, server.ackBitfield, []);
    assert server.timeouts == map[SeqNumber(0) := PACKET_TIMEOUT];
    var r2 := client.Check(msg2);
    assert client.timeouts == map[];

    clientLost := client.Update(WAIT);
    ReportOfNone(clientLost);
    serverLost := server.Update(WAIT);
    ExpiredPair(SeqNumber(0), SeqNumber(0), PACKET_TIMEOUT, WAIT);
    ReportOfOne(serverLost, SeqNumber(0));
  }

  /** `test_connection_skip_one`: the server sends two packets and the
      client only receives the second. The client's packet is still
      acknowledged; neither of the server's packets is, so the server
      reports both. */
  method SkipOne() returns (clientLost: seq<SeqNumber>, serverLost: seq<SeqNumber>)
    ensures clientLost == []
    ensures |serverLost| == 2
    ensures forall s :: s in serverLost <==> s == SeqNumber(0) || s == SeqNumber(1)
  {
    var client, server := ClientOpens();

    var msg2 := NewBoxed(0);
    server.FillHeader(msg2);
    var msg3 := NewBoxed(0);
    server.FillHeader(msg3);
    ReadFilled(msg3, SeqNumber(1), server.ack, server.ackBitfield, []);
    ghost var pending := map[SeqNumber(0) := PACKET_TIMEOUT, SeqNumber(1) := PACKET_TIMEOUT];
    assert server.timeouts == pending;
    var r3 := client.Check(msg3);
    assert client.timeouts == map[];

    clientLost := client.Update(WAIT);
    ReportOfNone(clientLost);
    serverLost := server.Update(WAIT);
    ExpiredPair(SeqNumber(0), SeqNumber(1), PACKET_TIMEOUT, WAIT);
    ReportOfTwo(serverLost, SeqNumber(0), SeqNumber(1));
  }

  /* ---------------- the same tests on `check` as written ---------------- */

  /** As written, a fresh connection that receives the peer's 0 treats it
      as newer than its own `ack` 0 and shifts its history once, so bit 31
      comes to be set. */
  lemma FirstReceiveAsWritten()
    ensures AckUpdateDefined(SeqNumber(0), SeqNumber(0), SeqNumber(0))
    ensures ReceiveAck(SeqNumber(0), SeqNumber(0), AckBitfield(0), SeqNumber(0)) == (SeqNumber(0), AckBitfield(0x8000_0000))
  {
    DistanceToSelf(SeqNumber(0));
    ReceiveNewerHistory(SeqNumber(0), SeqNumber(0), AckBitfield(0), SeqNumber(0), 0);
    ShiftWithinWindow(AckBitfield(0), 1);
  }

  /** A header whose `ack` is 0 acknowledges 0 alone, whatever its
      history. */
  lemma AckedAtZero(bf: AckBitfield)
    ensures Acked(SeqNumber(0), bf) == {SeqNumber(0)}
  {
  }

  /** The opening of both tests on `check` as written: the server ends up
      with bit 31 set, where the corrected `Check` leaves 0. */
  method ClientOpensAsWritten() returns (client: Connection, server: Connection)
    ensures fresh(client) && fresh(server) && client != server
    ensures client.localSeq == SeqNumber(1) && client.ack == SeqNumber(0)
    ensures client.ackBitfield == AckBitfield(0) && client.timeoutTimer == TIMEOUT
    ensures client.timeouts == map[SeqNumber(0) := PACKET_TIMEOUT]
    ensures server.localSeq == SeqNumber(0) && server.ack == SeqNumber(0)
    ensures server.ackBitfield == AckBitfield(0x8000_0000)
    ensures server.timeoutTimer == TIMEOUT && server.timeouts == map[]
  {
    client := new Connection();
    server := new Connection();
    var msg1 := NewBoxed(0);
    client.FillHeader(msg1);
    ReadFilled(msg1, SeqNumber(0), SeqNumber(0), AckBitfield(0), []);
    FirstReceiveAsWritten();
    var r1 := server.CheckAsWritten(msg1);
    AckedAtZero(AckBitfield(0));
    assert server.timeouts == map[];
  }

  /** `test_connection_one_roundtrip` on `check` as written: the same
      outcome, since the reply's `ack` 0 acknowledges the client's 0. */
  method OneRoundTripAsWritten() returns (clientLost: seq<SeqNumber>, serverLost: seq<SeqNumber>)
    ensures clientLost == []
    ensures serverLost == [SeqNumber(0)]
  {
    var client, server := ClientOpensAsWritten();

    var msg2 := NewBoxed(0);
    server.FillHeader(msg2);
    ReadFilled(msg2, SeqNumber(0), SeqNumber(0), AckBitfield(0x8000_0000), []);
    assert server.timeouts == map[SeqNumber(0) := PACKET_TIMEOUT];
    DistanceToSelf(SeqNumber(0));
    AckedAtZero(AckBitfield(0x8000_0000));
    var r2 := client.CheckAsWritten(msg2);
    assert client.timeouts == map[];

    clientLost := client.Update(WAIT);
    ReportOfNone(clientLost);
    serverLost := server.Update(WAIT);
    ExpiredPair(SeqNumber(0), SeqNumber(0), PACKET_TIMEOUT, WAIT);
    ReportOfOne(serverLost, SeqNumber(0));
  }

  /** The exchange of `test_connection_skip_one` on `check` as written:
      the server sends 0 and 1, and the client receives only 1, whose
      `ack` 0 frees the client's only timer. */
  method SkipOneExchangeAsWritten() returns (client: Connection, server: Connection)
    ensures fresh(client) && fresh(server) && client != server
    ensures client.timeouts == map[] && client.timeoutTimer == TIMEOUT
    ensures server.timeouts == map[SeqNumber(0) := PACKET_TIMEOUT, SeqNumber(1) := PACKET_TIMEOUT]
    ensures server.timeoutTimer == TIMEOUT
  {
    client, server := ClientOpensAsWritten();

    var msg2 := NewBoxed(0);
    server.FillHeader(msg2);
    var msg3 := NewBoxed(0);
    server.FillHeader(msg3);
    ReadFilled(msg3, SeqNumber(1), SeqNumber(0), AckBitfield(0x8000_0000), []);
    DistanceToNear(SeqNumber(1), SeqNumber(0));
    AckedAtZero(AckBitfield(0x8000_0000));
    var r3 := client.CheckAsWritten(msg3);
  }

  /** `test_connection_skip_one` on `check` as written: the same outcome. */
  method SkipOneAsWritten() returns (clientLost: seq<SeqNumber>, serverLost: seq<SeqNumber>)
    ensures clientLost == []
    ensures |serverLost| == 2
    ensures forall s :: s in serverLost <==> s == SeqNumber(0) || s == SeqNumber(1)
  {
    var client, server := SkipOneExchangeAsWritten();
    clientLost := client.Update(WAIT);
    ReportOfNone(clientLost);
    serverLost := server.Update(WAIT);
    ExpiredPair(SeqNumber(0), SeqNumber(1), PACKET_TIMEOUT, WAIT);
    ReportOfTwo(serverLost, SeqNumber(0), SeqNumber(1));
  }

  /** `test_connection_timed_out`: an update longer than the idle timeout
      leaves a fresh connection as it was and reports nothing. */
  method IdleTooLong() returns (lost: seq<SeqNumber>, pending: map<SeqNumber, nat>, timer: nat)
    ensures lost == [] && pending == map[] && timer == TIMEOUT
  {
    var connection := new Connection();
    lost := connection.Update(TIMEOUT + 11_000_000_000);
    pending := connection.timeouts;
    timer := connection.timeoutTimer;
  }
  /** The history after the peer's 1 and then, reordered, its 0: bit 31
      stands for 0 either way. */
  lemma ReorderedHistory()
    ensures ReceiveAckFixed(SeqNumber(0), AckBitfield(0), SeqNumber(1)) == (SeqNumber(1), AckBitfield(0x8000_0000))
    ensures ReceiveAckFixed(SeqNumber(1), AckBitfield(0x8000_0000), SeqNumber(0)) == (SeqNumber(1), AckBitfield(0x8000_0000))
  {
    DistanceToNear(SeqNumber(1), SeqNumber(0));
    ShiftWithinWindow(AckBitfield(0), 1);
    SetIdempotent(AckBitfield(0x8000_0000), 31);
    assert AckBitfield(0x8000_0000).Get(31);
  }

  /** A reply with `ack` 1 and bit 31 acknowledges both 0 and 1. */
  lemma ReplyAcksBoth(x: SeqNumber)
    ensures x in AckedFixed(SeqNumber(1), AckBitfield(0x8000_0000)) <==> x == SeqNumber(0) || x == SeqNumber(1)
  {
    AckedFixedMembers(SeqNumber(1), AckBitfield(0x8000_0000), x);
    if x == SeqNumber(0) {
      assert BitIndex(31) == 31;
      assert AckBitfield(0x8000_0000).Get(31);
    }
  }

  /** The client sends 0 and 1 and the server receives them in the
      opposite order. (With the update as written the server's second
      `check` would panic; see `ReorderedPanics`.) */
  method ReceivedReversed() returns (client: Connection, server: Connection)
    ensures fresh(client) && fresh(server) && client != server
    ensures client.timeouts == map[SeqNumber(0) := PACKET_TIMEOUT, SeqNumber(1) := PACKET_TIMEOUT]
    ensures client.timeoutTimer == TIMEOUT
    ensures server.localSeq == SeqNumber(0) && server.ack == SeqNumber(1)
    ensures server.ackBitfield == AckBitfield(0x8000_0000)
  {
    client := new Connection();
    server := new Connection();
    var msg0 := NewBoxed(0);
    client.FillHeader(msg0);
    var msg1 := NewBoxed(0);
    client.FillHeader(msg1);
    ReadFilled(msg0, SeqNumber(0), SeqNumber(0), AckBitfield(0), []);
    ReadFilled(msg1, SeqNumber(1), SeqNumber(0), AckBitfield(0), []);
    ReorderedHistory();
    var r1 := server.Check(msg1);
    var r0 := server.Check(msg0);
  }

  /** The reply's history frees both of the client's pending timers. */
  lemma ReplyFreesBoth()
    ensures map[SeqNumber(0) := PACKET_TIMEOUT, SeqNumber(1) := PACKET_TIMEOUT]
            - AckedFixed(SeqNumber(1), AckBitfield(0x8000_0000)) == map[]
  {
    var pending := map[SeqNumber(0) := PACKET_TIMEOUT, SeqNumber(1) := PACKET_TIMEOUT];
    forall x | x in pending
      ensures x in AckedFixed(SeqNumber(1), AckBitfield(0x8000_0000))
    {
      ReplyAcksBoth(x);
    }
  }

  /** After the reordering, the server's reply acknowledges both of the
      client's packets, so the client reports nothing lost. */
  method Reordered() returns (clientLost: seq<SeqNumber>)
    ensures clientLost == []
  {
    var client, server := ReceivedReversed();
    var reply := NewBoxed(0);
    server.FillHeader(reply);
    ReadFilled(reply, SeqNumber(0), SeqNumber(1), AckBitfield(0x8000_0000), []);
    ReplyFreesBoth();
    var r2 := client.Check(reply);
    assert client.timeouts == map[];

    clientLost := client.Update(WAIT);
    ReportOfNone(clientLost);
  }
}
