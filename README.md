# battle-arena-2000: reliable UDP and entity store, modelled in Dafny

battle-arena-2000 is a small networked arena game written in Rust. This
project models two parts of its core.

**Reliable UDP layer** (`src/network/`). A reliability layer over UDP, in the
style of Glenn Fiedler's protocol:

- Every packet starts with a 16-byte header: the protocol id `[0, 1, 2, 3]`,
  the sender's sequence number, the newest sequence number it has received
  from the peer (`ack`), and a 32-bit history of the packets before that
  (`ack_bitfield`). All numbers are big-endian.
- A `Connection` stamps outgoing headers (`fill_header`) and starts a
  one-second timer for each sent packet.
- On each incoming packet (`check`), it:
  - refuses a wrong protocol id;
  - folds the packet's number into its own `ack` and history;
  - drops the timers of every sent packet the peer's header acknowledges;
  - resets a ten-second idle timer.
- `update(dt)` runs the timers down and reports the packets whose time ran
  out as lost.

**Entity store** (`src/entity_manager.rs`, `src/lib.rs`).

- The `EntityManager` hands out `u32` entity ids. It reuses removed ids
  before minting new ones, and iterates over the live ids in increasing
  order.
- The `ComponentManager` keeps one `Vec<Option<_>>` pool per component
  kind, indexed by entity id. Setting a component grows its pool on demand.

The model follows the code's own shape:

- Values become datatypes and functions: `SeqNumber`, `AckBitfield`, the
  byte codecs and the header accessors.
- Objects whose fields change in place become classes with `modifies`
  frames: `Connection`, `EntityManager`, `EntityIterator` and
  `ComponentManager`.
- The packet buffer is an `array<byte>`.
- Each loop of the source is a `while` loop with its invariants:
  - the header copy;
  - the acknowledgement scan in `check`;
  - the two loops of `update`.

Every class method is proved against a specification function, and the
properties are lemmas about those functions:

- the byte round trips;
- the bitfield's reference semantics as a 32-entry boolean sequence;
- which packets a header acknowledges;
- the connection's sliding window of 33 numbers;
- that the entity manager keeps exactly the live set;
- that the iterator yields it in increasing order;
- the read-after-write laws of the component pools.

Two-peer scenarios replay the connection tests of
`src/network/connection.rs`.

Integer widths are explicit:

- `u32` is a subset type of `int`, `wrapping_add` is written with `%`, and
  `checked_sub`/`checked_shr` become explicit branches.
- The bitfield is a `bv32`.
- A `Duration` is a `nat` count of nanoseconds.

## Model

| member | source | states |
|---|---|---|
| Octets.BitIndex | src/network/connection.rs:83 | the `index as u8` conversion used to read the history: for 0..31 the byte index is the number itself |
| BigEndian.FromToBeBytes | src/network/connection.rs:129-137 | decoding the big-endian bytes of a `u32` gives it back |
| BigEndian.ToFromBeBytes | src/network/connection.rs:129-137 | encoding a decoded 4-byte slice gives the slice back |
| BigEndian.ByteOrder | src/network/connection.rs:135-137 | the whole byte layout of `to_be_bytes`: byte `i` is digit `3-i` of the value in base 256, most significant first |
| BigEndian.BitsRound | src/network/ack_bitfield.rs:8-16 | the bitfield's 32 bits fit a `u32` and come back unchanged from it, so its byte form is `to_be_bytes` of its value |
| SeqNumbers.WrappingSub | src/network/connection.rs:147 | `wrapping_sub` is the difference modulo 2^32 |
| SeqNumbers.SeqNumber.Next | src/network/connection.rs:125-127 | the next number is one more, and `u32::MAX` wraps to 0 |
| SeqNumbers.NextWraps | src/network/connection.rs:125-127 | `SeqNumber(MAX).next()` is 0 |
| SeqNumbers.NextInjective | src/network/connection.rs:125-127 | different numbers have different successors, and no number is its own successor |
| SeqNumbers.FromToBytes | src/network/connection.rs:129-137 | `from_bytes(to_bytes(s)) == s` |
| SeqNumbers.ToFromBytes | src/network/connection.rs:129-137 | `to_bytes(from_bytes(b)) == b` for every 4-byte `b` |
| SeqNumbers.SeqNumber.DistanceTo | src/network/connection.rs:139-154 | defined exactly when `self >= rhs` numerically; the value is the shorter way round the circle and at most 2^31 |
| SeqNumbers.DistanceExamples | src/network/connection.rs:242-249 | distance of 0 to `MAX-3` is none; of `MAX-3` to 0 is 4 |
| SeqNumbers.DistanceToSelf | src/network/connection.rs:139-154 | a number is at distance 0 from itself |
| SeqNumbers.DistanceToNext | src/network/connection.rs:125-154 | the successor is at distance 1, except that `MAX`'s successor 0 has no distance to `MAX` |
| SeqNumbers.DistanceToNear | src/network/connection.rs:139-154 | within half the circle the distance is the plain difference, and the reverse direction is none |
| SeqNumbers.DistanceToFar | src/network/connection.rs:145-149 | beyond half the circle the distance is the wrapped difference, and the reverse direction is none |
| SeqNumbers.DistancePlusOne | src/network/connection.rs:60-62 | `shifts + 1` cannot overflow: it lies in 1..MAX |
| AckBitfields.FromToBytes | src/network/ack_bitfield.rs:8-16 | `from_bytes(to_bytes(b)) == b` |
| AckBitfields.SetGetSame | src/network/ack_bitfield.rs:18-29 | after `set(i)`, `get(i)` is true |
| AckBitfields.SetGetOther | src/network/ack_bitfield.rs:18-29 | `set(i)` leaves every other bit as it was |
| AckBitfields.GetIsSet | src/network/ack_bitfield.rs:23-29 | `get(i)` tests exactly bit `i` |
| AckBitfields.SetIdempotent | src/network/ack_bitfield.rs:18-21 | setting a set bit changes nothing; setting twice is setting once |
| AckBitfields.ShiftUnfold | src/network/ack_bitfield.rs:31-39 | for 1..32 shifts, `shift` is: drop one bit, set bit 31, shift right by the rest |
| AckBitfields.ShiftWithinWindow | src/network/ack_bitfield.rs:31-39 | for `n` in 1..32, `shift(n)` equals `bits >> n` with bit `32-n` set |
| AckBitfields.ShiftBeyondWindow | src/network/ack_bitfield.rs:31-39 | more than 32 shifts clear every bit |
| AckBitfields.ShiftSetsNewest | src/network/ack_bitfield.rs:124-126 | after `shift(n)` with `n <= 32`, bit `32-n` (`31 + 1 - n`) is set |
| AckBitfields.ShiftAgesBit | src/network/ack_bitfield.rs:31-39 | after `shift(n)`, bit `k` below `32-n` holds the old bit `k+n` |
| AckBitfields.ShiftBit | src/network/ack_bitfield.rs:31-39 | after `shift(n)` with `n` in 1..32, bit by bit: bit `32-n` is set, each bit `k` below it holds the old bit `k+n`, and the bits above it are clear |
| AckBitfields.ShiftClearsAbove | src/network/ack_bitfield.rs:31-39 | after `shift(n)`, every bit above `32-n` is clear |
| AckBitfields.RefShiftAt | src/network/ack_bitfield.rs:99-117 | entry `k` after `n` reference steps is true iff `k + n == 32`, or `k + n < 32` and the old entry `k + n` was true |
| AckBitfields.ModelsDefault | src/network/ack_bitfield.rs:84-85 | the default bitfield agrees with the all-false reference map |
| AckBitfields.SetAgrees | src/network/ack_bitfield.rs:89-94 | `set` keeps the bitfield in agreement with the reference model |
| AckBitfields.ShiftAgrees | src/network/ack_bitfield.rs:83-126 | `shift` keeps the bitfield in agreement with the reference model, for every shift amount |
| BitViews.ViewModels | src/network/ack_bitfield.rs:23-29 | every bitfield agrees with its own view |
| Packets.HeaderLen | src/network/mod.rs:81-88 | the header is 4 + 2*4 + 4 = 16 bytes |
| Packets.NewBoxed | src/network/mod.rs:33-39 | a fresh zeroed buffer of `payload_len + 16` bytes |
| Packets.SetHeader | src/network/mod.rs:124-146 | the header bytes become id, seq, ack, bitfield in that order; the payload is untouched |
| Packets.CopyInto | src/network/mod.rs:143 | `copy_from_slice` writes one part at `low` and nothing else |
| Packets.SetPayloadByte | src/network/mod.rs:73-78 | a payload write changes one payload byte and leaves the header alone |
| Packets.FlattenFour | src/network/mod.rs:135-145 | the four parts laid end to end are the header bytes of `HeaderBytes` |
| Packets.HeaderPayloadSplit | src/network/mod.rs:42-56 | a packet is its header followed by its payload |
| Packets.SetThenRead | src/network/mod.rs:91-146 | reading a written header gives back the protocol id, seq, ack and bitfield that were written |
| Packets.FillAndRead | src/network/mod.rs:91-146 | writing a header into a buffer and reading it back gives the same four fields |
| Packets.ZeroedProtocolId | src/network/connection.rs:56-58 | a zeroed header does not carry the protocol id, so `check` refuses it |
| AckStates.AckUpdateDefinedIff | src/network/connection.rs:60-71 | the `unwrap` and the `set` assertion in `check` both succeed iff the incoming number is not behind `ack`, or is strictly behind the local `seq` |
| AckStates.ReceiveAck | src/network/connection.rs:60-73 | the ack update as written: a newer number becomes `ack`, an older one leaves `ack` alone; `ack` never decreases |
| AckStates.ReceiveNewerHistory | src/network/connection.rs:60-62 | for a newer number the history is shifted by the distance plus one |
| AckStates.ReceiveNewerBits | src/network/connection.rs:60-62 | bit by bit, the history after a newer number `d` ahead, as written: for `d <= 31`, bit `31-d` is set, each bit `j` below it holds the old bit `j+d+1`, and the bits above it are clear; for `d >= 32` the history is 0 |
| AckStates.ReceiveOlderHistory | src/network/connection.rs:63-73 | for an older number, bit `32 - diff` is set when the distance from the local `seq` allows it, else nothing changes |
| AckStates.ReceiveOlderBits | src/network/connection.rs:63-73 | bit by bit, the history after an older number as written |
| AckStates.SetGet | src/network/ack_bitfield.rs:18-29 | bit `j` after `set(i)` is the old bit `j`, or `j == i` |
| AckStates.WindowLower | src/network/connection.rs:80 | `upper.checked_sub(32).unwrap_or(0)`: 32 below `upper`, or 0 near zero |
| AckStates.AckedFromNext | src/network/connection.rs:82-86 | one more step of the scan adds exactly that step's number, when its bit is set |
| AckStates.BitOffset | src/network/connection.rs:80-86 | corrected: the first bit the scan reads, 0 once `ack >= 32` and `32 - ack` below that, so that bit 31 always stands for `ack - 1` |
| AckStates.AckedFromMembers | src/network/connection.rs:82-86 | a number is dropped by the scan iff it lies in range and the bit at its offset is set |
| AckStates.AckedMembers | src/network/connection.rs:75-86 | as written, a number is acknowledged iff it is `ack` or it is in `[lower, ack)` with bit `x - lower` set |
| AckStates.AckedFixedMembers | src/network/connection.rs:75-86 | corrected: a number is acknowledged iff it is `ack` or it is in `[ack-32, ack)` with bit `x - ack + 32` set |
| AckStates.ReadingsAgree | src/network/connection.rs:80-86 | from `ack >= 32` on, the reading as written and the corrected reading coincide |
| AckStates.AckedZero | src/network/connection.rs:75-86 | an empty history acknowledges only `ack`, both in the reading as written (`Acked`) and in the corrected one (`AckedFixed`) |
| AckWindows.ShiftMisaligns | src/network/connection.rs:60-62 | finding: after 99, receiving 100 shifts by 2, so the old `ack` 99 lands on bit 30 and is read back as 98 |
| AckWindows.ReorderedPanics | src/network/connection.rs:63-71 | finding: after 1, receiving 0 with local `seq` 0 is outside the update's domain: the distance is 0 and `set(32)` fails its assertion |
| AckWindows.NearZeroMisread | src/network/connection.rs:60-86 | finding: with `ack` 20 the written bit 12 stands for packet 0, but the reader drops packet 12 |
| AckWindows.ReceiveAckFixed | src/network/connection.rs:60-73 | corrected ack update: a newer number becomes `ack`, an older one leaves `ack` alone |
| AckWindows.AckedVia | src/network/connection.rs:75-86 | corrected: the reading, stated on the reference model of the bitfield |
| AckWindows.ShiftedReading | src/network/ack_bitfield.rs:31-39 | after moving `ack` forward by `d` with a `d`-step shift, the numbers read are the old ones, plus the old `ack`, within the new window |
| AckWindows.SetReading | src/network/ack_bitfield.rs:18-21 | setting bit `32 - diff` adds exactly `ack - diff` to the numbers read |
| AckWindows.NewerNearWindow | src/network/connection.rs:60-62 | corrected: a newer number within 32: the new window holds the old acknowledged numbers that still fit, plus the new one |
| AckWindows.NewerFarWindow | src/network/connection.rs:60-62 | corrected: a newer number more than 32 ahead: only the new number is acknowledged |
| AckWindows.OlderNearWindow | src/network/connection.rs:63-72 | corrected: an older number within 32 is added to the acknowledged set |
| AckWindows.OlderFarWindow | src/network/connection.rs:68-72 | corrected: an older number beyond 32 is too old to record, and nothing changes |
| AckWindows.SameWindow | src/network/connection.rs:60-62 | corrected: a repeated `ack` changes nothing that is read |
| AckWindows.FixedKeepsWindow | src/network/connection.rs:60-86 | corrected: the main window invariant: after receiving `s`, the numbers acknowledged are exactly the old ones plus `s`, within the 33-number window ending at the new `ack` |
| Connections.AgedPartition | src/network/connection.rs:107-118 | every pending timer is either run down by `dt` and kept, or expired and dropped |
| Connections.AgedKeys | src/network/connection.rs:107-118 | the kept packets are the pending ones minus the expired ones |
| Connections.TickedThenDropped | src/network/connection.rs:107-118 | running every timer down, then removing the reported ones, leaves the kept timers |
| Connections.ForgetStep | src/network/connection.rs:82-86 | one step of the acknowledgement scan removes exactly that step's number, when its bit is set |
| Connections.Scan | src/network/connection.rs:75-86 | the loop over `lower..upper`: the pending timers minus the peer's `ack` and every `lower + i` whose bit `offset + i` is set |
| Connections.ForgetAsWritten | src/network/connection.rs:75-86 | as written: the pending timers minus every packet `Acked` names |
| Connections.Forget | src/network/connection.rs:75-86 | corrected: the pending timers minus every packet the peer's header acknowledges |
| Connections.RunDown | src/network/connection.rs:104-115 | every timer is run down by `dt`; the expired ones are reported once each |
| Connections.DropAll | src/network/connection.rs:116-118 | the reported packets are removed from the timers |
| Connections.Connection.constructor | src/network/connection.rs:44-52 | ten-second idle timer, numbers at 0, empty history, no pending packets |
| Connections.Connection.Check | src/network/connection.rs:54-91 | corrected: a wrong protocol id is an error that changes nothing; otherwise the ack state is updated, acknowledged timers are dropped and the idle timer is reset |
| Connections.Connection.CheckAsWritten | src/network/connection.rs:54-91 | as written, on the inputs where it does not panic: a wrong protocol id changes nothing; otherwise the ack state follows `ReceiveAck`, the timers `Acked` names are dropped and the idle timer is reset |
| Connections.Connection.FillHeader | src/network/connection.rs:93-99 | the header carries `seq`, `ack` and the history; a one-second timer starts for `seq`; `seq` advances |
| Connections.Connection.Update | src/network/connection.rs:101-121 | within the idle timer: run down, report the expired packets once each, and keep the rest; otherwise report nothing |
| ConnectionScenarios.ReadFilled | src/network/connection.rs:180-186 | a receiver reads back the header a sender filled |
| ConnectionScenarios.DistinctCount | src/network/connection.rs:198 | a report without duplicates has as many entries as elements |
| ConnectionScenarios.ClientOpens | src/network/connection.rs:177-182 | corrected: the full state of both peers after the client's first packet; the server's history stays 0 |
| ConnectionScenarios.OneRoundTrip | src/network/connection.rs:176-200 | corrected: `test_connection_one_roundtrip`: the client loses nothing; the server loses exactly its packet 0 |
| ConnectionScenarios.SkipOne | src/network/connection.rs:202-230 | corrected: `test_connection_skip_one`: the client loses nothing; the server loses its packets 0 and 1 |
| ConnectionScenarios.FirstReceiveAsWritten | src/network/connection.rs:60-62 | as written, a fresh connection receiving 0 shifts its history once, setting bit 31 |
| ConnectionScenarios.ClientOpensAsWritten | src/network/connection.rs:177-182 | as written: the same states, except that the server's history is `0x8000_0000` |
| ConnectionScenarios.OneRoundTripAsWritten | src/network/connection.rs:176-200 | `test_connection_one_roundtrip` on `check` as written: the client loses nothing and the server loses exactly its 0 |
| ConnectionScenarios.SkipOneExchangeAsWritten | src/network/connection.rs:203-216 | `test_connection_skip_one` on `check` as written, up to the client's receipt of 1: the client holds no timers; the server holds timers for 0 and 1 |
| ConnectionScenarios.SkipOneAsWritten | src/network/connection.rs:202-230 | `test_connection_skip_one` on `check` as written: the client loses nothing and the server loses its 0 and 1 |
| ConnectionScenarios.IdleTooLong | src/network/connection.rs:232-240 | `test_connection_timed_out`: past the idle timer nothing changes and nothing is reported |
| ConnectionScenarios.ReorderedHistory | src/network/connection.rs:60-73 | with the corrected update, receiving 1 then 0, or 0 then 1, leaves `ack` 1 with bit 31 set |
| ConnectionScenarios.ReplyAcksBoth | src/network/connection.rs:75-86 | corrected: a reply with `ack` 1 and bit 31 acknowledges exactly 0 and 1 |
| ConnectionScenarios.ReceivedReversed | src/network/connection.rs:54-99 | corrected: two packets received in reverse order leave the server at `ack` 1 with bit 31 set |
| ConnectionScenarios.Reordered | src/network/connection.rs:54-121 | corrected: after a reordered exchange, the client loses nothing |
| EntityManagers.NoIdsLive | src/entity_manager.rs:16-21 | a new manager is tidy and holds no live id |
| EntityManagers.AllocatesLive | src/entity_manager.rs:23-34 | the handed-out id was not live and becomes live; nothing else changes; tidiness is kept |
| EntityManagers.AllocatesFromNone | src/entity_manager.rs:28-33 | with nothing deleted, the id handed out is `next` and `next` grows by one |
| EntityManagers.RemovedAsWrittenLive | src/entity_manager.rs:36-49 | as written, removal takes away exactly the id, but leaves a deleted id at `next` when the last id was already deleted |
| EntityManagers.RemovalsAgree | src/entity_manager.rs:40-42 | the written and the corrected removal differ exactly when the last id was already deleted |
| EntityManagers.ReuseAfterDoubleRemove | src/entity_manager.rs:23-49 | finding: allocate 0 and 1, remove 0, 1 and 0 again, allocate: 0 is handed out but is not among the live ids |
| EntityManagers.RemovedLive | src/entity_manager.rs:36-49 | removal takes away exactly the id and keeps the manager tidy |
| EntityManagers.ReuseAfterDoubleRemoveFixed | src/entity_manager.rs:23-49 | corrected: the same sequence ends with exactly 0 live |
| EntityManagers.YieldsMembers | src/entity_manager.rs:62-75 | the iterator from `current` yields exactly the undeleted ids in `[current, upper)` |
| EntityManagers.YieldsIncreasing | src/entity_manager.rs:62-75 | the iterator yields ids in strictly increasing order |
| EntityManagers.IterYieldsLive | src/entity_manager.rs:99-126 | a full iteration yields exactly the live ids in increasing order, as the iterator property test expects |
| EntityManagers.EntityIterator.constructor | src/entity_manager.rs:51-57 | an iterator starts at 0 with the manager's `next` and deleted set |
| EntityManagers.EntityIterator.Next | src/entity_manager.rs:62-75 | returns the first remaining yield and advances past it, or returns none at the end |
| EntityManagers.EntityManager.constructor | src/entity_manager.rs:16-21 | an empty manager |
| EntityManagers.EntityManager.NextEntity | src/entity_manager.rs:23-34 | a deleted id is reused when there is one, else `next` is minted; the live set grows by exactly that id |
| EntityManagers.EntityManager.RemoveEntity | src/entity_manager.rs:36-49 | corrected: the new state is `Removed`; the live set loses exactly that id |
| EntityManagers.EntityManager.RemoveEntityAsWritten | src/entity_manager.rs:36-49 | as written: the new state is `RemovedAsWritten`; the live set loses exactly that id, and the manager stays tidy unless the last id was already deleted |
| EntityManagers.DoubleRemoveAsWritten | src/entity_manager.rs:23-49 | on the class as written: new, new, remove 0, 1, 0, new hands out 0 while the live set is empty |
| EntityManagers.EntityManager.Iter | src/entity_manager.rs:51-57 | the new iterator yields exactly the live ids, increasing |
| ComponentManagers.GetComponent | src/lib.rs:288-295 | some component iff the id is inside the pool and its slot is filled; then it is that slot |
| ComponentManagers.Resized | src/lib.rs:302 | `Vec::resize`: the new length, the old entries kept, the new ones filled |
| ComponentManagers.SetComponent | src/lib.rs:297-305 | the slot holds the component, the pool grows to the id if needed, every other slot is unchanged |
| ComponentManagers.UpdateComponent | src/lib.rs:370-381 | a filled slot is transformed by `f`; an empty or out-of-range one is left alone |
| ComponentManagers.ClearComponent | src/lib.rs:431-434 | the slot is emptied if it exists; nothing else changes |
| ComponentManagers.GetAfterSet | src/lib.rs:288-305 | read after write: the set entity reads the component, other entities read as before |
| ComponentManagers.SetTwice | src/lib.rs:297-305 | the second set wins |
| ComponentManagers.SetGrows | src/lib.rs:297-305 | the pool never shrinks, covers the id afterwards, and grows only to exactly `id + 1` |
| ComponentManagers.GetAfterUpdate | src/lib.rs:370-381 | an update maps the read through `f`, leaves an absent component absent, and other entities alone |
| ComponentManagers.GetAfterClear | src/lib.rs:431-434 | after clearing, the entity reads none, and other entities read as before |
| ComponentManagers.ClearThenSet | src/lib.rs:297-305 | clear then set reads the new component; other entities unaffected |
| ComponentManagers.ComponentManager.constructor | src/lib.rs:274-286 | all eight pools empty |
| ComponentManagers.ComponentManager.SetRenderComponent | src/lib.rs:307-309 | sets in the render pool only |
| ComponentManagers.ComponentManager.SetPositionComponent | src/lib.rs:311-313 | sets in the position pool only |
| ComponentManagers.ComponentManager.SetBodyComponent | src/lib.rs:315-317 | sets in the body pool only |
| ComponentManagers.ComponentManager.SetCollisionComponent | src/lib.rs:319-321 | sets in the collision pool only |
| ComponentManagers.ComponentManager.SetBulletComponent | src/lib.rs:323-325 | sets in the bullet pool only |
| ComponentManagers.ComponentManager.SetOrientationComponent | src/lib.rs:327-329 | sets in the orientation pool only |
| ComponentManagers.ComponentManager.SetHealthComponent | src/lib.rs:331-333 | sets in the health pool only |
| ComponentManagers.ComponentManager.SetOffArenaDebuffComponent | src/lib.rs:335-341 | sets in the off-arena pool only |
| ComponentManagers.ComponentManager.GetPositionComponent | src/lib.rs:343-345 | the position read, present iff its slot is filled |
| ComponentManagers.ComponentManager.GetOrientationComponent | src/lib.rs:347-349 | the orientation read, present iff its slot is filled |
| ComponentManagers.ComponentManager.GetBodyComponent | src/lib.rs:351-353 | the body read, present iff its slot is filled |
| ComponentManagers.ComponentManager.GetBulletComponent | src/lib.rs:355-357 | the bullet read, present iff its slot is filled |
| ComponentManagers.ComponentManager.GetHealthComponent | src/lib.rs:359-361 | the health read, present iff its slot is filled |
| ComponentManagers.ComponentManager.GetOffArenaDebuffComponent | src/lib.rs:363-368 | the off-arena read, present iff its slot is filled |
| ComponentManagers.ComponentManager.UpdatePositionComponent | src/lib.rs:370-381 | transforms a present position only; other pools unchanged |
| ComponentManagers.ComponentManager.UpdateBodyComponent | src/lib.rs:383-390 | transforms a present body only; other pools unchanged |
| ComponentManagers.ComponentManager.UpdateOrientationComponent | src/lib.rs:392-403 | transforms a present orientation only; other pools unchanged |
| ComponentManagers.ComponentManager.UpdateHealthComponent | src/lib.rs:405-416 | transforms a present health only; other pools unchanged |
| ComponentManagers.ComponentManager.UpdateOffArenaDebuffComponent | src/lib.rs:418-429 | transforms a present off-arena debuff only; other pools unchanged |
| ComponentManagers.ComponentManager.RemoveEntity | src/lib.rs:431-453 | empties the entity's slot in seven pools; the orientation pool is not touched |
| ComponentManagers.RemoveKeepsOrientation | src/lib.rs:431-453 | a removed entity still reads its orientation, while its position reads none |

## Left out

- Sockets, the async tasks and channels of `src/network/client.rs` and the
  servers, and `MAX_PACKET_SIZE`. They are I/O or concurrency.
- The `Io` and `ChannelSendError` variants of `NetworkError`. Only
  `check` produces an error here, and it only produces `InvalidProtocolId`.
- The `debug!` and `dbg!` logging calls, which have no effect on state.
- `header_mut` and `payload_mut`, which lend mutable views of the buffer.
  The model writes to the `array<byte>` directly through `SetHeader` and
  `SetPayloadByte`.
- `Packet<B>` for a generic buffer `B`. Only `Box<[u8]>` is modelled, as
  an array.
- `HashMap` and `HashSet` iteration order:
  - `update` reports timed-out packets in an order the model leaves open;
  - `next_entity` takes an arbitrary deleted id (`:|`);
  - `check` removes keys in an order that cannot matter.
- `AckBitfield.Set` and `AckBitfield.Shift` take `&mut self` in the source.
  The type is `Copy`, so they are modelled as functions returning the new
  value.
- Connections.Connection.Check: uses the corrected ack update and
  history reader (`ReceiveAckFixed`, `AckedFixed`), not lines 60-86 as
  written. The code as written is `Connections.Connection.CheckAsWritten`,
  built on `ReceiveAck` and `Acked`. The window lemmas of `AckWindows`
  hold for the corrected forms only, and "## Findings" compares the two.
  The `...AsWritten` scenarios replay `test_connection_one_roundtrip` and
  `test_connection_skip_one` on `CheckAsWritten`, and they reach the same
  verdicts as on the corrected `Check`.
- EntityManagers.EntityManager.RemoveEntity: implements the corrected
  removal, which also drops the id from `deleted` when `next` is lowered
  onto it. The code as written is
  `EntityManagers.EntityManager.RemoveEntityAsWritten`, which keeps
  tidiness only outside that case.
- AckWindows.FixedKeepsWindow: proved only while `ack` and the incoming
  number are less than half the circle apart. Across the 2^32 wrap the
  window reading of `check` is not circular in the source either.
- EntityManagers.EntityManager.NextEntity: requires that a new id exists,
  meaning a deleted id or `next < u32::MAX`. The source's `self.next += 1`
  overflows past `u32::MAX`, which panics in debug builds and wraps in
  release builds.
- `EntityIterator` holds a borrowed `&HashSet`. The model copies the set
  by value, which is the same thing while the borrow lives.
- The `entity_manager_iterator` test's `delete_entity` does not exist on
  `EntityManager`. The test is read as calling `remove_entity`, and the
  test-only ignored test is left out.
- The tests' `.unwrap()` on `update`'s `Vec` result and `is_none()` in
  `test_connection_timed_out` do not type-check against the code. The
  scenarios state what the code returns instead: the report and the
  connection's state.
- Component types such as `PositionComponent` and their `f32` contents
  are type parameters. The `FnMut(&mut T)` callbacks of the `update_*`
  methods are pure functions `T -> T`: there are no side effects beyond
  the slot.
- The `usize` conversion of entity ids (`try_into().unwrap()`) cannot fail
  for a `u32` on the supported targets, and is left out.
- Everything else in `src/lib.rs`: the systems, graphics, physics,
  arena, the game loop and the message types. None of it is part of this
  model.

## Findings

| source | as written | input that shows it | evidently intended | confidence | as-written member | corrected member |
|---|---|---|---|---|---|---|
| src/entity_manager.rs:40-42 | removing the last id lowers `next` to it but leaves ids at or above the new `next` in `deleted` | new, new (0, 1); remove 0; remove 1; remove 0 (as the iterator property test may); new: it hands out 0, but `next` is 0 so the iterator never yields it, and the next `new` hands out 0 again | lowering `next` also forgets that id from `deleted`, so each live id is handed out once | not executed | EntityManagers.ReuseAfterDoubleRemove | EntityManagers.ReuseAfterDoubleRemoveFixed |
| src/network/connection.rs:66-71 | for an older packet the code measures `self.seq.distance_to(packet seq)` from the LOCAL sequence number and unwraps it, and sets bit `32 - diff`, which is 32 when `diff` is 0 | a fresh connection (local seq 0) receives 1, then 0: `diff` is 0 and `set(32)` fails its `assert!`; with a local seq below the incoming number the `unwrap` panics instead | measure from `ack`, and record only `1 <= diff <= 32`, with bit `32 - diff` | not executed | AckWindows.ReorderedPanics | AckWindows.ReceiveAckFixed |
| src/network/connection.rs:62 | a newer packet shifts the history by `distance + 1`, so the old `ack` is recorded one bit too low | `ack` 99, receive 100: bit 30 is set, which the reader takes for 98, and 99 is not acknowledged | shift by `distance`, so that bit `32 - d` stands for `ack - d` | not executed | AckWindows.ShiftMisaligns | AckWindows.FixedKeepsWindow |
| src/network/connection.rs:80-86 | below 32 the scan reads bit `i` as number `i`, while the writer meant bit `i` as `ack - 32 + i` | peer `ack` 20 with bit 12 set (it received 0): the receiver drops the timer of 12 and keeps 0's timer running | read bit `i` as `ack - 32 + i`, skipping the numbers below zero | not executed | AckWindows.NearZeroMisread | AckStates.AckedFixedMembers |
