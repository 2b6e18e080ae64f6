/** `SeqNumber` of src/network/connection.rs: a wrapping 32-bit packet
    counter with a big-endian byte form and a circular `distance_to`. */
module SeqNumbers {
  import opened Octets
  import opened BigEndian
  import opened Wrappers

  const MAX: u32 := 0xFFFF_FFFF

  /** `u32::MAX / 2`, the bound `distance_to` compares against. */
  const HALF: u32 := 0x7FFF_FFFF

  /** The number of `u32` values. */
  const MODULUS: int := 0x1_0000_0000

  /** `u32::wrapping_sub`. */
  function WrappingSub(a: u32, b: u32): (r: u32)
    ensures a >= b ==> r == a - b
    ensures a < b ==> r == a + MODULUS - b
  {
    (a - b) % MODULUS
  }

  /** `SeqNumber(u32)`; its `Default` is `SeqNumber(0)`. */
  datatype SeqNumber = SeqNumber(n: u32) {

    /** `next`: `wrapping_add(1)`. */
    function Next(): (r: SeqNumber)
      ensures n < MAX ==> r.n == n + 1
      ensures n == MAX ==> r.n == 0
    {
      SeqNumber((n + 1) % MODULUS)
    }

    /** `from_bytes`: its `expect` demands exactly four bytes. */
    static function FromBytes(b: seq<byte>): SeqNumber
      requires |b| == 4
    {
      SeqNumber(FromBeBytes(b))
    }

    function ToBytes(): (r: seq<byte>)
      ensures |r| == 4
    {
      ToBeBytes(n)
    }

    /** `distance_to`: `abs_dist` is the numeric difference; beyond
        `u32::MAX / 2` the wrapped difference `rhs - self` is returned when
        `rhs < self`, and otherwise `checked_sub` decides. */
    function DistanceTo(rhs: SeqNumber): (r: Option<u32>)
      // defined exactly when self is numerically at least rhs
      ensures r.Some? <==> n >= rhs.n
      // then it is the shorter of the two ways round the circle
      ensures r.Some? ==> r.value == n - rhs.n || r.value == MODULUS - (n - rhs.n)
      ensures r.Some? ==> r.value <= n - rhs.n && r.value <= MODULUS - (n - rhs.n)
      ensures r.Some? ==> r.value <= HALF + 1
    {
      var absDist := if n >= rhs.n then n - rhs.n else rhs.n - n;
      if absDist > HALF then
        if rhs.n < n then Some(WrappingSub(rhs.n, n)) else None
      else
        if n >= rhs.n then Some(n - rhs.n) else None
    }
  }

  /** `next` wraps from `u32::MAX` to zero. */
  lemma NextWraps()
    ensures SeqNumber(MAX).Next() == SeqNumber(0)
  {
  }

  /** `next` is a bijection: distinct numbers have distinct successors, and
      the successor is never the number itself. */
  lemma NextInjective(a: SeqNumber, b: SeqNumber)
    ensures a != b ==> a.Next() != b.Next()
    ensures a.Next() != a
  {
  }

  /** Decoding the big-endian bytes of a number gives it back. */
  lemma {:induction false} FromToBytes(s: SeqNumber)
    ensures SeqNumber.FromBytes(s.ToBytes()) == s
  {
    FromToBeBytes(s.n);
  }

  /** Encoding the number four bytes decode to gives the bytes back. */
  lemma {:induction false} ToFromBytes(b: seq<byte>)
    requires |b| == 4
    ensures SeqNumber.FromBytes(b).ToBytes() == b
  {
    ToFromBeBytes(b);
  }

  /** The values of `test_seq_number_distance`. */
  lemma DistanceExamples()
    ensures SeqNumber(0).DistanceTo(SeqNumber(MAX - 3)) == None
    ensures SeqNumber(MAX - 3).DistanceTo(SeqNumber(0)) == Some(4)
  {
  }

  /** A number is at distance zero from itself. */
  lemma DistanceToSelf(s: SeqNumber)
    ensures s.DistanceTo(s) == Some(0)
  {
  }

  /** The successor is one step ahead, except across the wrap, where the
      numeric comparison inside `distance_to` refuses it. */
  lemma DistanceToNext(s: SeqNumber)
    ensures s.Next().DistanceTo(s) == (if s.n == MAX then None else Some(1))
  {
  }

  /** Numbers at most `u32::MAX / 2` apart are at their plain difference,
      the one case in which `distance_to` follows the circular order. */
  lemma DistanceToNear(a: SeqNumber, b: SeqNumber)
    requires b.n <= a.n <= b.n + HALF
    ensures a.DistanceTo(b) == Some(a.n - b.n)
    ensures a != b ==> b.DistanceTo(a) == None
  {
  }

  /** Far apart, the answer is the way round the wrap: the number that is
      numerically larger is treated as the one behind. */
  lemma DistanceToFar(a: SeqNumber, b: SeqNumber)
    requires a.n > b.n + HALF
    ensures a.DistanceTo(b) == Some(MODULUS - (a.n - b.n))
    ensures b.DistanceTo(a) == None
  {
  }

  /** A defined distance plus one is still a `u32` and at least one, so the
      `shifts + 1` of `Connection::check` neither overflows nor hits the
      `shifts >= 1` demand of `AckBitfield::shift`. */
  lemma DistancePlusOne(a: SeqNumber, b: SeqNumber)
    requires a.DistanceTo(b).Some?
    ensures 1 <= a.DistanceTo(b).value + 1 <= MAX
  {
  }
}
