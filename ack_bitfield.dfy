/** The 32-bit receive history of the reliable-UDP layer
    (src/network/ack_bitfield.rs): a `u32` with `set`, `get`, a
    window-advancing `shift` and a big-endian byte form. */
module AckBitfields {
  import opened Octets
  import opened BigEndian

  /** The one-bit mask `1 << index` of a bit position. */
  function Mask(index: bv8): (m: bv32)
    requires index <= 31
    ensures m != 0
  {
    (1 as bv32) << index
  }

  /** Bit `index` of `x`, read the textbook way (shift down, look at bit 0):
      the reference that `AckBitfield.Get` is checked against. */
  predicate IsSet(x: bv32, index: bv8)
    requires index <= 31
  {
    (x >> index) & 1 == 1
  }

  /** `AckBitfield(u32)`; its `Default` is `AckBitfield(0)`. Rust passes it by
      value (`Copy`), so the two `&mut self` operations `set` and `shift` are
      functions here that return the updated bitfield. */
  datatype AckBitfield = AckBitfield(bits: bv32) {

    /** `from_bytes`: its `expect` demands a slice of exactly four bytes. */
    static function FromBytes(buf: seq<byte>): AckBitfield
      requires |buf| == 4
    {
      AckBitfield(FromBeBytes(buf) as bv32)
    }

    function ToBytes(): (r: seq<byte>)
      ensures |r| == 4
    {
      BitsRound(bits);
      ToBeBytes(bits as int)
    }

    /** `set`: its `assert!` demands `index <= 31`. */
    function Set(index: bv8): AckBitfield
      requires index <= 31
    {
      AckBitfield(bits | Mask(index))
    }

    /** `get`: its `assert!` demands `index <= 31`. */
    function Get(index: bv8): bool
      requires index <= 31
    {
      bits & Mask(index) == Mask(index)
    }

    /** `shift`: drop one bit, set bit 31, then shift by `shifts - 1` more,
        where `checked_shr` gives 0 for a shift of 32 or more. The
        `checked_sub(1).expect(..)` demands `shifts >= 1`. */
    function Shift(shifts: u32): AckBitfield
      requires shifts >= 1
    {
      var once := AckBitfield(bits >> 1).Set(31);
      var rest := shifts - 1;
      AckBitfield(if rest < 32 then once.bits >> (rest as bv8) else 0)
    }
  }

  /* ---------------- byte form ---------------- */

  lemma FromToBytes(b: AckBitfield)
    ensures AckBitfield.FromBytes(b.ToBytes()) == b
  {
    FromToBeBytes(b.bits as int);
    BitsRound(b.bits);
  }

  /* ---------------- set and get ---------------- */

  lemma MasksDisjoint(i: bv8, j: bv8)
    requires i <= 31 && j <= 31 && i != j
    ensures Mask(i) & Mask(j) == 0
  {
  }

  lemma OrDisjointAnd(x: bv32, a: bv32, b: bv32)
    requires a & b == 0
    ensures (x | a) & b == x & b
  {
  }

  /** `set(i)` turns bit `i` on. */
  lemma SetGetSame(b: AckBitfield, i: bv8)
    requires i <= 31
    ensures b.Set(i).Get(i)
  {
  }

  /** `set(i)` leaves every other bit as it was. */
  lemma {:induction false} SetGetOther(b: AckBitfield, i: bv8, j: bv8)
    requires i <= 31 && j <= 31 && i != j
    ensures b.Set(i).Get(j) == b.Get(j)
  {
    MasksDisjoint(i, j);
    OrDisjointAnd(b.bits, Mask(i), Mask(j));
  }

  /** `get` reads the same bit as the shift-down-and-test reference. */
  lemma GetIsSet(b: AckBitfield, i: bv8)
    requires i <= 31
    ensures b.Get(i) == IsSet(b.bits, i)
  {
  }

  /** Setting a bit that is already set changes nothing; setting twice is
      setting once. */
  lemma SetIdempotent(b: AckBitfield, i: bv8)
    requires i <= 31
    ensures b.Get(i) ==> b.Set(i) == b
    ensures b.Set(i).Set(i) == b.Set(i)
  {
  }

  /* ---------------- shift ---------------- */

  lemma ShrOr(a: bv32, b: bv32, k: bv8)
    requires k < 32
    ensures (a | b) >> k == (a >> k) | (b >> k)
  {
  }

  lemma ShrShr(x: bv32, k: bv8)
    requires k < 32
    ensures (x >> 1) >> k == x >> (k + 1)
  {
  }

  lemma TopShr(k: bv8)
    requires k < 32
    ensures (0x8000_0000 as bv32) >> k == (1 as bv32) << (31 - k)
  {
  }

  /** The amount `shifts - 1` that `checked_shr` receives, as a bit vector. */
  lemma RestAmount(n: bv8)
    requires 1 <= n <= 32
    ensures ((n as int) - 1) as bv8 == n - 1
  {
  }

  /** `shift(n)` for `1 <= n <= 32`: bit 31 set after the first step, then
      a plain shift by `n - 1`. */
  lemma ShiftUnfold(b: AckBitfield, n: bv8)
    requires 1 <= n <= 32
    ensures b.Shift(n as int).bits == ((b.bits >> 1) | 0x8000_0000) >> (n - 1)
  {
    RestAmount(n);
    assert Mask(31) == 0x8000_0000;
  }

  /** For `1 <= n <= 32`, `shift(n)` is `(old >> n) | (1 << (32 - n))`. */
  lemma {:induction false} ShiftWithinWindow(b: AckBitfield, n: bv8)
    requires 1 <= n <= 32
    ensures b.Shift(n as int).bits == (b.bits >> n) | ((1 as bv32) << (32 - n))
  {
    var k := n - 1;
    ShiftUnfold(b, n);
    ShrOr(b.bits >> 1, 0x8000_0000, k);
    ShrShr(b.bits, k);
    TopShr(k);
    assert k + 1 == n && 31 - k == 32 - n;
  }

  /** For `n >= 33`, `shift(n)` clears every bit. */
  lemma ShiftBeyondWindow(b: AckBitfield, n: u32)
    requires n >= 33
    ensures b.Shift(n).bits == 0
    ensures forall i: bv8 :: i <= 31 ==> !b.Shift(n).Get(i)
  {
  }

  lemma ShrGet(x: bv32, n: bv8, k: bv8)
    requires n <= 32 && k <= 31 && k + n <= 31
    ensures ((x >> n) & Mask(k) == Mask(k)) == (x & Mask(k + n) == Mask(k + n))
  {
  }

  lemma ShrGetAbove(x: bv32, n: bv8, k: bv8)
    requires 1 <= n <= 32 && k <= 31 && k + n > 31
    ensures (x >> n) & Mask(k) == 0
  {
  }

  /** After `shift(n)` with `1 <= n <= 32`, bit `32 - n` is set (the test's
      `get(31 + 1 - shifts)`). */
  lemma {:induction false} ShiftSetsNewest(b: AckBitfield, n: bv8)
    requires 1 <= n <= 32
    ensures b.Shift(n as int).Get(32 - n)
  {
    ShiftWithinWindow(b, n);
  }

  /** After `shift(n)` with `1 <= n <= 32`, each bit `k < 32 - n` holds what
      bit `k + n` held before. */
  lemma {:induction false} ShiftAgesBit(b: AckBitfield, n: bv8, k: bv8)
    requires 1 <= n <= 32 && k <= 31 && k + n <= 31
    ensures b.Shift(n as int).Get(k) == b.Get(k + n)
  {
    ShiftWithinWindow(b, n);
    var top := 32 - n;
    MasksDisjoint(top, k);
    OrDisjointAnd(b.bits >> n, Mask(top), Mask(k));
    ShrGet(b.bits, n, k);
  }

  /** After `shift(n)` with `1 <= n <= 32`, every bit above `32 - n` is clear. */
  lemma {:induction false} ShiftClearsAbove(b: AckBitfield, n: bv8, k: bv8)
    requires 1 <= n <= 32 && k <= 31 && k > 32 - n
    ensures !b.Shift(n as int).Get(k)
  {
    ShiftWithinWindow(b, n);
    var top := 32 - n;
    MasksDisjoint(top, k);
    OrDisjointAnd(b.bits >> n, Mask(top), Mask(k));
    ShrGetAbove(b.bits, n, k);
  }

  /** After `shift(n)` with `1 <= n <= 32`, bit by bit: bit `32 - n` is
      set, each bit `k` below it holds the old bit `k + n`, and the bits
      above it are clear. */
  lemma {:induction false} ShiftBit(b: AckBitfield, n: bv8, k: bv8)
    requires 1 <= n <= 32 && k <= 31
    ensures b.Shift(n as int).Get(k) == (k == 32 - n || (k + n <= 31 && b.Get(k + n)))
  {
    if k == 32 - n {
      ShiftSetsNewest(b, n);
    } else if k + n <= 31 {
      ShiftAgesBit(b, n, k);
    } else {
      ShiftClearsAbove(b, n, k);
    }
  }

  /* ---------------- the test's reference model ---------------- */

  /** The reference the property test keeps beside the bitfield: one boolean
      per index 0..31, false for an index never set (the test's
      `HashMap<u8, bool>` read through `unwrap_or(false)`). */
  ghost predicate Models(m: seq<bool>, b: AckBitfield)
  {
    |m| == 32 && forall i: bv8 :: i <= 31 ==> m[i as int] == b.Get(i)
  }

  function RefSet(m: seq<bool>, i: bv8): (r: seq<bool>)
    requires |m| == 32 && i <= 31
    ensures |r| == 32
  {
    m[i as int := true]
  }

  /** The test's local `shift` over the map: every entry moves one index
      down, index 0 falls off and index 31 reads as false. */
  function RefShiftOnce(m: seq<bool>): (r: seq<bool>)
    requires |m| == 32
    ensures |r| == 32
  {
    m[1..] + [false]
  }

  function RefShiftTimes(m: seq<bool>, times: nat): (r: seq<bool>)
    requires |m| == 32
    ensures |r| == 32
    decreases times
  {
    if times == 0 then m else RefShiftTimes(RefShiftOnce(m), times - 1)
  }

  /** The test's model of `shift(shifts)`: shift once, set index 31, then
      shift `shifts - 1` more times. */
  function RefShift(m: seq<bool>, shifts: nat): (r: seq<bool>)
    requires |m| == 32 && shifts >= 1
    ensures |r| == 32
  {
    RefShiftTimes(RefSet(RefShiftOnce(m), 31), shifts - 1)
  }

  lemma {:induction false} RefShiftTimesAt(m: seq<bool>, times: nat, k: nat)
    requires |m| == 32 && k < 32
    ensures RefShiftTimes(m, times)[k] == (k + times < 32 && m[k + times])
    decreases times
  {
    if times > 0 {
      RefShiftTimesAt(RefShiftOnce(m), times - 1, k);
    }
  }

  /** The reference bit `k` after `shift(n)`, in closed form. */
  lemma {:induction false} RefShiftAt(m: seq<bool>, n: nat, k: nat)
    requires |m| == 32 && n >= 1 && k < 32
    ensures RefShift(m, n)[k] == (k + n == 32 || (k + n < 32 && m[k + n]))
  {
    RefShiftTimesAt(RefSet(RefShiftOnce(m), 31), n - 1, k);
  }

  /** The fresh bitfield and the empty reference map agree. */
  lemma ModelsDefault()
    ensures Models(seq(32, _ => false), AckBitfield(0))
  {
  }

  lemma IndexInjective(i: bv8, j: bv8)
    requires i <= 31 && j <= 31 && i != j
    ensures i as int != j as int
  {
  }

  lemma {:induction false} SetAgreesAt(m: seq<bool>, b: AckBitfield, i: bv8, j: bv8)
    requires Models(m, b) && i <= 31 && j <= 31
    ensures RefSet(m, i)[j as int] == b.Set(i).Get(j)
  {
    if j == i {
      SetGetSame(b, i);
    } else {
      IndexInjective(i, j);
      assert RefSet(m, i)[j as int] == m[j as int];
      SetGetOther(b, i, j);
    }
  }

  /** A `Set` action keeps the bitfield and the reference in step. */
  lemma {:induction false} SetAgrees(m: seq<bool>, b: AckBitfield, i: bv8)
    requires Models(m, b) && i <= 31
    ensures Models(RefSet(m, i), b.Set(i))
  {
    forall j: bv8 | j <= 31
      ensures RefSet(m, i)[j as int] == b.Set(i).Get(j)
    {
      SetAgreesAt(m, b, i, j);
    }
  }

  lemma IndexSum(k: bv8, n: bv8)
    requires k <= 31 && 1 <= n <= 32
    ensures (k + n) as int == k as int + n as int
    ensures (k == 32 - n) == (k as int + n as int == 32)
    ensures (k + n <= 31) == (k as int + n as int < 32)
  {
  }

  lemma {:induction false} ShiftAgreesAtNewest(m: seq<bool>, b: AckBitfield, n: bv8, k: bv8)
    requires Models(m, b) && 1 <= n <= 32 && k <= 31 && k == 32 - n
    ensures RefShift(m, n as int)[k as int] == b.Shift(n as int).Get(k)
  {
    RefShiftAt(m, n as int, k as int);
    IndexSum(k, n);
    ShiftSetsNewest(b, n);
  }

  lemma {:induction false} RefAgedAt(m: seq<bool>, n: bv8, k: bv8)
    requires |m| == 32 && 1 <= n <= 32 && k <= 31 && k + n <= 31
    ensures RefShift(m, n as int)[k as int] == m[k as int + n as int]
  {
    RefShiftAt(m, n as int, k as int);
    IndexSum(k, n);
  }

  lemma {:induction false} BitsAgedAt(m: seq<bool>, b: AckBitfield, n: bv8, k: bv8)
    requires Models(m, b) && 1 <= n <= 32 && k <= 31 && k + n <= 31
    ensures b.Shift(n as int).Get(k) == m[k as int + n as int]
  {
    IndexSum(k, n);
    ShiftAgesBit(b, n, k);
    assert m[(k + n) as int] == b.Get(k + n);
  }

  lemma {:induction false} ShiftAgreesAtAged(m: seq<bool>, b: AckBitfield, n: bv8, k: bv8)
    requires Models(m, b) && 1 <= n <= 32 && k <= 31 && k + n <= 31
    ensures RefShift(m, n as int)[k as int] == b.Shift(n as int).Get(k)
  {
    RefAgedAt(m, n, k);
    BitsAgedAt(m, b, n, k);
  }

  lemma {:induction false} ShiftAgreesAtAbove(m: seq<bool>, b: AckBitfield, n: bv8, k: bv8)
    requires Models(m, b) && 1 <= n <= 32 && k <= 31 && k > 32 - n
    ensures RefShift(m, n as int)[k as int] == b.Shift(n as int).Get(k)
  {
    RefShiftAt(m, n as int, k as int);
    IndexSum(k, n);
    ShiftClearsAbove(b, n, k);
  }

  lemma {:induction false} ShiftAgreesAtBeyond(m: seq<bool>, b: AckBitfield, n: u32, k: bv8)
    requires Models(m, b) && n >= 33 && k <= 31
    ensures RefShift(m, n)[k as int] == b.Shift(n).Get(k)
  {
    RefShiftAt(m, n, k as int);
    ShiftBeyondWindow(b, n);
  }

  /** A shift amount inside the window, as the bit vector the bit lemmas
      take. */
  lemma SmallAmount(n: u32) returns (t: bv8)
    requires 1 <= n <= 32
    ensures t as int == n && 1 <= t <= 32
  {
    t := n as bv8;
  }

  lemma {:induction false} ShiftAgreesAt(m: seq<bool>, b: AckBitfield, n: u32, k: bv8)
    requires Models(m, b) && n >= 1 && k <= 31
    ensures RefShift(m, n)[k as int] == b.Shift(n).Get(k)
  {
    if n >= 33 {
      ShiftAgreesAtBeyond(m, b, n, k);
    } else {
      var t := SmallAmount(n);
      if k == 32 - t {
        ShiftAgreesAtNewest(m, b, t, k);
      } else if k + t <= 31 {
        ShiftAgreesAtAged(m, b, t, k);
      } else {
        ShiftAgreesAtAbove(m, b, t, k);
      }
    }
  }

  /** A `Shift` action keeps the bitfield and the reference in step, for
      every shift amount the bitfield accepts. */
  lemma {:induction false} ShiftAgrees(m: seq<bool>, b: AckBitfield, n: u32)
    requires Models(m, b) && n >= 1
    ensures Models(RefShift(m, n), b.Shift(n))
  {
    forall k: bv8 | k <= 31
      ensures RefShift(m, n)[k as int] == b.Shift(n).Get(k)
    {
      ShiftAgreesAt(m, b, n, k);
    }
  }
}
