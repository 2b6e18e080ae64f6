/** A bitfield read as 32 booleans indexed by number, so that proofs about
    which numbers a header acknowledges can stay in integer arithmetic. */
module BitViews {
  import opened Octets
  import opened AckBitfields

  /** The reference sequence of a bitfield: bit `i` as entry `i`. */
  function View(bf: AckBitfield): (m: seq<bool>)
    ensures |m| == 32
  {
    seq(32, i requires 0 <= i < 32 => bf.Get(BitIndex(i)))
  }

  lemma ViewAt(bf: AckBitfield, i: bv8, k: int)
    requires i <= 31 && k == i as int
    ensures View(bf)[k] == bf.Get(i)
  {
    OctetRound(i);
    assert BitIndex(k) == i;
  }

  /** The reference sequence of a bitfield models it. */
  lemma {:induction false} ViewModels(bf: AckBitfield)
    ensures Models(View(bf), bf)
  {
    forall i: bv8 | i <= 31
      ensures View(bf)[i as int] == bf.Get(i)
    {
      ViewAt(bf, i, i as int);
    }
  }

  lemma GetAtIndex(m: seq<bool>, bf: AckBitfield, i: bv8, k: int)
    requires Models(m, bf) && i <= 31 && i as int == k
    ensures bf.Get(i) == m[k]
  {
  }

  /** Entry `k` of a reference sequence is the bit the integer index `k`
      names. */
  lemma GetAt(m: seq<bool>, bf: AckBitfield, k: int)
    requires Models(m, bf) && 0 <= k < 32
    ensures bf.Get(BitIndex(k)) == m[k]
  {
    GetAtIndex(m, bf, BitIndex(k), k);
  }
}
