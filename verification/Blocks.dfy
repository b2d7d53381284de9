/** Powers of two, aligned runs of pages, and the two bit operations of the
    buddy allocator (flip one bit, clear the low bits), written bit by bit. */
module Blocks {

  function Pow2(k: nat): (r: nat)
    ensures r > 0
  {
    if k == 0 then 1 else 2 * Pow2(k - 1)
  }

  /** The low k bits of i are zero. */
  predicate Aligned(i: nat, k: nat) {
    k == 0 || (i % 2 == 0 && Aligned(i / 2, k - 1))
  }

  /** i ^ (1 << k) */
  function XorBit(i: nat, k: nat): nat {
    if k == 0 then (if i % 2 == 0 then i + 1 else i - 1)
    else 2 * XorBit(i / 2, k - 1) + i % 2
  }

  /** i & (~0 << k) */
  function ClearLow(i: nat, k: nat): nat {
    if k == 0 then i else 2 * ClearLow(i / 2, k - 1)
  }

  /** p lies in the run of 2^k pages that starts at i. */
  predicate InBlock(p: int, i: nat, k: nat) {
    i <= p < i + Pow2(k)
  }

  /** Two aligned runs that share a page are nested. */
  lemma {:induction false} Nested(a: nat, j: nat, b: nat, k: nat, p: nat)
    requires Aligned(a, j) && Aligned(b, k) && j <= k
    requires InBlock(p, a, j) && InBlock(p, b, k)
    ensures b <= a && a + Pow2(j) <= b + Pow2(k)
    ensures j == k ==> a == b
  {
    if j > 0 {
      Nested(a / 2, j - 1, b / 2, k - 1, p / 2);
    } else if k > 0 {
      assert InBlock(p, b, k);
    }
  }

  lemma {:induction false} AlignedDown(i: nat, j: nat, k: nat)
    requires Aligned(i, k) && j <= k
    ensures Aligned(i, j)
  {
    if j > 0 { AlignedDown(i / 2, j - 1, k - 1); }
  }

  lemma Doubled(m: nat, k: nat)
    ensures XorBit(2 * m, k + 1) == 2 * XorBit(m, k)
    ensures ClearLow(2 * m, k + 1) == 2 * ClearLow(m, k)
    ensures Aligned(2 * m, k + 1) == Aligned(m, k)
    ensures Pow2(k + 1) == 2 * Pow2(k)
  {
    assert (2 * m) / 2 == m && (2 * m) % 2 == 0;
  }

  /** The buddy of an aligned run is the other half of the run one order up. */
  lemma {:induction false} BuddyPair(i: nat, k: nat)
    requires Aligned(i, k)
    ensures var b, lo := XorBit(i, k), ClearLow(i, k + 1);
      && Aligned(b, k) && Aligned(lo, k + 1) && XorBit(b, k) == i
      && ((i == lo && b == lo + Pow2(k)) || (b == lo && i == lo + Pow2(k)))
  {
    if k > 0 {
      var m := i / 2;
      assert i == 2 * m && Aligned(m, k - 1);
      BuddyPair(m, k - 1);
      PairUp(m, k - 1);
    }
  }

  /** The statement about buddies, one bit up. */
  lemma PairUp(m: nat, k: nat)
    requires var b, lo := XorBit(m, k), ClearLow(m, k + 1);
      && Aligned(b, k) && Aligned(lo, k + 1) && XorBit(b, k) == m
      && ((m == lo && b == lo + Pow2(k)) || (b == lo && m == lo + Pow2(k)))
    ensures var i, b, lo := 2 * m, XorBit(2 * m, k + 1), ClearLow(2 * m, k + 2);
      && Aligned(b, k + 1) && Aligned(lo, k + 2) && XorBit(b, k + 1) == i
      && ((i == lo && b == lo + Pow2(k + 1)) || (b == lo && i == lo + Pow2(k + 1)))
  {
    hide XorBit, ClearLow, Aligned, Pow2;
    Doubled(m, k);
    Doubled(m, k + 1);
    Doubled(XorBit(m, k), k);
    Doubled(ClearLow(m, k + 1), k + 1);
  }

  /** The two halves of an aligned run are aligned and are each other's buddy. */
  lemma {:induction false} Halves(i: nat, k: nat)
    requires Aligned(i, k + 1)
    ensures Aligned(i, k) && Aligned(i + Pow2(k), k)
    ensures XorBit(i, k) == i + Pow2(k) && XorBit(i + Pow2(k), k) == i
  {
    AlignedDown(i, k, k + 1);
    AlignedIsClear(i, k + 1);
    BuddyPair(i, k);
  }

  lemma {:induction false} AlignedIsClear(i: nat, k: nat)
    requires Aligned(i, k)
    ensures ClearLow(i, k) == i
  {
    if k > 0 { AlignedIsClear(i / 2, k - 1); }
  }

  lemma {:induction false} Pow2Mono(j: nat, k: nat)
    requires j <= k
    ensures Pow2(j) <= Pow2(k)
  {
    if j < k { Pow2Mono(j, k - 1); }
  }

  lemma {:induction false} ClearTwice(i: nat, k: nat)
    ensures ClearLow(ClearLow(i, k), k + 1) == ClearLow(i, k + 1)
  {
    if k > 0 { ClearTwice(i / 2, k - 1); }
  }
}
