/** The view of a non-negative Integer (src/cryptlib/integer.cpp:1222-1228, 1354-1361) that the
    multiplication loops use: its bits, its length in bits, and its leading bits as a number. */
module Bits {

  /** p << n, without multiplying two variables */
  function Shl(p: nat, n: nat): (r: nat)
    ensures p > 0 ==> r >= p
    ensures p == 0 ==> r == 0
  {
    if n == 0 then p else 2 * Shl(p, n - 1)
  }

  function Pow2(n: nat): nat { Shl(1, n) }

  /** e >> i */
  function Shr(e: nat, i: nat): nat {
    if i == 0 then e else Shr(e, i - 1) / 2
  }

  function GetBit(e: nat, i: nat): (r: nat)
    ensures r <= 1
  {
    Shr(e, i) % 2
  }

  function BitCount(e: nat): nat {
    if e == 0 then 0 else 1 + BitCount(e / 2)
  }

  lemma {:induction false} ShlAdd(p: nat, q: nat, n: nat)
    ensures Shl(p + q, n) == Shl(p, n) + Shl(q, n)
  {
    if n != 0 { ShlAdd(p, q, n - 1); }
  }

  lemma ShlMonotone(p: nat, q: nat, n: nat)
    requires p <= q
    ensures Shl(p, n) <= Shl(q, n)
  {
    ShlAdd(p, q - p, n);
  }

  lemma {:induction false} ShlShl(p: nat, m: nat, n: nat)
    ensures Shl(Shl(p, m), n) == Shl(p, m + n)
  {
    if n != 0 { ShlShl(p, m, n - 1); }
  }

  /** Reading the bits from the top rebuilds the number one bit at a time. */
  lemma ShrStep(e: nat, i: nat)
    ensures Shr(e, i) == 2 * Shr(e, i + 1) + GetBit(e, i)
  {}

  lemma {:induction false} ShrHalf(e: nat, i: nat)
    ensures Shr(e, i + 1) == Shr(e / 2, i)
  {
    if i != 0 { ShrHalf(e, i - 1); }
  }

  /** Nothing lies above the bit count, and the top counted bit is one. */
  lemma {:induction false} ShrTop(e: nat)
    ensures forall i: nat :: i >= BitCount(e) ==> Shr(e, i) == 0
    ensures e > 0 ==> Shr(e, BitCount(e) - 1) == 1
  {
    if e == 0 {
      forall i: nat ensures Shr(0, i) == 0 { ShrZero(i); }
    } else {
      ShrTop(e / 2);
      forall i: nat | i >= BitCount(e) ensures Shr(e, i) == 0 {
        ShrHalf(e, i - 1);
      }
      if e / 2 > 0 { ShrHalf(e, BitCount(e) - 2); }
    }
  }

  lemma {:induction false} ShrZero(i: nat)
    ensures Shr(0, i) == 0
  {
    if i != 0 { ShrZero(i - 1); }
  }

  // The scan of an exponent from its top bit, shared by both windowed multiplications: the bits above
  // prevPosition form prefix, which the result stands for, and those from i on are pending in power.

  ghost predicate Scanning(i: nat, prevPosition: nat, firstTime: bool, expLen: nat) {
    if firstTime then 0 < i <= expLen == prevPosition + 1
    else i <= prevPosition < expLen && (i == 0 ==> prevPosition == 0)
  }

  ghost predicate Pending(e: nat, i: nat, prevPosition: nat, power: nat, firstTime: bool, prefix: nat) {
    if firstTime then i <= prevPosition + 1 && prefix == 0 && power == Shr(e, i) && power < Pow2(prevPosition + 1 - i)
    else i <= prevPosition && prefix == Shr(e, prevPosition) && power < Pow2(prevPosition - i)
         && Shr(e, i) == Shl(prefix, prevPosition - i) + power
  }

  lemma StartWindow(e: nat, expLen: nat)
    requires BitCount(e) <= expLen && expLen > 0
    ensures Pending(e, expLen, expLen - 1, 0, true, 0)
  {
    ShrTop(e);
  }

  lemma EndWindow(e: nat, prevPosition: nat, power: nat, prefix: nat)
    requires prevPosition == 0 && Pending(e, 0, prevPosition, power, false, prefix)
    ensures prefix == e
  {}

  /** Reading one more bit: the window fits its squarings, and shifting the prefix by the squarings
      and adding the window gives the longer prefix. */
  lemma NextBit(e: nat, i: nat, prevPosition: nat, power: nat, firstTime: bool, prefix: nat)
    requires Pending(e, i + 1, prevPosition, power, firstTime, prefix) && i <= prevPosition
    ensures 2 * power + GetBit(e, i) < Pow2(prevPosition - i + 1)
    ensures Shr(e, i) == Shl(prefix, prevPosition - i) + 2 * power + GetBit(e, i)
    ensures firstTime ==> prefix == 0
    ensures Pending(e, i, prevPosition, 2 * power + GetBit(e, i), firstTime, prefix)
    ensures Pending(e, i, i, 0, false, Shr(e, i))
  {
    ShrStep(e, i);
    assert Pow2(prevPosition - i + 1) == 2 * Pow2(prevPosition - i);
  }

  /** The first window starts at the top bit of the exponent, so it is not zero. */
  lemma {:induction false} FirstWindowNonZero(e: nat, i: nat)
    requires i < BitCount(e)
    ensures Shr(e, i) != 0
    decreases BitCount(e) - i
  {
    ShrTop(e);
    if i < BitCount(e) - 1 {
      FirstWindowNonZero(e, i + 1);
      ShrStep(e, i);
    }
  }
}
