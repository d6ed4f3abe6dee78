/** What the checksum of src/core/crc32.cpp detects: every change confined to 32 consecutive bits. */
module CrcBursts {
  import opened PolynomialDivision
  import opened Crc32

  // ---- the division, one bit of the message at a time ----

  function Bit(on: bool): bv32 { if on then 0x80000000 else 0 }

  function Next(s: bv32, on: bool): bv32 { Step(Xor(s, Bit(on))) }

  ghost function RunBits(s: bv32, bits: seq<bool>): bv32
    decreases |bits|
  {
    if bits == [] then s else RunBits(Next(s, bits[0]), bits[1..])
  }

  predicate FirstBit(b: bv8) { b & 0x80 != 0 }

  /** The first n bits of a byte, most significant first */
  function Bits(b: bv8, n: nat): (bits: seq<bool>)
    ensures |bits| == n
    decreases n
  {
    if n == 0 then [] else [FirstBit(b)] + Bits(Rest(b), n - 1)
  }

  function MessageBits(message: seq<bv8>): (bits: seq<bool>)
    ensures |bits| == 8 * |message|
  {
    if message == [] then [] else Bits(message[0], 8) + MessageBits(message[1..])
  }

  lemma {:induction false} RunConcat(s: bv32, a: seq<bool>, b: seq<bool>)
    ensures RunBits(s, a + b) == RunBits(RunBits(s, a), b)
    decreases |a|
  {
    hide Next;
    if a == [] {
      assert a + b == b;
    } else {
      assert (a + b)[1..] == a[1..] + b;
      RunConcat(Next(s, a[0]), a[1..], b);
    }
  }

  lemma TopBitIsBit(b: bv8)
    ensures TopBit(b) == Bit(FirstBit(b))
  {}

  lemma {:induction false} DivideByteIsRun(s: bv32, b: bv8, n: nat)
    ensures DivideByte(s, b, n) == RunBits(s, Bits(b, n))
    decreases n
  {
    hide Step, Xor, TopBit, Bit, FirstBit, Rest;
    if n > 0 {
      TopBitIsBit(b);
      DivideByteIsRun(Next(s, FirstBit(b)), Rest(b), n - 1);
      assert Bits(b, n)[1..] == Bits(Rest(b), n - 1);
    }
  }

  lemma {:induction false} DivideIsRun(s: bv32, message: seq<bv8>)
    ensures Divide(s, message) == RunBits(s, MessageBits(message))
    decreases |message|
  {
    hide DivideByte, RunBits, Bits;
    if message == [] {
      RunNothing(s);
    } else {
      DivideByteIsRun(s, message[0], 8);
      DivideIsRun(DivideByte(s, message[0], 8), message[1..]);
      RunConcat(s, Bits(message[0], 8), MessageBits(message[1..]));
    }
  }

  lemma RunNothing(s: bv32)
    ensures RunBits(s, []) == s
  {}

  lemma {:induction false} MessageBitsConcat(a: seq<bv8>, b: seq<bv8>)
    ensures MessageBits(a + b) == MessageBits(a) + MessageBits(b)
  {
    hide Bits;
    if a == [] {
      assert a + b == b;
    } else {
      assert (a + b)[1..] == a[1..] + b;
      MessageBitsConcat(a[1..], b);
    }
  }

  // ---- bits determine the message ----

  lemma FirstOfBits(a: bv8, b: bv8, n: nat)
    requires Bits(a, n + 1) == Bits(b, n + 1)
    ensures FirstBit(a) == FirstBit(b) && Bits(Rest(a), n) == Bits(Rest(b), n)
  {
    hide FirstBit, Rest;
    var x, y := Bits(a, n + 1), Bits(b, n + 1);
    assert x[0] == FirstBit(a) && y[0] == FirstBit(b);
    assert x[1..] == Bits(Rest(a), n) && y[1..] == Bits(Rest(b), n);
  }

  lemma SameNibble(a: bv8, b: bv8)
    requires FirstBit(a) == FirstBit(b) && FirstBit(Rest(a)) == FirstBit(Rest(b))
    requires FirstBit(Rest(Rest(a))) == FirstBit(Rest(Rest(b)))
    requires FirstBit(Rest(Rest(Rest(a)))) == FirstBit(Rest(Rest(Rest(b))))
    ensures a >> 4 == b >> 4
  {}

  lemma FourOfBits(a: bv8, b: bv8, n: nat)
    requires Bits(a, n + 4) == Bits(b, n + 4)
    ensures a >> 4 == b >> 4 && Bits(Low(a), n) == Bits(Low(b), n)
  {
    hide Bits, FirstBit, Rest;
    FirstOfBits(a, b, n + 3);
    FirstOfBits(Rest(a), Rest(b), n + 2);
    FirstOfBits(Rest(Rest(a)), Rest(Rest(b)), n + 1);
    FirstOfBits(Rest(Rest(Rest(a))), Rest(Rest(Rest(b))), n);
    SameNibble(a, b);
  }

  /** The low half of a byte, moved up */
  function Low(b: bv8): bv8 { Rest(Rest(Rest(Rest(b)))) }

  lemma SameHalves(a: bv8, b: bv8)
    requires a >> 4 == b >> 4 && Low(a) >> 4 == Low(b) >> 4
    ensures a == b
  {}

  lemma ByteOfBits(a: bv8, b: bv8)
    requires Bits(a, 8) == Bits(b, 8)
    ensures a == b
  {
    hide Bits, Low;
    FourOfBits(a, b, 4);
    FourOfBits(Low(a), Low(b), 0);
    SameHalves(a, b);
  }

  lemma {:induction false} MessageOfBits(a: seq<bv8>, b: seq<bv8>)
    requires |a| == |b| && MessageBits(a) == MessageBits(b)
    ensures a == b
  {
    hide Bits;
    if a != [] {
      var x, y := MessageBits(a), MessageBits(b);
      assert x[..8] == Bits(a[0], 8) && y[..8] == Bits(b[0], 8);
      assert x[8..] == MessageBits(a[1..]) && y[8..] == MessageBits(b[1..]);
      ByteOfBits(a[0], b[0]);
      MessageOfBits(a[1..], b[1..]);
      assert a == [a[0]] + a[1..] && b == [b[0]] + b[1..];
    }
  }

  // ---- what keeps registers apart ----

  lemma StepInjective(s: bv32, t: bv32)
    requires Step(s) == Step(t)
    ensures s == t
  {
    hide Step, Xor;
    StepLinear(s, t);
    XorCancels(Step(s), 0);
    StepZero(Xor(s, t));
    XorCancels(s, t);
  }

  lemma XorUndone(s: bv32, t: bv32, e: bv32)
    requires Xor(s, e) == Xor(t, e)
    ensures s == t
  {
    hide Xor;
    XorAssociates(s, e, e);
    XorAssociates(t, e, e);
    XorCancels(e, 0);
    XorCancels(s, 0);
    XorCancels(t, 0);
  }

  /** Equal bits never reconcile different registers. */
  lemma {:induction false} SuffixKeepsDifference(s: bv32, t: bv32, w: seq<bool>)
    requires s != t
    ensures RunBits(s, w) != RunBits(t, w)
    decreases |w|
  {
    hide Step, Xor, Bit;
    if w != [] {
      if Next(s, w[0]) == Next(t, w[0]) {
        StepInjective(Xor(s, Bit(w[0])), Xor(t, Bit(w[0])));
        XorUndone(s, t, Bit(w[0]));
      }
      SuffixKeepsDifference(Next(s, w[0]), Next(t, w[0]), w[1..]);
    }
  }

  /** The register shifted left m times */
  function Shifted(x: bv32, m: nat): bv32
    decreases m
  {
    if m == 0 then x else Shifted(Twice(x), m - 1)
  }

  predicate Odd(x: bv32) { x & 1 != 0 }

  lemma {:induction false} ShiftedAdd(x: bv32, m: nat, n: nat)
    ensures Shifted(x, m + n) == Shifted(Shifted(x, m), n)
    decreases m
  {
    hide Twice;
    if m > 0 { ShiftedAdd(Twice(x), m - 1, n); }
  }

  lemma {:induction false} ShiftedZero(n: nat)
    ensures Shifted(0, n) == 0
  {
    if n > 0 {
      assert Twice(0) == 0;
      ShiftedZero(n - 1);
    }
  }

  lemma ShiftedOnce(x: bv32, m: nat)
    ensures Shifted(x, m + 1) == Shifted(Twice(x), m) && Shifted(x, 0) == x
  {}

  lemma ShiftedSeven(x: bv32)
    ensures Shifted(x, 7) == x << 7
  {
    hide Twice, Shifted;
    var x1 := Twice(x);
    var x2 := Twice(x1);
    var x3 := Twice(x2);
    var x4 := Twice(x3);
    var x5 := Twice(x4);
    var x6 := Twice(x5);
    ShiftedOnce(x, 6);
    ShiftedOnce(x1, 5);
    ShiftedOnce(x2, 4);
    ShiftedOnce(x3, 3);
    ShiftedOnce(x4, 2);
    ShiftedOnce(x5, 1);
    ShiftedOnce(x6, 0);
    ShiftedOnce(Twice(x6), 0);
    SevenTwice(x);
  }

  lemma SevenTwice(x: bv32)
    ensures Twice(Twice(Twice(Twice(Twice(Twice(Twice(x))))))) == x << 7
  {}

  function Far(x: bv32): bv32 { Twice(Twice(Twice((((x << 7) << 7) << 7) << 7))) }

  /** Thirty-one shifts bring the lowest bit to the top. */
  lemma ShiftedFar(x: bv32)
    ensures Shifted(x, 31) == Far(x)
  {
    hide Twice, Shifted;
    var x1 := x << 7;
    var x2 := x1 << 7;
    var x3 := x2 << 7;
    var x4 := x3 << 7;
    ShiftedSeven(x);
    ShiftedSeven(x1);
    ShiftedSeven(x2);
    ShiftedSeven(x3);
    ShiftedAdd(x, 7, 24);
    ShiftedAdd(x1, 7, 17);
    ShiftedAdd(x2, 7, 10);
    ShiftedAdd(x3, 7, 3);
    ShiftedOnce(x4, 2);
    ShiftedOnce(Twice(x4), 1);
    ShiftedOnce(Twice(Twice(x4)), 0);
    ShiftedOnce(Twice(Twice(Twice(x4))), 0);
  }

  lemma OddFar(x: bv32)
    requires Odd(x)
    ensures Far(x) != 0
  {}

  /** Fewer than 32 shifts do not clear an odd register. */
  lemma OddSurvives(x: bv32, m: nat)
    requires Odd(x) && m <= 31
    ensures Shifted(x, m) != 0
  {
    hide Odd, Shifted, Far;
    OddFar(x);
    ShiftedFar(x);
    ShiftedAdd(x, m, 31 - m);
    ShiftedZero(31 - m);
  }

  /** A step that subtracts leaves a one at the bottom; a step that does not is a shift. */
  lemma StepOdd(d: bv32)
    ensures Top(d) ==> Odd(Step(d))
    ensures !Top(d) ==> Step(d) == Twice(d)
  {}

  lemma TwiceOfBits(d: bv32, p: bool, q: bool)
    ensures Twice(Xor(d, Xor(Bit(p), Bit(q)))) == Twice(d)
  {}

  /** Registers that meet after at most 32 bits differed only in bits that those shift out. */
  lemma {:induction false} MeetsOnlyBelow(s: bv32, t: bv32, x: seq<bool>, y: seq<bool>)
    requires |x| == |y| <= 32 && RunBits(s, x) == RunBits(t, y)
    ensures Shifted(Xor(s, t), |x|) == 0
    decreases |x|
  {
    hide Xor, Step, Bit, Shifted, Odd, Twice, Top;
    ShiftedOnce(Xor(s, t), if |x| > 0 then |x| - 1 else 0);
    if |x| == 0 {
      XorCancels(s, 0);
    } else {
      var d := Xor(Xor(s, t), Xor(Bit(x[0]), Bit(y[0])));
      MeetsOnlyBelow(Next(s, x[0]), Next(t, y[0]), x[1..], y[1..]);
      StepLinear(Xor(s, Bit(x[0])), Xor(t, Bit(y[0])));
      XorInterchange(s, Bit(x[0]), t, Bit(y[0]));
      StepOdd(d);
      if Top(d) { OddSurvives(Step(d), |x| - 1); }
      TwiceOfBits(Xor(s, t), x[0], y[0]);
    }
  }

  lemma FirstDifference(s: bv32, on: bool)
    ensures Odd(Xor(Next(s, on), Next(s, !on)))
  {
    hide Xor, Step, Odd, Bit;
    StepLinear(Xor(s, Bit(on)), Xor(s, Bit(!on)));
    XorInterchange(s, Bit(on), s, Bit(!on));
    XorCancels(s, 0);
    XorCancels(Xor(Bit(on), Bit(!on)), 0);
    OneBitApart(on);
  }

  lemma OneBitApart(on: bool)
    ensures Odd(Step(Xor(Bit(on), Bit(!on))))
  {}

  /** From one register, two different runs of at most 32 bits end in different registers. */
  lemma {:induction false} WindowDiffers(s: bv32, x: seq<bool>, y: seq<bool>)
    requires |x| == |y| <= 32 && x != y
    ensures RunBits(s, x) != RunBits(s, y)
    decreases |x|
  {
    hide Next, Shifted, Odd, Xor;
    assert x == [x[0]] + x[1..] && y == [y[0]] + y[1..];
    if x[0] == y[0] {
      WindowDiffers(Next(s, x[0]), x[1..], y[1..]);
    } else {
      var s1, t1 := Next(s, x[0]), Next(s, y[0]);
      FirstDifference(s, x[0]);
      OddSurvives(Xor(s1, t1), |x| - 1);
      if RunBits(s1, x[1..]) == RunBits(t1, y[1..]) { MeetsOnlyBelow(s1, t1, x[1..], y[1..]); }
    }
  }

  // ---- the checksum ----

  /** The messages differ, but only within the 32 bits from bit i. */
  ghost predicate DifferWithin32(a: seq<bv8>, b: seq<bv8>, i: nat) {
    && |a| == |b| && a != b
    && forall k :: 0 <= k < 8 * |a| && !(i <= k < i + 32) ==> MessageBits(a)[k] == MessageBits(b)[k]
  }

  lemma RegistersDiffer(a: seq<bv8>, b: seq<bv8>, i: nat)
    requires DifferWithin32(a, b, i)
    ensures RunBits(0, MessageBits(a)) != RunBits(0, MessageBits(b))
  {
    hide RunBits, MessageBits;
    var x, y := MessageBits(a), MessageBits(b);
    if x == y { MessageOfBits(a, b); }
    var lo := if i < |x| then i else |x|;
    var hi := if i + 32 < |x| then i + 32 else |x|;
    Split(x, lo, hi);
    Split(y, lo, hi);
    assert x[..lo] == y[..lo] && x[hi..] == y[hi..];
    RunConcat(0, x[..lo], x[lo..hi] + x[hi..]);
    RunConcat(0, y[..lo], y[lo..hi] + y[hi..]);
    var s := RunBits(0, x[..lo]);
    RunConcat(s, x[lo..hi], x[hi..]);
    RunConcat(s, y[lo..hi], y[hi..]);
    WindowDiffers(s, x[lo..hi], y[lo..hi]);
    SuffixKeepsDifference(RunBits(s, x[lo..hi]), RunBits(s, y[lo..hi]), x[hi..]);
  }

  lemma Split(x: seq<bool>, lo: nat, hi: nat)
    requires lo <= hi <= |x|
    ensures x == x[..lo] + (x[lo..hi] + x[hi..])
  {}

  lemma ComplementTwice(x: bv32)
    ensures Complement(Complement(x)) == x
  {}

  lemma ComplementInjective(x: bv32, y: bv32)
    requires x != y
    ensures Complement(x) != Complement(y)
  {
    hide Complement;
    ComplementTwice(x);
    ComplementTwice(y);
  }

  /** Every change confined to 32 consecutive bits, wherever they start, changes the final checksum. */
  lemma BurstDetected(a: seq<bv8>, b: seq<bv8>, i: nat)
    requires DifferWithin32(a, b, i)
    ensures Cksum(a) != Cksum(b)
  {
    hide RunBits, MessageBits, Divide, Complement, LengthBytes;
    var len := LengthBytes(|a| % UINT32);
    RegistersDiffer(a, b, i);
    SuffixKeepsDifference(RunBits(0, MessageBits(a)), RunBits(0, MessageBits(b)), MessageBits(len));
    WithLength(a, len);
    WithLength(b, len);
    ComplementInjective(Divide(0, a + len), Divide(0, b + len));
  }

  lemma WithLength(a: seq<bv8>, len: seq<bv8>)
    ensures Divide(0, a + len) == RunBits(RunBits(0, MessageBits(a)), MessageBits(len))
  {
    hide RunBits, MessageBits, Divide;
    DivideIsRun(0, a + len);
    MessageBitsConcat(a, len);
    RunConcat(0, MessageBits(a), MessageBits(len));
  }

  /** In particular every change within four consecutive bytes. */
  lemma FourBytesDetected(a: seq<bv8>, b: seq<bv8>, i: nat)
    requires |a| == |b| && a != b && forall k :: 0 <= k < |a| && !(i <= k < i + 4) ==> a[k] == b[k]
    ensures Cksum(a) != Cksum(b)
  {
    forall k | 0 <= k < 8 * |a| && !(8 * i <= k < 8 * i + 32) ensures MessageBits(a)[k] == MessageBits(b)[k] {
      MessageBitAt(a, k);
      MessageBitAt(b, k);
    }
    BurstDetected(a, b, 8 * i);
  }

  lemma {:induction false} MessageBitAt(message: seq<bv8>, k: nat)
    requires k < 8 * |message|
    ensures MessageBits(message)[k] == Bits(message[k / 8], 8)[k % 8]
  {
    hide Bits;
    if k >= 8 { MessageBitAt(message[1..], k - 8); }
  }

  // ---- exactly the undetected changes ----

  function XorBytes(a: seq<bv8>, b: seq<bv8>): (x: seq<bv8>)
    requires |a| == |b|
    ensures |x| == |a|
  {
    if a == [] then [] else [a[0] ^ b[0]] + XorBytes(a[1..], b[1..])
  }

  lemma DivideByteLinear(s: bv32, t: bv32, a: bv8, b: bv8)
    ensures DivideByte(Xor(s, t), a ^ b, 8) == Xor(DivideByte(s, a, 8), DivideByte(t, b, 8))
  {
    hide *;
    DivideByteIsStep8(Xor(s, t), a ^ b);
    DivideByteIsStep8(s, a);
    DivideByteIsStep8(t, b);
    EnterLinear(a, b);
    XorInterchange(s, t, Enter(a), Enter(b));
    Step8Linear(Xor(s, Enter(a)), Xor(t, Enter(b)));
  }

  /** Division is linear over exclusive or. */
  lemma {:induction false} DivideLinear(s: bv32, t: bv32, a: seq<bv8>, b: seq<bv8>)
    requires |a| == |b|
    ensures Divide(Xor(s, t), XorBytes(a, b)) == Xor(Divide(s, a), Divide(t, b))
    decreases |a|
  {
    hide DivideByte, Xor;
    if a != [] {
      DivideByteLinear(s, t, a[0], b[0]);
      DivideLinear(DivideByte(s, a[0], 8), DivideByte(t, b[0], 8), a[1..], b[1..]);
      assert XorBytes(a, b)[0] == a[0] ^ b[0] && XorBytes(a, b)[1..] == XorBytes(a[1..], b[1..]);
    }
  }

  /** For messages of one length the checksums are equal if and only if the polynomial divides the difference. */
  lemma UndetectedExactly(a: seq<bv8>, b: seq<bv8>)
    requires |a| == |b|
    ensures Cksum(a) == Cksum(b) <==> Divide(0, XorBytes(a, b)) == 0
  {
    hide RunBits, MessageBits, Divide, Complement, LengthBytes, Xor, XorBytes;
    var len := LengthBytes(|a| % UINT32);
    var s, t := RunBits(0, MessageBits(a)), RunBits(0, MessageBits(b));
    DivideIsRun(0, a);
    DivideIsRun(0, b);
    WithLength(a, len);
    WithLength(b, len);
    if s != t {
      SuffixKeepsDifference(s, t, MessageBits(len));
      ComplementInjective(Divide(0, a + len), Divide(0, b + len));
    }
    DivideLinear(0, 0, a, b);
    XorCancels(0, 0);
    XorCancels(s, t);
  }
}
