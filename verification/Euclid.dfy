/** AbstractEuclideanDomain::Gcd and QuotientRing::MultiplicativeInverse over the integers
    (src/cryptlib/algebra.h:271-303): Euclid with three slots and rotating indices. */
module Euclid {
  import opened Modular

  function Abs(x: int): nat { if x < 0 then -x else x }

  /** Integer::IsUnit looks at the magnitude only (src/cryptlib/integer.cpp:2082-2085). */
  predicate IsUnit(x: int) { Abs(x) == 1 }

  ghost predicate CommonDivisor(d: int, a: int, b: int) { Divides(d, a) && Divides(d, b) }

  /** Greatest in the divisibility order, which also covers zero and negative arguments. */
  ghost predicate IsGcd(g: int, a: int, b: int) {
    && CommonDivisor(g, a, b)
    && forall d: int :: CommonDivisor(d, a, b) ==> Divides(d, g)
  }

  ghost predicate Coprime(a: int, b: int) { IsGcd(1, a, b) }

  /** One Euclidean step keeps the common divisors. */
  lemma StepKeepsDivisors(d: int, x: int, y: int)
    requires y != 0
    ensures CommonDivisor(d, x, y) <==> CommonDivisor(d, y, x % y)
  {
    var q := x / y;
    if CommonDivisor(d, x, y) {
      DividesCombination(d, x, y, 1, -q);
      assert 1 * x + (-q) * y == x % y;
    }
    if CommonDivisor(d, y, x % y) {
      DividesCombination(d, y, x % y, q, 1);
      assert q * y + 1 * (x % y) == x;
    }
  }

  /** Euclid's remainder sequence from (x, y). */
  ghost function Remainders(x: int, y: int): int
    decreases Abs(y)
  {
    if y == 0 then x else Remainders(y, x % y)
  }

  lemma {:induction false} RemaindersIsGcd(x: int, y: int)
    ensures IsGcd(Remainders(x, y), x, y)
    decreases Abs(y)
  {
    if y == 0 {
      DividesMultiple(x, 1);
      DividesMultiple(x, 0);
    } else {
      RemaindersIsGcd(y, x % y);
      forall d: int ensures CommonDivisor(d, x, y) <==> CommonDivisor(d, y, x % y) { StepKeepsDivisors(d, x, y); }
    }
  }

  method Gcd(a: int, b: int) returns (r: int)
    ensures IsGcd(r, a, b)
    ensures r == Remainders(b, a)
  {
    var g := new int[3];
    g[0], g[1] := b, a;
    var i0, i1, i2 := 0, 1, 2;
    while g[i1] != 0
      invariant {i0, i1, i2} == {0, 1, 2} && 0 <= i0 < 3 && 0 <= i1 < 3 && 0 <= i2 < 3
      invariant i0 != i1 && i1 != i2 && i0 != i2
      invariant Remainders(g[i0], g[i1]) == Remainders(b, a)
      decreases Abs(g[i1])
    {
      g[i2] := g[i0] % g[i1];
      var t := i0;
      i0, i1, i2 := i1, i2, t;
    }
    RemaindersIsGcd(b, a);
    return g[i0];
  }

  /** What the extended loop returns from the two live slots (g0, v0) and (g1, v1). */
  ghost function InverseFrom(m: int, g0: int, g1: int, v0: int, v1: int): int
    requires m > 0
    decreases Abs(g1)
  {
    if Cong(m, g1, 0) then (if IsUnit(g0) then v0 / g0 else 0)
    else InverseFrom(m, g1, g0 % g1, v1, v0 - v1 * (g0 / g1))
  }

  ghost function Inverse(m: int, a: int): int
    requires m > 0
  {
    InverseFrom(m, m, a, 0, 1)
  }

  method MultiplicativeInverse(m: int, a: int) returns (r: int)
    requires m > 0
    ensures r == Inverse(m, a)
    ensures Cong(m, r * a, 1) <==> m == 1 || (Coprime(a, m) && Abs(a) < m)
    ensures !Cong(m, r * a, 1) ==> r == 0
  {
    hide Divides, Coprime, Cong;
    ZeroIsCong(m);
    var g, v := new int[3], new int[3];
    g[0], g[1], v[0], v[1] := m, a, 0, 1;
    var i0, i1, i2 := 0, 1, 2;
    while !Cong(m, g[i1], 0)
      invariant 0 <= i0 < 3 && 0 <= i1 < 3 && 0 <= i2 < 3
      invariant i0 != i1 && i1 != i2 && i0 != i2
      invariant InverseFrom(m, g[i0], g[i1], v[i0], v[i1]) == Inverse(m, a)
      decreases Abs(g[i1])
    {
      var y;
      g[i2], y := g[i0] % g[i1], g[i0] / g[i1];
      v[i2] := v[i0] - v[i1] * y;
      var t := i0;
      i0, i1, i2 := i1, i2, t;
    }
    r := if IsUnit(g[i0]) then v[i0] / g[i0] else 0;
    InverseCorrect(m, a);
  }

  /** The coefficients keep g[k] congruent to v[k] * a through every step. */
  lemma CoefficientStep(m: int, a: int, g0: int, g1: int, v0: int, v1: int)
    requires m > 0 && g1 != 0 && Cong(m, g0, v0 * a) && Cong(m, g1, v1 * a)
    ensures Cong(m, g0 % g1, (v0 - v1 * (g0 / g1)) * a)
  {
    var q := g0 / g1;
    DividesCombination(m, g0 - v0 * a, g1 - v1 * a, 1, -q);
    calc {
      1 * (g0 - v0 * a) + (-q) * (g1 - v1 * a);
      g0 - q * g1 - v0 * a + q * (v1 * a);
      g0 % g1 - (v0 * a - (v1 * q) * a);
      g0 % g1 - (v0 - v1 * q) * a;
    }
  }

  /** On arguments below the modulus the loop ends at the greatest common divisor, with its coefficient. */
  lemma {:induction false} InverseFromCorrect(m: int, a: int, g0: int, g1: int, v0: int, v1: int)
    requires m > 0 && Abs(g1) < m
    requires Cong(m, g0, v0 * a) && Cong(m, g1, v1 * a)
    requires forall d: int :: CommonDivisor(d, g0, g1) <==> CommonDivisor(d, m, a)
    ensures var r := InverseFrom(m, g0, g1, v0, v1); if Coprime(a, m) then Cong(m, r * a, 1) else r == 0
    decreases Abs(g1)
  {
    hide Divides, Coprime, Cong, IsUnit, CommonDivisor;
    ZeroIsCong(m);
    if Cong(m, g1, 0) {
      SmallMultiple(m, g1);
      FinalSlot(m, a, g0, v0);
    } else {
      CoefficientStep(m, a, g0, g1, v0, v1);
      forall d: int ensures CommonDivisor(d, g1, g0 % g1) <==> CommonDivisor(d, m, a) { StepKeepsDivisors(d, g0, g1); }
      InverseFromCorrect(m, a, g1, g0 % g1, v1, v0 - v1 * (g0 / g1));
    }
  }

  /** With g1 = 0 the other slot is the greatest common divisor, so it is a unit exactly for coprime a. */
  lemma UnitIffCoprime(m: int, a: int, g0: int)
    requires forall d: int :: CommonDivisor(d, g0, 0) <==> CommonDivisor(d, m, a)
    ensures IsUnit(g0) <==> Coprime(a, m)
  {
    DividesMultiple(g0, 1);
    DividesMultiple(g0, 0);
    assert CommonDivisor(g0, g0, 0);
    DividesMultiple(1, m);
    DividesMultiple(1, a);
    if IsUnit(g0) {
      forall d: int | CommonDivisor(d, a, m) ensures Divides(d, 1) {
        assert CommonDivisor(d, m, a);
        DividesCombination(d, g0, 0, g0, 0);
      }
    }
    if Coprime(a, m) {
      assert CommonDivisor(g0, a, m);
      var k := Factor(g0, 1);
      MultipleIsLarge(g0, k);
    }
  }

  lemma FinalSlot(m: int, a: int, g0: int, v0: int)
    requires m > 0 && Cong(m, g0, v0 * a)
    requires forall d: int :: CommonDivisor(d, g0, 0) <==> CommonDivisor(d, m, a)
    ensures var r := if IsUnit(g0) then v0 / g0 else 0; if Coprime(a, m) then Cong(m, r * a, 1) else r == 0
  {
    hide Coprime;
    UnitIffCoprime(m, a, g0);
    if g0 == 1 {
      CongSymm(m, g0, v0 * a);
    } else if g0 == -1 {
      assert (v0 / g0) * a - 1 == g0 - v0 * a by { assert v0 / g0 == -v0; assert (-v0) * a == -(v0 * a); }
    }
  }

  lemma SmallMultiple(m: int, x: int)
    requires m > 0 && Abs(x) < m && Cong(m, x, 0)
    ensures x == 0
  {
    var k := Factor(m, x);
    if k != 0 { MultipleIsLarge(m, k); }
  }

  /** The inverse is right exactly when the argument is below the modulus in magnitude (or the modulus
      is one): unreduced arguments end the loop at once, because its test is congruence to zero. */
  lemma InverseCorrect(m: int, a: int)
    requires m > 0
    ensures Cong(m, Inverse(m, a) * a, 1) <==> m == 1 || (Coprime(a, m) && Abs(a) < m)
    ensures !Cong(m, Inverse(m, a) * a, 1) ==> Inverse(m, a) == 0
  {
    DividesMultiple(m, 1);
    if Abs(a) < m {
      InverseFromCorrect(m, a, m, a, 0, 1);
      if m > 1 { SmallMultipleOfOne(m); }
    } else if m > 1 {
      if !Cong(m, a, 0) {
        UnreducedStopsAtOnce(m, a);
      }
      SmallMultipleOfOne(m);
    }
  }

  lemma ZeroIsCong(m: int)
    requires m > 0
    ensures Cong(m, 0, 0)
  {}

  lemma SmallMultipleOfOne(m: int)
    requires m > 1
    ensures !Cong(m, 0, 1)
  {
    if Cong(m, 0, 1) { SmallMultiple(m, -1); }
  }

  /** One step from an unreduced argument swaps the slots, and the modulus is congruent to zero. */
  lemma UnreducedStopsAtOnce(m: int, a: int)
    requires m > 1 && Abs(a) >= m && !Cong(m, a, 0)
    ensures Inverse(m, a) == 0
  {
    DividesMultiple(m, 1);
    if Abs(a) == m { DividesMultiple(m, -1); }
    assert m % a == m && m / a == 0 by {
      var q := m / a;
      assert m == q * a + m % a;
      if q != 0 { MultipleIsLarge(a, q); }
    }
    assert InverseFrom(m, m, a, 0, 1) == InverseFrom(m, a, m, 1, 0);
  }

  /** An inverse exists exactly for arguments coprime to the modulus, so every coprime unreduced argument
      is a case the code gets wrong; 3 modulo 2 is one. */
  lemma InverseExists(m: int, a: int)
    requires m > 0
    ensures (exists v: int :: Cong(m, v * a, 1)) <==> Coprime(a, m)
  {
    DividesMultiple(1, a);
    DividesMultiple(1, m);
    if v: int :| Cong(m, v * a, 1) {
      forall d: int | CommonDivisor(d, a, m) ensures Divides(d, 1) {
        var k := Factor(m, v * a - 1);
        DividesCombination(d, a, m, v, -k);
      }
    }
    if Coprime(a, m) {
      CongRemainder(m, a);
      forall d: int ensures CommonDivisor(d, a % m, m) <==> CommonDivisor(d, a, m) { StepKeepsDivisors(d, a, m); }
      var w := Inverse(m, a % m);
      InverseCorrect(m, a % m);
      assert Cong(m, w * (a % m), 1) by { if m == 1 { DividesMultiple(1, w * (a % m) - 1); } }
      CongProduct(m, w, w, a, a % m);
      CongTrans(m, w * a, w * (a % m), 1);
    }
  }

  lemma UnreducedArgumentFails()
    ensures Coprime(3, 2) && Cong(2, 1 * 3, 1) && Inverse(2, 3) == 0 && !Cong(2, Inverse(2, 3) * 3, 1)
  {
    InverseExists(2, 3);
    assert Cong(2, 1 * 3, 1);
    UnreducedStopsAtOnce(2, 3);
  }
}
