/** AbstractRing::Exponentiate through MultiplicativeGroup (src/cryptlib/algebra.h:79-119, 471-474), and
    its instance over a QuotientRing of the integers, where it computes powers modulo m. */
module Exponentiation {
  import opened Groups
  import opened Modular
  import opened IntMultiplication
  import CascadeMultiplication

  datatype Ring<!T> = Ring(equal: (T, T) -> bool, one: T, multiply: (T, T) -> T, square: T -> T)

  /** The group that the multiplication algorithms see when they are asked to exponentiate. */
  function MultiplicativeGroup<T>(r: Ring<T>): Group<T> {
    Group(r.equal, r.one, r.multiply, r.square)
  }

  method Exponentiate<T(0, !new)>(r: Ring<T>, base: T, exponent: nat) returns (result: T)
    requires Lawful(MultiplicativeGroup(r))
    ensures r.equal(result, Times(MultiplicativeGroup(r), exponent, base))
  {
    result := IntMultiply(MultiplicativeGroup(r), base, exponent);
  }

  /** QuotientRing over the integers: products are reduced, One is not, Equal is congruence. */
  function QuotientRing(m: int): Ring<int>
    requires m != 0
  {
    Ring((a: int, b: int) => Cong(m, a, b), 1, (a: int, b: int) => (a * b) % m, (a: int) => (a * a) % m)
  }

  ghost function Power(b: int, n: nat): int {
    if n == 0 then 1 else b * Power(b, n - 1)
  }

  lemma QuotientRingLawful(m: int)
    requires m != 0
    ensures Lawful(MultiplicativeGroup(QuotientRing(m))) && Commutative(MultiplicativeGroup(QuotientRing(m)))
  {
    var g := MultiplicativeGroup(QuotientRing(m));
    forall a: int, b: int ensures Symm(g, a, b) {
      if Cong(m, a, b) { CongSymm(m, a, b); }
    }
    forall a: int, b: int, c: int ensures Trans(g, a, b, c) {
      if Cong(m, a, b) && Cong(m, b, c) { CongTrans(m, a, b, c); }
    }
    forall a: int, a': int, b: int, b': int ensures Congruent(g, a, a', b, b') {
      if Cong(m, a, a') && Cong(m, b, b') {
        CongProduct(m, a, a', b, b');
        Reduced(m, a * b, a' * b');
      }
    }
    forall a: int, b: int, c: int ensures Associates(g, a, b, c) {
      CongRemainder(m, a * b);
      CongRemainder(m, b * c);
      CongProduct(m, (a * b) % m, a * b, c, c);
      CongProduct(m, a, a, b * c, (b * c) % m);
      assert a * (b * c) == (a * b) * c;
      CongTrans(m, (a * b) % m * c, (a * b) * c, a * ((b * c) % m));
      Reduced(m, (a * b) % m * c, a * ((b * c) % m));
    }
    forall a: int ensures Neutral(g, a) {
      CongRemainder(m, a);
      assert 1 * a == a && a * 1 == a;
    }
    forall a: int, b: int ensures Commutes(g, a, b) {
      assert a * b == b * a;
    }
  }

  lemma Reduced(m: int, a: int, b: int)
    requires m != 0 && Cong(m, a, b)
    ensures Cong(m, a % m, b % m)
  {
    CongRemainder(m, a);
    CongRemainder(m, b);
    CongTrans(m, a % m, a, b);
    CongTrans(m, a % m, b, b % m);
  }

  /** Repeated multiplication in the quotient ring is the integer power, modulo m. */
  lemma {:induction false} QuotientPower(m: int, b: int, n: nat)
    requires m != 0
    ensures Cong(m, Times(MultiplicativeGroup(QuotientRing(m)), n, b), Power(b, n))
  {
    if n != 0 {
      var p := Times(MultiplicativeGroup(QuotientRing(m)), n - 1, b);
      QuotientPower(m, b, n - 1);
      CongProduct(m, b, b, p, Power(b, n - 1));
      CongRemainder(m, b * p);
      CongTrans(m, (b * p) % m, b * p, b * Power(b, n - 1));
    }
  }

  /** Exponentiate over the integers modulo m agrees with the integer power. */
  method PowerMod(m: int, base: int, exponent: nat) returns (result: int)
    requires m != 0
    ensures Cong(m, result, Power(base, exponent))
  {
    QuotientRingLawful(m);
    result := Exponentiate(QuotientRing(m), base, exponent);
    QuotientPower(m, base, exponent);
    CongTrans(m, result, Times(MultiplicativeGroup(QuotientRing(m)), exponent, base), Power(base, exponent));
  }

  /** CascadeExponentiate over the integers modulo m: a product of two powers. */
  method CascadePowerMod(m: int, x: int, e1: nat, y: int, e2: nat) returns (result: int)
    requires m != 0
    ensures Cong(m, result, Power(x, e1) * Power(y, e2))
  {
    hide Cong, Lawful, Commutative, Power, Times;
    var g := MultiplicativeGroup(QuotientRing(m));
    QuotientRingLawful(m);
    result := CascadeMultiplication.CascadeIntMultiply(g, x, e1, y, e2);
    var p, q := Times(g, e1, x), Times(g, e2, y);
    QuotientPower(m, x, e1);
    QuotientPower(m, y, e2);
    CongProduct(m, p, Power(x, e1), q, Power(y, e2));
    CongRemainder(m, p * q);
    CongTrans(m, result, (p * q) % m, p * q);
    CongTrans(m, result, p * q, Power(x, e1) * Power(y, e2));
  }
}
