/** Congruence of integers: the Equal of a QuotientRing over the integers
    (src/cryptlib/algebra.h:173-174), with Integer's Euclidean remainder (src/cryptlib/integer.cpp:1911-1927). */
module Modular {

  predicate Cong(m: int, a: int, b: int)
    requires m != 0
  {
    (a - b) % m == 0
  }

  predicate Divides(d: int, a: int) {
    if d == 0 then a == 0 else a % d == 0
  }

  /** The only use of the meaning of the remainder: multiples leave none, non-multiples do. */
  lemma MultipleHasNoRemainder(m: int, k: int)
    requires m != 0
    ensures (k * m) % m == 0
  {
    var x := k * m;
    var q, r := x / m, x % m;
    assert x == q * m + r;
    assert (k - q) * m == r;
    if k != q { MultipleIsLarge(m, k - q); }
  }

  lemma MultipleIsLarge(m: int, t: int)
    requires m != 0 && t != 0
    ensures (t * m >= m && t * m >= -m) || (t * m <= m && t * m <= -m)
  {
    if t > 0 && m > 0 {
      ProductAtLeast(t, m);
    } else if t > 0 {
      ProductAtLeast(t, -m);
      assert t * -m == -(t * m);
    } else if m > 0 {
      ProductAtLeast(-t, m);
      assert (-t) * m == -(t * m);
    } else {
      ProductAtLeast(-t, -m);
      assert (-t) * -m == t * m;
    }
  }

  lemma {:induction false} ProductAtLeast(t: int, m: int)
    requires t > 0 && m > 0
    ensures t * m >= m
  {
    if t > 1 {
      ProductAtLeast(t - 1, m);
      assert t * m == (t - 1) * m + m;
    }
  }

  lemma DividesMultiple(d: int, k: int)
    ensures Divides(d, k * d)
  {
    if d != 0 { MultipleHasNoRemainder(d, k); }
  }

  lemma Factor(d: int, a: int) returns (k: int)
    requires Divides(d, a)
    ensures a == k * d
  {
    k := if d == 0 then 0 else a / d;
  }

  /** Divisors survive linear combinations. */
  lemma DividesCombination(d: int, a: int, b: int, x: int, y: int)
    requires Divides(d, a) && Divides(d, b)
    ensures Divides(d, x * a + y * b)
  {
    var j := Factor(d, a);
    var k := Factor(d, b);
    calc {
      x * a + y * b;
      x * (j * d) + y * (k * d);
      (x * j) * d + (y * k) * d;
      (x * j + y * k) * d;
    }
    DividesMultiple(d, x * j + y * k);
  }

  lemma CongTrans(m: int, a: int, b: int, c: int)
    requires m != 0 && Cong(m, a, b) && Cong(m, b, c)
    ensures Cong(m, a, c)
  {
    DividesCombination(m, a - b, b - c, 1, 1);
    assert 1 * (a - b) + 1 * (b - c) == a - c;
  }

  lemma CongSymm(m: int, a: int, b: int)
    requires m != 0 && Cong(m, a, b)
    ensures Cong(m, b, a)
  {
    DividesCombination(m, a - b, a - b, -1, 0);
    assert (-1) * (a - b) + 0 * (a - b) == b - a;
  }

  lemma CongProduct(m: int, a: int, a': int, b: int, b': int)
    requires m != 0 && Cong(m, a, a') && Cong(m, b, b')
    ensures Cong(m, a * b, a' * b')
  {
    DividesCombination(m, a - a', b - b', b, a');
    calc {
      b * (a - a') + a' * (b - b');
      b * a - b * a' + a' * b - a' * b';
      a * b - a' * b';
    }
  }

  lemma CongRemainder(m: int, a: int)
    requires m != 0
    ensures Cong(m, a % m, a) && Cong(m, a, a % m)
  {
    DividesMultiple(m, a / m);
    assert a - a % m == (a / m) * m;
    CongSymm(m, a, a % m);
  }

  /** Division with remainder is unique. */
  lemma Quotient(x: nat, k: nat, q: nat, r: nat)
    requires x == k * q + r && r < k
    ensures x / k == q && x % k == r
  {
    assert (x / k - q) * k == r - x % k;
    if x / k != q { MultipleIsLarge(k, x / k - q); }
  }
}
