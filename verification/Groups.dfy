/** The group interface of src/cryptlib/algebra.h.  An AbstractGroup<T> is a record of its virtual
    functions; the laws hold up to the group's own Equal, because a quotient ring keeps elements
    unreduced and compares them modulo its modulus. */
module Groups {

  datatype Group<!T> = Group(equal: (T, T) -> bool, zero: T, add: (T, T) -> T, double: T -> T)

  // Each law is a named predicate, so that a law is instantiated only where it is named.
  ghost predicate Refl<T>(g: Group<T>, a: T) { g.equal(a, a) }

  ghost predicate Symm<T>(g: Group<T>, a: T, b: T) { g.equal(a, b) ==> g.equal(b, a) }

  ghost predicate Trans<T>(g: Group<T>, a: T, b: T, c: T) {
    g.equal(a, b) && g.equal(b, c) ==> g.equal(a, c)
  }

  ghost predicate Congruent<T>(g: Group<T>, a: T, a': T, b: T, b': T) {
    g.equal(a, a') && g.equal(b, b') ==> g.equal(g.add(a, b), g.add(a', b'))
  }

  ghost predicate Associates<T>(g: Group<T>, a: T, b: T, c: T) {
    g.equal(g.add(g.add(a, b), c), g.add(a, g.add(b, c)))
  }

  ghost predicate Neutral<T>(g: Group<T>, a: T) {
    g.equal(g.add(g.zero, a), a) && g.equal(g.add(a, g.zero), a)
  }

  ghost predicate Doubles<T>(g: Group<T>, a: T) { g.equal(g.double(a), g.add(a, a)) }

  ghost predicate Commutes<T>(g: Group<T>, a: T, b: T) { g.equal(g.add(a, b), g.add(b, a)) }

  /** What the multiplication algorithms rely on; inverses are not among it. */
  ghost predicate Lawful<T(!new)>(g: Group<T>) {
    && (forall a: T :: Refl(g, a))
    && (forall a: T, b: T :: Symm(g, a, b))
    && (forall a: T, b: T, c: T :: Trans(g, a, b, c))
    && (forall a: T, a': T, b: T, b': T :: Congruent(g, a, a', b, b'))
    && (forall a: T, b: T, c: T :: Associates(g, a, b, c))
    && (forall a: T :: Neutral(g, a))
    && (forall a: T :: Doubles(g, a))
  }

  ghost predicate Commutative<T(!new)>(g: Group<T>) {
    forall a: T, b: T :: Commutes(g, a, b)
  }

  lemma SymmE<T(!new)>(g: Group<T>, a: T, b: T)
    requires Lawful(g) && g.equal(a, b)
    ensures g.equal(b, a)
  {
    assert Symm(g, a, b);
  }

  lemma TransE<T(!new)>(g: Group<T>, a: T, b: T, c: T)
    requires Lawful(g) && g.equal(a, b) && g.equal(b, c)
    ensures g.equal(a, c)
  {
    assert Trans(g, a, b, c);
  }

  lemma AddE<T(!new)>(g: Group<T>, a: T, a': T, b: T, b': T)
    requires Lawful(g) && g.equal(a, a') && g.equal(b, b')
    ensures g.equal(g.add(a, b), g.add(a', b'))
  {
    assert Congruent(g, a, a', b, b');
  }

  /** add is congruent in each argument alone. */
  lemma AddLeftE<T(!new)>(g: Group<T>, a: T, a': T, b: T)
    requires Lawful(g) && g.equal(a, a')
    ensures g.equal(g.add(a, b), g.add(a', b))
  {
    assert Refl(g, b);
    AddE(g, a, a', b, b);
  }

  lemma AddRightE<T(!new)>(g: Group<T>, a: T, b: T, b': T)
    requires Lawful(g) && g.equal(b, b')
    ensures g.equal(g.add(a, b), g.add(a, b'))
  {
    assert Refl(g, a);
    AddE(g, a, a, b, b');
  }

  /** (a + b) + (c + d) is (a + c) + (b + d) in a commutative group. */
  lemma Interchange<T(!new)>(g: Group<T>, a: T, b: T, c: T, d: T)
    requires Lawful(g) && Commutative(g)
    ensures g.equal(g.add(g.add(a, b), g.add(c, d)), g.add(g.add(a, c), g.add(b, d)))
  {
    var bcd := g.add(b, g.add(c, d));
    var cbd := g.add(c, g.add(b, d));
    assert Associates(g, a, b, g.add(c, d));
    assert g.equal(bcd, cbd) by {
      assert Associates(g, b, c, d) && Commutes(g, b, c) && Associates(g, c, b, d);
      SymmE(g, g.add(g.add(b, c), d), bcd);
      AddLeftE(g, g.add(b, c), g.add(c, b), d);
      TransE(g, bcd, g.add(g.add(b, c), d), g.add(g.add(c, b), d));
      TransE(g, bcd, g.add(g.add(c, b), d), cbd);
    }
    AddRightE(g, a, bcd, cbd);
    assert Associates(g, a, c, g.add(b, d));
    SymmE(g, g.add(g.add(a, c), g.add(b, d)), g.add(a, cbd));
    TransE(g, g.add(g.add(a, b), g.add(c, d)), g.add(a, bcd), g.add(a, cbd));
    TransE(g, g.add(g.add(a, b), g.add(c, d)), g.add(a, cbd), g.add(g.add(a, c), g.add(b, d)));
  }

  /** n-fold addition of a: the one-line definition that every fast form is measured against. */
  ghost function Times<T>(g: Group<T>, n: nat, a: T): T {
    if n == 0 then g.zero else g.add(a, Times(g, n - 1, a))
  }

  lemma ZeroMultiple<T(!new)>(g: Group<T>, a: T)
    requires Lawful(g)
    ensures g.equal(g.zero, Times(g, 0, a))
  {
    assert Refl(g, g.zero);
  }

  lemma TimesOne<T(!new)>(g: Group<T>, a: T)
    requires Lawful(g)
    ensures g.equal(a, Times(g, 1, a))
  {
    assert Neutral(g, a);
    assert Times(g, 1, a) == g.add(a, Times(g, 0, a));
    SymmE(g, g.add(a, g.zero), a);
  }

  lemma {:induction false} TimesAdd<T(!new)>(g: Group<T>, m: nat, n: nat, a: T)
    requires Lawful(g)
    ensures g.equal(g.add(Times(g, m, a), Times(g, n, a)), Times(g, m + n, a))
  {
    if m == 0 {
      assert Neutral(g, Times(g, n, a));
    } else {
      var p, q := Times(g, m - 1, a), Times(g, n, a);
      TimesAdd(g, m - 1, n, a);
      assert Associates(g, a, p, q);
      AddRightE(g, a, g.add(p, q), Times(g, m - 1 + n, a));
      TransE(g, g.add(g.add(a, p), q), g.add(a, g.add(p, q)), g.add(a, Times(g, m - 1 + n, a)));
    }
  }

  /** Adding elements that stand for m * a and n * a gives one that stands for (m + n) * a. */
  lemma AddMultiples<T(!new)>(g: Group<T>, x: T, m: nat, y: T, n: nat, a: T)
    requires Lawful(g) && g.equal(x, Times(g, m, a)) && g.equal(y, Times(g, n, a))
    ensures g.equal(g.add(x, y), Times(g, m + n, a))
  {
    AddE(g, x, Times(g, m, a), y, Times(g, n, a));
    TimesAdd(g, m, n, a);
    TransE(g, g.add(x, y), g.add(Times(g, m, a), Times(g, n, a)), Times(g, m + n, a));
  }

  lemma DoubleMultiple<T(!new)>(g: Group<T>, x: T, m: nat, a: T)
    requires Lawful(g) && g.equal(x, Times(g, m, a))
    ensures g.equal(g.double(x), Times(g, 2 * m, a))
  {
    assert Doubles(g, x);
    AddMultiples(g, x, m, x, m, a);
    TransE(g, g.double(x), g.add(x, x), Times(g, 2 * m, a));
  }

  lemma {:induction false} TimesRespectsEqual<T(!new)>(g: Group<T>, n: nat, a: T, b: T)
    requires Lawful(g) && g.equal(a, b)
    ensures g.equal(Times(g, n, a), Times(g, n, b))
  {
    if n == 0 {
      assert Refl(g, g.zero);
    } else {
      TimesRespectsEqual(g, n - 1, a, b);
      AddE(g, a, b, Times(g, n - 1, a), Times(g, n - 1, b));
    }
  }

  /** m * (n * a) is (m * n) * a. */
  lemma {:induction false} TimesTimes<T(!new)>(g: Group<T>, m: nat, n: nat, a: T)
    requires Lawful(g)
    ensures g.equal(Times(g, m, Times(g, n, a)), Times(g, m * n, a))
  {
    var na := Times(g, n, a);
    if m == 0 {
      assert Refl(g, g.zero);
    } else {
      TimesTimes(g, m - 1, n, a);
      assert Refl(g, na);
      AddMultiples(g, na, n, Times(g, m - 1, na), (m - 1) * n, a);
      assert n + (m - 1) * n == m * n;
    }
  }

  /** n * (a + b) is n * a + n * b in a commutative group. */
  lemma {:induction false} TimesDistributes<T(!new)>(g: Group<T>, n: nat, a: T, b: T)
    requires Lawful(g) && Commutative(g)
    ensures g.equal(Times(g, n, g.add(a, b)), g.add(Times(g, n, a), Times(g, n, b)))
  {
    if n == 0 {
      assert Neutral(g, g.zero);
      SymmE(g, g.add(g.zero, g.zero), g.zero);
    } else {
      var p, q := Times(g, n - 1, a), Times(g, n - 1, b);
      TimesDistributes(g, n - 1, a, b);
      AddRightE(g, g.add(a, b), Times(g, n - 1, g.add(a, b)), g.add(p, q));
      Interchange(g, a, b, p, q);
      TransE(g, Times(g, n, g.add(a, b)), g.add(g.add(a, b), g.add(p, q)), g.add(g.add(a, p), g.add(b, q)));
    }
  }
}
