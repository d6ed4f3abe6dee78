/** GeneralCascadeMultiplication (src/cryptlib/algebra.h:436-469): multi-exponentiation by repeatedly
    dividing the largest exponent by the next largest, driven by a heap over the given range. */
module GeneralCascade {
  import opened Groups
  import opened ExponentHeap
  import opened IntMultiplication
  import opened CascadeMultiplication

  ghost function Value<T>(g: Group<T>, t: Term<T>): T { Times(g, t.exponent, t.element) }

  /** The sum of exponent * element over the range. */
  ghost function Sum<T>(g: Group<T>, s: seq<Term<T>>): T {
    if s == [] then g.zero else g.add(Value(g, s[0]), Sum(g, s[1..]))
  }

  ghost function TotalExponent<T>(s: seq<Term<T>>): nat {
    if s == [] then 0 else s[0].exponent + TotalExponent(s[1..])
  }

  function Without<T>(s: seq<T>, i: nat): (t: seq<T>)
    requires i < |s|
    ensures |t| == |s| - 1 && multiset(s) == multiset(t) + multiset{s[i]}
  {
    assert s == s[..i] + [s[i]] + s[i + 1..];
    s[..i] + s[i + 1..]
  }

  /** Any term can be taken to the front of the sum. */
  lemma {:induction false} TakeOut<T(!new)>(g: Group<T>, s: seq<Term<T>>, i: nat)
    requires Lawful(g) && Commutative(g) && i < |s|
    ensures g.equal(Sum(g, s), g.add(Value(g, s[i]), Sum(g, Without(s, i))))
    ensures TotalExponent(s) == s[i].exponent + TotalExponent(Without(s, i))
  {
    hide Lawful, Commutative;
    var v := Value(g, s[i]);
    if i == 0 {
      assert Without(s, 0) == s[1..];
      ReflE(g, Sum(g, s));
    } else {
      var head, tail := Value(g, s[0]), s[1..];
      var rest := Sum(g, Without(tail, i - 1));
      TakeOut(g, tail, i - 1);
      assert Without(s, i)[1..] == Without(tail, i - 1) && Without(s, i)[0] == s[0];
      AddRightE(g, head, Sum(g, tail), g.add(v, rest));
      Rotate(g, head, v, rest);
      TransE(g, Sum(g, s), g.add(head, g.add(v, rest)), g.add(v, g.add(head, rest)));
    }
  }

  lemma ReflE<T(!new)>(g: Group<T>, a: T)
    requires Lawful(g)
    ensures g.equal(a, a)
  {
    assert Refl(g, a);
  }

  /** a + (b + c) is b + (a + c). */
  lemma Rotate<T(!new)>(g: Group<T>, a: T, b: T, c: T)
    requires Lawful(g) && Commutative(g)
    ensures g.equal(g.add(a, g.add(b, c)), g.add(b, g.add(a, c)))
  {
    assert Associates(g, a, b, c) && Associates(g, b, a, c) && Commutes(g, a, b);
    SymmE(g, g.add(g.add(a, b), c), g.add(a, g.add(b, c)));
    AddLeftE(g, g.add(a, b), g.add(b, a), c);
    TransE(g, g.add(a, g.add(b, c)), g.add(g.add(a, b), c), g.add(g.add(b, a), c));
    TransE(g, g.add(a, g.add(b, c)), g.add(g.add(b, a), c), g.add(b, g.add(a, c)));
  }

  lemma FindFirst<T>(s: seq<T>, t: seq<T>) returns (i: nat)
    requires s != [] && multiset(s) == multiset(t)
    ensures i < |t| && t[i] == s[0] && multiset(s[1..]) == multiset(Without(t, i))
  {
    assert s[0] in multiset(t);
    i :| 0 <= i < |t| && t[i] == s[0];
    assert s == [s[0]] + s[1..];
    assert multiset(s[1..]) == multiset(s) - multiset{s[0]};
  }

  /** The heap calls only permute the range, so they keep the sum and the total exponent. */
  lemma {:induction false} PermutationKeepsSum<T(!new)>(g: Group<T>, s: seq<Term<T>>, t: seq<Term<T>>)
    requires Lawful(g) && Commutative(g) && multiset(s) == multiset(t)
    ensures g.equal(Sum(g, s), Sum(g, t)) && TotalExponent(s) == TotalExponent(t)
  {
    hide Lawful, Commutative;
    if s == [] {
      assert |multiset(t)| == 0;
      ReflE(g, g.zero);
    } else {
      var i := FindFirst(s, t);
      PermutationKeepsSum(g, s[1..], Without(t, i));
      TakeOut(g, t, i);
      var v := Value(g, s[0]);
      AddRightE(g, v, Sum(g, s[1..]), Sum(g, Without(t, i)));
      SymmE(g, Sum(g, t), g.add(v, Sum(g, Without(t, i))));
      TransE(g, Sum(g, s), g.add(v, Sum(g, Without(t, i))), Sum(g, t));
    }
  }

  /** b * x + (q * b + r) * y is b * (x + q * y) + r * y, whatever stands for q * y. */
  lemma DivideStep<T(!new)>(g: Group<T>, x: T, y: T, b: nat, q: nat, r: nat, qy: T)
    requires Lawful(g) && Commutative(g) && g.equal(qy, Times(g, q, y))
    ensures g.equal(g.add(Times(g, b, x), Times(g, b * q + r, y)), g.add(Times(g, b, g.add(x, qy)), Times(g, r, y)))
  {
    hide Lawful, Commutative, Times;
    var bx, bqy, ry := Times(g, b, x), Times(g, b * q, y), Times(g, r, y);
    var left, right := g.add(bx, Times(g, b * q + r, y)), g.add(Times(g, b, g.add(x, qy)), ry);
    // left = bx + (bqy + ry) = (bx + bqy) + ry
    TimesAdd(g, b * q, r, y);
    SymmE(g, g.add(bqy, ry), Times(g, b * q + r, y));
    AddRightE(g, bx, Times(g, b * q + r, y), g.add(bqy, ry));
    AssociatesE(g, bx, bqy, ry);
    TransE(g, left, g.add(bx, g.add(bqy, ry)), g.add(g.add(bx, bqy), ry));
    // b * (x + qy) = bx + b * qy = bx + bqy
    TimesDistributes(g, b, x, qy);
    TimesRespectsEqual(g, b, qy, Times(g, q, y));
    TimesTimes(g, b, q, y);
    TransE(g, Times(g, b, qy), Times(g, b, Times(g, q, y)), bqy);
    AddRightE(g, bx, Times(g, b, qy), bqy);
    TransE(g, Times(g, b, g.add(x, qy)), g.add(bx, Times(g, b, qy)), g.add(bx, bqy));
    AddLeftE(g, Times(g, b, g.add(x, qy)), g.add(bx, bqy), ry);
    SymmE(g, right, g.add(g.add(bx, bqy), ry));
    TransE(g, left, g.add(g.add(bx, bqy), ry), right);
  }

  lemma AssociatesE<T(!new)>(g: Group<T>, a: T, b: T, c: T)
    requires Lawful(g)
    ensures g.equal(g.add(a, g.add(b, c)), g.add(g.add(a, b), c))
  {
    assert Associates(g, a, b, c);
    SymmE(g, g.add(g.add(a, b), c), g.add(a, g.add(b, c)));
  }

  /** The first and the last term in front of the rest. */
  lemma EndsInFront<T(!new)>(g: Group<T>, s: seq<Term<T>>)
    requires Lawful(g) && Commutative(g) && |s| >= 2
    ensures var n := |s|; g.equal(Sum(g, s), g.add(g.add(Value(g, s[0]), Value(g, s[n - 1])), Sum(g, s[1..n - 1])))
    ensures TotalExponent(s) == s[0].exponent + s[|s| - 1].exponent + TotalExponent(s[1..|s| - 1])
  {
    hide Lawful, Commutative;
    var n, tail := |s|, s[1..];
    var first, last, mid := Value(g, s[0]), Value(g, s[n - 1]), Sum(g, s[1..n - 1]);
    TakeOut(g, tail, n - 2);
    assert Without(tail, n - 2) == s[1..n - 1];
    AddRightE(g, first, Sum(g, tail), g.add(last, mid));
    AssociatesE(g, first, last, mid);
    TransE(g, Sum(g, s), g.add(first, g.add(last, mid)), g.add(g.add(first, last), mid));
  }

  /** One divide step over the range keeps the sum and lowers the total exponent. */
  lemma StepKeepsSum<T(!new)>(g: Group<T>, s: seq<Term<T>>, qy: T)
    requires Lawful(g) && Commutative(g) && |s| >= 2 && 0 < s[0].exponent <= s[|s| - 1].exponent
    requires g.equal(qy, Times(g, s[|s| - 1].exponent / s[0].exponent, s[|s| - 1].element))
    ensures g.equal(Sum(g, s), Sum(g, Divided(g, s, qy)))
    ensures TotalExponent(Divided(g, s, qy)) < TotalExponent(s)
  {
    hide Lawful, Commutative, Times, Sum, TotalExponent;
    var n, t := |s|, Divided(g, s, qy);
    var b, e := s[0].exponent, s[n - 1].exponent;
    assert t[1..n - 1] == s[1..n - 1];
    EndsInFront(g, s);
    EndsInFront(g, t);
    DivideStep(g, s[0].element, s[n - 1].element, b, e / b, e % b, qy);
    assert b * (e / b) + e % b == e;
    var mid := Sum(g, s[1..n - 1]);
    var old2, new2 := g.add(Value(g, s[0]), Value(g, s[n - 1])), g.add(Value(g, t[0]), Value(g, t[n - 1]));
    AddLeftE(g, old2, new2, mid);
    TransE(g, Sum(g, s), g.add(old2, mid), g.add(new2, mid));
    SymmE(g, Sum(g, t), g.add(new2, mid));
    TransE(g, Sum(g, s), g.add(new2, mid), Sum(g, t));
  }

  /** begin's element accumulates qy, last's exponent becomes the remainder. */
  ghost function Divided<T>(g: Group<T>, s: seq<Term<T>>, qy: T): (t: seq<Term<T>>)
    requires |s| >= 2 && s[0].exponent > 0
  {
    var n := |s|;
    var divided := s[0 := Term(s[0].exponent, g.add(s[0].element, qy))];
    divided[n - 1 := Term(s[n - 1].exponent % s[0].exponent, s[n - 1].element)]
  }

  /** On exit every exponent but the last is zero. */
  lemma {:induction false} OnlyLastRemains<T(!new)>(g: Group<T>, s: seq<Term<T>>)
    requires Lawful(g) && |s| > 0
    requires forall i :: 0 <= i < |s| - 1 ==> s[i].exponent == 0
    ensures g.equal(Value(g, s[|s| - 1]), Sum(g, s))
  {
    var v := Value(g, s[|s| - 1]);
    if |s| == 1 {
      assert Neutral(g, v);
      SymmE(g, g.add(v, g.zero), v);
    } else {
      OnlyLastRemains(g, s[1..]);
      assert Neutral(g, Sum(g, s[1..]));
      SymmE(g, g.add(g.zero, Sum(g, s[1..])), Sum(g, s[1..]));
      TransE(g, v, Sum(g, s[1..]), Sum(g, s));
    }
  }

  /** One pass of the loop: the last exponent is the largest, the first the next largest. */
  method DivideLargest<T(0, !new)>(g: Group<T>, range: array<Term<T>>, less: (Term<T>, Term<T>) -> bool)
    requires Lawful(g) && Commutative(g) && ComparesExponents(less) && range.Length > 2
    requires IsHeap(range[..], range.Length - 1) && 0 < range[0].exponent <= range[range.Length - 1].exponent
    modifies range
    ensures IsHeap(range[..], range.Length - 1) && range[0].exponent <= range[range.Length - 1].exponent
    ensures g.equal(Sum(g, old(range[..])), Sum(g, range[..]))
    ensures TotalExponent(range[..]) < TotalExponent(old(range[..]))
  {
    hide *;
    var last := range.Length - 1;
    ghost var before := range[..];
    var q, r := range[last].exponent / range[0].exponent, range[last].exponent % range[0].exponent;
    var multiple := range[last].element;
    if q == 1 {
      TimesOne(g, multiple);
    } else {
      multiple := IntMultiply(g, multiple, q);
    }
    range[0] := range[0].(element := g.add(range[0].element, multiple));
    range[last] := range[last].(exponent := r);
    ghost var divided := range[..];
    DividedIs(g, before, multiple, divided);
    StepKeepsSum(g, before, multiple);
    SameExponents(before, divided, last);

    PushHeap(range, range.Length, less);
    PopHeap(range, less);
    PermutationKeepsSum(g, divided, range[..]);
    TransE(g, Sum(g, before), Sum(g, divided), Sum(g, range[..]));
  }

  method GeneralCascadeMultiplication<T(0, !new)>(g: Group<T>, range: array<Term<T>>, less: (Term<T>, Term<T>) -> bool)
    returns (result: T)
    requires Lawful(g) && Commutative(g) && ComparesExponents(less) && range.Length > 0
    modifies range
    ensures g.equal(result, Sum(g, old(range[..])))
  {
    hide *;
    var last := range.Length - 1;
    ghost var input := range[..];
    assert input == old(range[..]);
    if last == 0 {
      result := IntMultiply(g, range[0].element, range[0].exponent);
      SumOfOne(g, input);
      TransE(g, result, Times(g, input[0].exponent, input[0].element), Sum(g, input));
    } else if last == 1 {
      result := CascadeIntMultiply(g, range[0].element, range[0].exponent, range[1].element, range[1].exponent);
      SumOfTwo(g, input);
      TransE(g, result, g.add(Times(g, input[0].exponent, input[0].element),
                              Times(g, input[1].exponent, input[1].element)), Sum(g, input));
    } else {
      MakeHeap(range, less);
      PopHeap(range, less);
      PermutationKeepsSum(g, input, range[..]);
      while range[0].exponent != 0
        invariant IsHeap(range[..], last) && range[0].exponent <= range[last].exponent
        invariant g.equal(Sum(g, input), Sum(g, range[..]))
        decreases TotalExponent(range[..])
      {
        ghost var before := range[..];
        DivideLargest(g, range, less);
        TransE(g, Sum(g, input), Sum(g, before), Sum(g, range[..]));
      }
      RootZero(range[..], last);
      OnlyLastRemains(g, range[..]);
      result := IntMultiply(g, range[last].element, range[last].exponent);
      LastValue(g, result, range[..]);
      SymmE(g, Sum(g, input), Sum(g, range[..]));
      TransE(g, result, Sum(g, range[..]), Sum(g, input));
    }
  }

  lemma SumOfOne<T(!new)>(g: Group<T>, s: seq<Term<T>>)
    requires Lawful(g) && |s| == 1
    ensures g.equal(Times(g, s[0].exponent, s[0].element), Sum(g, s))
  {
    OnlyLastRemains(g, s);
  }

  lemma SumOfTwo<T(!new)>(g: Group<T>, s: seq<Term<T>>)
    requires Lawful(g) && |s| == 2
    ensures g.equal(g.add(Times(g, s[0].exponent, s[0].element), Times(g, s[1].exponent, s[1].element)), Sum(g, s))
  {
    SumOfOne(g, s[1..]);
    AddRightE(g, Value(g, s[0]), Value(g, s[1]), Sum(g, s[1..]));
  }

  lemma LastValue<T(!new)>(g: Group<T>, result: T, s: seq<Term<T>>)
    requires Lawful(g) && |s| > 0 && g.equal(Value(g, s[|s| - 1]), Sum(g, s))
    requires g.equal(result, Times(g, s[|s| - 1].exponent, s[|s| - 1].element))
    ensures g.equal(result, Sum(g, s))
  {
    TransE(g, result, Value(g, s[|s| - 1]), Sum(g, s));
  }

  lemma DividedIs<T>(g: Group<T>, s: seq<Term<T>>, qy: T, t: seq<Term<T>>)
    requires |t| == |s| >= 2 && s[0].exponent > 0
    requires t[0] == Term(s[0].exponent, g.add(s[0].element, qy))
    requires t[|s| - 1] == Term(s[|s| - 1].exponent % s[0].exponent, s[|s| - 1].element)
    requires forall i :: 0 < i < |s| - 1 ==> t[i] == s[i]
    ensures t == Divided(g, s, qy)
  {}

  lemma SameExponents<T>(s: seq<Term<T>>, t: seq<Term<T>>, n: nat)
    requires IsHeap(s, n) && n <= |t| && forall i :: 0 <= i < n ==> t[i].exponent == s[i].exponent
    ensures IsHeap(t, n)
  {}

  lemma RootZero<T>(s: seq<Term<T>>, n: nat)
    requires IsHeap(s, n) && 0 < n && s[0].exponent == 0
    ensures forall i :: 0 <= i < n ==> s[i].exponent == 0
  {
    forall i | 0 <= i < n ensures s[i].exponent == 0 { RootIsLargest(s, n, i); }
  }
}
