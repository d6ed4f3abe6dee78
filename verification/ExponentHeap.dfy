/** The std::make_heap, push_heap and pop_heap calls of GeneralCascadeMultiplication, on pairs
    (exponent, element).  Only the exponents are kept in heap order: the comparison `less` may break ties
    by the element, but the algorithm changes elements inside the heap. */
module ExponentHeap {

  datatype Term<T> = Term(exponent: nat, element: T)

  /** `less` compares exponents first; what it does on equal exponents is left open. */
  ghost predicate ComparesExponents<T(!new)>(less: (Term<T>, Term<T>) -> bool) {
    forall a: Term<T>, b: Term<T> :: if less(a, b) then a.exponent <= b.exponent else a.exponent >= b.exponent
  }

  function Parent(i: nat): (p: nat)
    requires i > 0
    ensures p < i
  {
    (i - 1) / 2
  }

  /** Heap order of the first n elements. */
  ghost predicate IsHeap<T>(s: seq<Term<T>>, n: nat) {
    n <= |s| && forall i :: 0 < i < n ==> s[Parent(i)].exponent >= s[i].exponent
  }

  lemma {:induction false} RootIsLargest<T>(s: seq<Term<T>>, n: nat, i: nat)
    requires IsHeap(s, n) && i < n
    ensures s[0].exponent >= s[i].exponent
  {
    if i > 0 { RootIsLargest(s, n, Parent(i)); }
  }

  function Swap<T>(s: seq<T>, i: nat, j: nat): (t: seq<T>)
    requires i < |s| && j < |s|
    ensures |t| == |s| && multiset(t) == multiset(s) && t[j] == s[i]
    ensures forall q :: 0 <= q < |s| && q != i && q != j ==> t[q] == s[q]
  {
    s[i := s[j]][j := s[i]]
  }

  method SwapElements<T>(a: array<T>, i: nat, j: nat)
    requires i < a.Length && j < a.Length
    modifies a
    ensures a[..] == Swap(old(a[..]), i, j)
  {
    a[i], a[j] := a[j], a[i];
  }

  /** Heap order but for element k, which may exceed its parent; its children are below its parent. */
  ghost predicate RisingAt<T>(s: seq<Term<T>>, n: nat, k: nat) {
    && k < n <= |s|
    && (forall i :: 0 < i < n && i != k ==> s[Parent(i)].exponent >= s[i].exponent)
    && (forall i :: 0 < i < n && k > 0 && Parent(i) == k ==> s[Parent(k)].exponent >= s[i].exponent)
  }

  lemma Rise<T>(s: seq<Term<T>>, n: nat, k: nat)
    requires RisingAt(s, n, k) && k > 0 && s[Parent(k)].exponent <= s[k].exponent
    ensures RisingAt(Swap(s, Parent(k), k), n, Parent(k))
  {
    var p, t := Parent(k), Swap(s, Parent(k), k);
    forall i | 0 < i < n && i != p ensures t[Parent(i)].exponent >= t[i].exponent {
      assert i != k ==> s[Parent(i)].exponent >= s[i].exponent;
    }
    forall i | 0 < i < n && p > 0 && Parent(i) == p ensures t[Parent(p)].exponent >= t[i].exponent {
      assert s[Parent(p)].exponent >= s[p].exponent;
      assert i != k ==> s[p].exponent >= s[i].exponent;
    }
  }

  /** push_heap(begin, end): the last element joins the heap before it. */
  method PushHeap<T(!new)>(a: array<Term<T>>, n: nat, less: (Term<T>, Term<T>) -> bool)
    requires 0 < n <= a.Length && ComparesExponents(less) && IsHeap(a[..], n - 1)
    modifies a
    ensures IsHeap(a[..], n) && multiset(a[..]) == multiset(old(a[..]))
  {
    hide Parent;
    var k: nat := n - 1;
    assert RisingAt(a[..], n, k) by { NothingBelow(n); }
    while k > 0 && less(a[Parent(k)], a[k])
      invariant k < n && multiset(a[..]) == multiset(old(a[..]))
      invariant RisingAt(a[..], n, k)
    {
      hide RisingAt;
      var p := Parent(k);
      Rise(a[..], n, k);
      SwapElements(a, p, k);
      k := p;
    }
  }

  lemma NothingBelow(n: nat)
    requires n > 0
    ensures forall i :: 0 < i < n ==> Parent(i) != n - 1
  {}

  /** Heap order but for the children of k, which are below k's parent. */
  ghost predicate SinkingAt<T>(s: seq<Term<T>>, m: nat, k: nat) {
    && m <= |s|
    && (forall i :: 0 < i < m && Parent(i) != k ==> s[Parent(i)].exponent >= s[i].exponent)
    && (forall i :: 0 < i < m && Parent(i) == k && k > 0 ==> s[Parent(k)].exponent >= s[i].exponent)
  }

  lemma Sink<T>(s: seq<Term<T>>, m: nat, k: nat, c: nat)
    requires SinkingAt(s, m, k) && 0 < c < m && Parent(c) == k && s[k].exponent <= s[c].exponent
    requires forall i :: 0 < i < m && Parent(i) == k ==> s[i].exponent <= s[c].exponent
    ensures SinkingAt(Swap(s, k, c), m, c)
  {
    var t := Swap(s, k, c);
    forall i | 0 < i < m && Parent(i) != c ensures t[Parent(i)].exponent >= t[i].exponent {
      if Parent(i) != k { assert s[Parent(i)].exponent >= s[i].exponent; }
    }
    forall i | 0 < i < m && Parent(i) == c ensures t[k].exponent >= t[i].exponent {
      assert s[Parent(i)].exponent >= s[i].exponent;
    }
  }

  method SiftDown<T(!new)>(a: array<Term<T>>, m: nat, less: (Term<T>, Term<T>) -> bool)
    requires m < a.Length && ComparesExponents(less) && SinkingAt(a[..], m, 0)
    modifies a
    ensures IsHeap(a[..], m) && multiset(a[..]) == multiset(old(a[..])) && a[m] == old(a[m])
  {
    hide *;
    var k := 0;
    while 2 * k + 1 < m
      invariant multiset(a[..]) == multiset(old(a[..])) && a[m] == old(a[m])
      invariant SinkingAt(a[..], m, k)
      decreases m - k
    {
      var c := 2 * k + 1;
      if c + 1 < m && less(a[c], a[c + 1]) { c := c + 1; }
      Compared(less, a[..], m, k, c);
      Children(a[..], m, k, c);
      if !less(a[k], a[c]) {
        SunkIsHeap(a[..], m, k, c);
        return;
      }
      Sink(a[..], m, k, c);
      label L:
      SwapElements(a, k, c);
      assert a[m] == a[..][m] == old@L(a[..])[m];
      k := c;
    }
    NoChildren(a[..], m, k);
  }

  /** pop_heap(begin, end): the largest element goes to the end, the rest stays a heap. */
  method PopHeap<T(!new)>(a: array<Term<T>>, less: (Term<T>, Term<T>) -> bool)
    requires a.Length > 0 && ComparesExponents(less) && IsHeap(a[..], a.Length)
    modifies a
    ensures IsHeap(a[..], a.Length - 1) && multiset(a[..]) == multiset(old(a[..]))
    ensures forall i :: 0 <= i < a.Length ==> a[i].exponent <= a[a.Length - 1].exponent
  {
    hide *;
    var m := a.Length - 1;
    RootReplaced(a[..], m);
    SwapElements(a, 0, m);
    assert a[m] == a[..][m] == old(a[..])[0];
    SiftDown(a, m, less);
    LargestLast(old(a[..]), a[..]);
  }

  lemma LargestLast<T>(s: seq<Term<T>>, t: seq<Term<T>>)
    requires |s| > 0 && IsHeap(s, |s|) && multiset(t) == multiset(s) && |t| == |s| && t[|s| - 1] == s[0]
    ensures forall i :: 0 <= i < |t| ==> t[i].exponent <= t[|t| - 1].exponent
  {
    forall i | 0 <= i < |t| ensures t[i].exponent <= s[0].exponent {
      assert t[i] in multiset(s);
      var j :| 0 <= j < |s| && s[j] == t[i];
      RootIsLargest(s, |s|, j);
    }
  }

  lemma RootReplaced<T>(s: seq<Term<T>>, m: nat)
    requires IsHeap(s, m + 1) && |s| == m + 1
    ensures SinkingAt(Swap(s, 0, m), m, 0)
  {}

  lemma NoChildren<T>(s: seq<Term<T>>, m: nat, k: nat)
    requires SinkingAt(s, m, k) && 2 * k + 1 >= m
    ensures IsHeap(s, m)
  {}

  lemma Compared<T(!new)>(less: (Term<T>, Term<T>) -> bool, s: seq<Term<T>>, m: nat, k: nat, c: nat)
    requires ComparesExponents(less) && m <= |s| && 2 * k + 1 < m
    requires c == if 2 * k + 2 < m && less(s[2 * k + 1], s[2 * k + 2]) then 2 * k + 2 else 2 * k + 1
    ensures s[2 * k + 1].exponent <= s[c].exponent && (2 * k + 2 < m ==> s[2 * k + 2].exponent <= s[c].exponent)
    ensures if less(s[k], s[c]) then s[k].exponent <= s[c].exponent else s[k].exponent >= s[c].exponent
  {}

  /** The larger of the two children bounds all children. */
  lemma Children<T>(s: seq<Term<T>>, m: nat, k: nat, c: nat)
    requires 2 * k + 1 < m <= |s| && 2 * k + 1 <= c <= 2 * k + 2 && c < m
    requires s[2 * k + 1].exponent <= s[c].exponent
    requires 2 * k + 2 < m ==> s[2 * k + 2].exponent <= s[c].exponent
    ensures Parent(c) == k && forall i :: 0 < i < m && Parent(i) == k ==> s[i].exponent <= s[c].exponent
  {}

  lemma SunkIsHeap<T>(s: seq<Term<T>>, m: nat, k: nat, c: nat)
    requires SinkingAt(s, m, k) && c < m && k < m && s[k].exponent >= s[c].exponent
    requires forall i :: 0 < i < m && Parent(i) == k ==> s[i].exponent <= s[c].exponent
    ensures IsHeap(s, m)
  {}

  method MakeHeap<T(!new)>(a: array<Term<T>>, less: (Term<T>, Term<T>) -> bool)
    requires ComparesExponents(less)
    modifies a
    ensures IsHeap(a[..], a.Length) && multiset(a[..]) == multiset(old(a[..]))
  {
    for n := 0 to a.Length
      invariant IsHeap(a[..], n) && multiset(a[..]) == multiset(old(a[..]))
    {
      PushHeap(a, n + 1, less);
    }
  }
}
