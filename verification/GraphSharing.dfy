/** Which bodies a session writes more than once: exactly the plain objects that are mentioned more than once. */
module GraphSharing {
  import opened ObjectGraph
  import opened GraphWriter

  // ---- the objects of a session ----

  predicate LinksTo(memory: Memory, a: Ptr, b: Ptr) { a in memory && Link(b) in memory[a].fields }

  /** Each object of the path has a link to the next. */
  predicate Path(memory: Memory, path: seq<Ptr>) {
    path != [] && forall i :: 0 < i < |path| ==> LinksTo(memory, path[i - 1], path[i])
  }

  ghost predicate Reaches(memory: Memory, roots: seq<Ptr>, a: Ptr) {
    exists path :: Path(memory, path) && path[0] in roots && path[|path| - 1] == a
  }

  ghost function Reachable(memory: Memory, roots: seq<Ptr>): set<Ptr> {
    set a | a in memory && Reaches(memory, roots, a)
  }

  /** Where a session finds a pointer: among its roots, or in a body. */
  datatype Mention = Root(index: nat) | LinkFrom(owner: Ptr, index: nat)

  ghost predicate Mentions(memory: Memory, roots: seq<Ptr>, m: Mention, a: Ptr) {
    match m
    case Root(j) => j < |roots| && roots[j] == a
    case LinkFrom(b, i) =>
      b in Reachable(memory, roots) && i < |memory[b].fields| && memory[b].fields[i] == Link(a)
  }

  /** Every plain object of the session is mentioned once. */
  ghost predicate PlainOnce(c: Classes, memory: Memory, roots: seq<Ptr>) {
    forall a, m, m' ::
      a in memory && !Counted(c, memory, a) && Mentions(memory, roots, m, a) && Mentions(memory, roots, m', a) ==>
        m == m'
  }

  /** What a session writes, from an empty table */
  ghost predicate SessionWritten(c: Classes, memory: Memory, rank: map<Ptr, nat>, roots: seq<Ptr>, w: Written) {
    && Graph(c, memory, rank) && (forall p :: p in roots ==> p in memory)
    && Effect(c, memory, EMPTY, multiset(roots), w)
  }

  // ---- the links of what was written ----

  lemma {:induction false} InTargets(fields: seq<Field>, a: Ptr)
    ensures Targets(fields)[a] == multiset(fields)[Link(a)]
    ensures a in Targets(fields) <==> Link(a) in fields
  {
    if fields != [] {
      InTargets(fields[1..], a);
      assert fields == [fields[0]] + fields[1..];
      assert multiset(fields) == multiset{fields[0]} + multiset(fields[1..]);
    }
  }

  lemma {:induction false} InAllTargets(memory: Memory, made: seq<Ptr>, a: Ptr)
    ensures a in AllTargets(memory, made) <==> exists b :: b in made && LinksTo(memory, b, a)
  {
    hide Targets;
    if made != [] {
      InAllTargets(memory, made[1..], a);
      if made[0] in memory { InTargets(memory[made[0]].fields, a); }
      assert a in TargetsOf(memory, made[0]) <==> LinksTo(memory, made[0], a);
      assert forall b :: b in made <==> b == made[0] || b in made[1..];
    }
  }

  lemma LinkGoesDown(c: Classes, memory: Memory, rank: map<Ptr, nat>, a: Ptr, b: Ptr)
    requires Graph(c, memory, rank) && LinksTo(memory, a, b)
    ensures a in rank && b in memory && b in rank && rank[b] < rank[a]
  {
    hide Shaped;
    var i :| 0 <= i < |memory[a].fields| && memory[a].fields[i] == Link(b);
    assert LinksBelow(memory, rank, memory[a].fields, rank[a]);
  }

  // ---- what is written is what is reachable ----

  ghost predicate RanksBelow(rank: map<Ptr, nat>, made: seq<Ptr>, n: nat) {
    forall b :: b in made ==> b in rank && rank[b] < n
  }

  lemma {:induction false} RankBound(rank: map<Ptr, nat>, made: seq<Ptr>) returns (n: nat)
    requires forall b :: b in made ==> b in rank
    ensures RanksBelow(rank, made, n)
  {
    n := 0;
    if made != [] {
      assert forall b :: b in made <==> b == made[0] || b in made[1..];
      n := RankBound(rank, made[1..]);
      if n <= rank[made[0]] { n := rank[made[0]] + 1; }
    }
  }

  lemma MadeInGraph(c: Classes, memory: Memory, rank: map<Ptr, nat>, roots: seq<Ptr>, w: Written) returns (n: nat)
    requires SessionWritten(c, memory, rank, roots, w)
    ensures (forall a :: a in w.made ==> a in memory) && RanksBelow(rank, w.made, n)
  {
    n := RankBound(rank, w.made);
  }

  lemma {:induction false} WrittenIsReached(c: Classes, memory: Memory, rank: map<Ptr, nat>, roots: seq<Ptr>,
                                            w: Written, n: nat, a: Ptr)
    requires SessionWritten(c, memory, rank, roots, w) && RanksBelow(rank, w.made, n) && a in w.made
    ensures Reaches(memory, roots, a)
    decreases n - rank[a]
  {
    assert a in multiset(roots) || a in AllTargets(memory, w.made);
    hide SessionWritten;
    if a in roots {
      assert Path(memory, [a]) && [a][0] in roots && [a][|[a]| - 1] == a;
    } else {
      InAllTargets(memory, w.made, a);
      var b :| b in w.made && LinksTo(memory, b, a);
      assert rank[b] > rank[a] by {
        assert SessionWritten(c, memory, rank, roots, w);
        LinkGoesDown(c, memory, rank, b, a);
      }
      WrittenIsReached(c, memory, rank, roots, w, n, b);
      var path :| Path(memory, path) && path[0] in roots && path[|path| - 1] == b;
      LongerPath(memory, path, a);
    }
  }

  lemma LongerPath(memory: Memory, path: seq<Ptr>, a: Ptr)
    requires Path(memory, path) && LinksTo(memory, path[|path| - 1], a)
    ensures Path(memory, path + [a]) && (path + [a])[0] == path[0] && (path + [a])[|path + [a]| - 1] == a
  {}

  lemma {:induction false} ReachedIsWritten(c: Classes, memory: Memory, rank: map<Ptr, nat>, roots: seq<Ptr>,
                                            w: Written, path: seq<Ptr>)
    requires SessionWritten(c, memory, rank, roots, w) && Path(memory, path) && path[0] in roots
    ensures path[|path| - 1] in w.made
    decreases |path|
  {
    var a, n := path[|path| - 1], |path| - 1;
    if n == 0 {
      assert a in multiset(roots);
    } else {
      assert Path(memory, path[..n]) && path[..n][|path[..n]| - 1] == path[n - 1];
      ReachedIsWritten(c, memory, rank, roots, w, path[..n]);
      InAllTargets(memory, w.made, a);
      assert LinksTo(memory, path[n - 1], a);
    }
  }

  /** The bodies written are those of the objects that the roots lead to. */
  lemma MadeIsReachable(c: Classes, memory: Memory, rank: map<Ptr, nat>, roots: seq<Ptr>, w: Written)
    requires SessionWritten(c, memory, rank, roots, w)
    ensures forall a :: a in w.made <==> a in Reachable(memory, roots)
  {
    var n := MadeInGraph(c, memory, rank, roots, w);
    forall a ensures a in w.made <==> a in Reachable(memory, roots) {
      if a in w.made { WrittenIsReached(c, memory, rank, roots, w, n, a); }
      if a in Reachable(memory, roots) {
        var path :| Path(memory, path) && path[0] in roots && path[|path| - 1] == a;
        ReachedIsWritten(c, memory, rank, roots, w, path);
      }
    }
  }

  // ---- which bodies are written twice ----

  ghost predicate NoneTwice(made: seq<Ptr>) { forall a :: multiset(made)[a] <= 1 }

  lemma {:induction false} TwoPlaces<T>(s: seq<T>, x: T) returns (i: nat, j: nat)
    requires multiset(s)[x] >= 2
    ensures i < j < |s| && s[i] == x && s[j] == x
  {
    assert s == [s[0]] + s[1..] && multiset(s) == multiset{s[0]} + multiset(s[1..]);
    if s[0] == x {
      assert x in multiset(s[1..]);
      var k :| 0 <= k < |s[1..]| && s[1..][k] == x;
      i, j := 0, k + 1;
    } else {
      i, j := TwoPlaces(s[1..], x);
      i, j := i + 1, j + 1;
    }
  }

  lemma FoundTwice<T>(s: seq<T>, i: nat, j: nat)
    requires i < |s| && j < |s| && i != j && s[i] == s[j]
    ensures multiset(s)[s[i]] >= 2
  {
    var lo, hi := if i < j then i else j, if i < j then j else i;
    assert s == s[..hi] + s[hi..] && multiset(s) == multiset(s[..hi]) + multiset(s[hi..]);
    assert s[..hi][lo] == s[lo] && s[hi..][0] == s[hi];
  }

  /** A link found in one of the bodies */
  lemma {:induction false} FindLink(memory: Memory, made: seq<Ptr>, a: Ptr) returns (k: nat, i: nat)
    requires AllTargets(memory, made)[a] >= 1
    ensures k < |made| && made[k] in memory && i < |memory[made[k]].fields| && memory[made[k]].fields[i] == Link(a)
  {
    InAllTargets(memory, made, a);
    var b :| b in made && LinksTo(memory, b, a);
    k :| 0 <= k < |made| && made[k] == b;
    i :| 0 <= i < |memory[b].fields| && memory[b].fields[i] == Link(a);
  }

  /** Two links found in different places of the bodies */
  lemma {:induction false} FindTwoLinks(memory: Memory, made: seq<Ptr>, a: Ptr)
    returns (k: nat, i: nat, k': nat, i': nat)
    requires AllTargets(memory, made)[a] >= 2
    ensures (k, i) != (k', i') && k < |made| && k' < |made| && made[k] in memory && made[k'] in memory
    ensures i < |memory[made[k]].fields| && memory[made[k]].fields[i] == Link(a)
    ensures i' < |memory[made[k']].fields| && memory[made[k']].fields[i'] == Link(a)
    decreases |made|
  {
    hide Targets;
    var here := TargetsOf(memory, made[0])[a];
    if made[0] in memory { InTargets(memory[made[0]].fields, a); }
    if here >= 2 {
      k, k' := 0, 0;
      i, i' := TwoPlaces(memory[made[0]].fields, Link(a));
    } else if here == 1 {
      k := 0;
      i :| 0 <= i < |memory[made[0]].fields| && memory[made[0]].fields[i] == Link(a);
      k', i' := FindLink(memory, made[1..], a);
      k' := k' + 1;
    } else {
      k, i, k', i' := FindTwoLinks(memory, made[1..], a);
      k, k' := k + 1, k' + 1;
    }
  }

  /** A plain object wanted twice, by bodies written once, is mentioned twice. */
  lemma WantedTwice(memory: Memory, roots: seq<Ptr>, made: seq<Ptr>, a: Ptr) returns (m: Mention, m': Mention)
    requires multiset(roots)[a] + AllTargets(memory, made)[a] >= 2
    requires forall b :: b in made <==> b in Reachable(memory, roots)
    requires forall b :: b in made && LinksTo(memory, b, a) ==> multiset(made)[b] <= 1
    ensures m != m' && Mentions(memory, roots, m, a) && Mentions(memory, roots, m', a)
  {
    hide AllTargets, Reachable;
    if multiset(roots)[a] >= 2 {
      var i, j := TwoPlaces(roots, a);
      m, m' := Root(i), Root(j);
    } else if AllTargets(memory, made)[a] >= 2 {
      var k, i, k', i' := FindTwoLinks(memory, made, a);
      m, m' := LinkFrom(made[k], i), LinkFrom(made[k'], i');
      if k != k' && made[k] == made[k'] {
        assert LinksTo(memory, made[k], a);
        FoundTwice(made, k, k');
      }
    } else {
      assert a in multiset(roots);
      var j :| 0 <= j < |roots| && roots[j] == a;
      var k, i := FindLink(memory, made, a);
      m, m' := Root(j), LinkFrom(made[k], i);
    }
  }

  /** If every plain object is mentioned once, its body is written once, those above it being written once. */
  lemma {:induction false} WrittenOnce(c: Classes, memory: Memory, rank: map<Ptr, nat>, roots: seq<Ptr>, w: Written,
                                       n: nat, a: Ptr)
    requires SessionWritten(c, memory, rank, roots, w) && RanksBelow(rank, w.made, n) && PlainOnce(c, memory, roots)
    requires a in rank && a in w.made
    ensures multiset(w.made)[a] <= 1
    decreases n - rank[a]
  {
    hide AllTargets, Reachable, Mentions, Graph;
    if multiset(w.made)[a] > 1 {
      assert !Counted(c, memory, a) && a in memory;
      assert multiset(w.made)[a] == multiset(roots)[a] + AllTargets(memory, w.made)[a];
      MadeIsReachable(c, memory, rank, roots, w);
      hide SessionWritten, Counted;
      forall b | b in w.made && LinksTo(memory, b, a) ensures multiset(w.made)[b] <= 1 {
        assert b in rank && rank[b] > rank[a] by {
          assert SessionWritten(c, memory, rank, roots, w);
          LinkGoesDown(c, memory, rank, b, a);
        }
        WrittenOnce(c, memory, rank, roots, w, n, b);
      }
      var m, m' := WantedTwice(memory, roots, w.made, a);
      assert false;
    }
  }

  /** One body, and two bodies, among those written */
  lemma {:induction false} BodyCounts(memory: Memory, made: seq<Ptr>, b: Ptr, a: Ptr)
    requires b in made
    ensures AllTargets(memory, made)[a] >= TargetsOf(memory, b)[a]
  {
    hide TargetsOf;
    if b != made[0] { BodyCounts(memory, made[1..], b, a); }
  }

  lemma {:induction false} TwoBodiesCount(memory: Memory, made: seq<Ptr>, b: Ptr, b': Ptr, a: Ptr)
    requires b in made && b' in made && b != b'
    ensures AllTargets(memory, made)[a] >= TargetsOf(memory, b)[a] + TargetsOf(memory, b')[a]
  {
    hide TargetsOf;
    if b == made[0] {
      BodyCounts(memory, made[1..], b', a);
    } else if b' == made[0] {
      BodyCounts(memory, made[1..], b, a);
    } else {
      TwoBodiesCount(memory, made[1..], b, b', a);
    }
  }

  lemma LinkCounts(memory: Memory, b: Ptr, i: nat, a: Ptr)
    requires b in memory && i < |memory[b].fields| && memory[b].fields[i] == Link(a)
    ensures TargetsOf(memory, b)[a] >= 1
  {
    InTargets(memory[b].fields, a);
  }

  /** Two mentions of a plain object make two bodies. */
  lemma TwoMentions(c: Classes, memory: Memory, rank: map<Ptr, nat>, roots: seq<Ptr>, w: Written, a: Ptr,
                    m: Mention, m': Mention)
    requires SessionWritten(c, memory, rank, roots, w) && !Counted(c, memory, a)
    requires Mentions(memory, roots, m, a) && Mentions(memory, roots, m', a) && m != m'
    ensures multiset(w.made)[a] >= 2
  {
    assert multiset(w.made)[a] == multiset(roots)[a] + AllTargets(memory, w.made)[a];
    MadeIsReachable(c, memory, rank, roots, w);
    hide SessionWritten, AllTargets, Counted, Reachable, TargetsOf;
    if m.Root? && m'.Root? {
      FoundTwice(roots, m.index, m'.index);
    } else if m.LinkFrom? && m'.LinkFrom? && m.owner == m'.owner {
      var fields := memory[m.owner].fields;
      FoundTwice(fields, m.index, m'.index);
      InTargets(fields, a);
      BodyCounts(memory, w.made, m.owner, a);
      assert TargetsOf(memory, m.owner) == Targets(fields);
    } else {
      if m.LinkFrom? {
        LinkCounts(memory, m.owner, m.index, a);
        BodyCounts(memory, w.made, m.owner, a);
      }
      if m'.LinkFrom? {
        LinkCounts(memory, m'.owner, m'.index, a);
        BodyCounts(memory, w.made, m'.owner, a);
      }
      if m.LinkFrom? && m'.LinkFrom? { TwoBodiesCount(memory, w.made, m.owner, m'.owner, a); }
    }
  }

  /** No body is written twice exactly when every plain object is mentioned once. */
  lemma WrittenTwice(c: Classes, memory: Memory, rank: map<Ptr, nat>, roots: seq<Ptr>, w: Written)
    requires SessionWritten(c, memory, rank, roots, w)
    ensures NoneTwice(w.made) <==> PlainOnce(c, memory, roots)
  {
    if PlainOnce(c, memory, roots) {
      var n := MadeInGraph(c, memory, rank, roots, w);
      forall a ensures multiset(w.made)[a] <= 1 {
        if a in w.made { WrittenOnce(c, memory, rank, roots, w, n, a); }
      }
    }
    if NoneTwice(w.made) {
      forall a, m, m' |
        a in memory && !Counted(c, memory, a) && Mentions(memory, roots, m, a) && Mentions(memory, roots, m', a)
        ensures m == m'
      {
        if m != m' { TwoMentions(c, memory, rank, roots, w, a, m, m'); }
      }
    }
  }
}
