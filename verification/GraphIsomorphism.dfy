/** What a session that was written and read back leaves: always copies of all that was written, with exactly the
    sharing of reference-counted objects; the same graph exactly when every plain object was mentioned once. */
module GraphIsomorphism {
  import opened ObjectGraph
  import opened GraphWriter
  import opened GraphSharing
  import opened GraphReader
  import opened GraphRoundTrip

  /** The objects that reading added to heap k */
  ghost function NewObjects(k: Heap, k': Heap): set<Ptr> { k'.objects.Keys - k.objects.Keys }

  /** The n addresses from base on */
  ghost function Addresses(base: Ptr, n: nat): (s: set<Ptr>)
    ensures |s| == n && forall b :: b in s <==> base <= b < base + n
  {
    if n == 0 then {} else Addresses(base, n - 1) + {base + n - 1}
  }

  // ---- what always holds ----

  /** The state after a session over heap k: one new object for each body written, at the next addresses in turn, a
      copy of its object; the roots read are copies of the roots; ids name the copies of what they name, with one
      count for each record; what was there before is untouched. */
  ghost predicate Unfolded(memory: Memory, k: Heap, s: State, roots: seq<Ptr>, qs: seq<Ptr>) {
    && NewObjects(k, s.k) == Addresses(k.next, |s.made|) && NewCopied(memory, k, s)
    && RootsCopied(k.next, s.made, roots, qs)
    && Inverse(s.t) && Inverse(s.r) && s.t.idToObj.Keys == s.r.idToObj.Keys && AllShared(k.next, s)
    && Untouched(k, s.k)
  }

  ghost predicate NewCopied(memory: Memory, k: Heap, s: State) {
    forall b :: b in s.k.objects && k.next <= b < k.next + |s.made| ==>
                  ObjectCopied(k.next, memory, s.made, s.made[b - k.next], s.k.objects[b])
  }

  ghost predicate Untouched(k: Heap, k': Heap) {
    forall a :: a in k.objects ==> a in k'.objects && k'.objects[a] == k.objects[a]
  }

  function Start(k: Heap): State { State(EMPTY, EMPTY, k, [], []) }

  /** The session's state at the end */
  ghost function Finished(w: Written, read: Read<seq<Ptr>>): State {
    State(w.table, read.table, read.heap, w.names, w.made)
  }

  /** Writing the roots of a registered acyclic graph and reading as many objects back, over any heap and with anything
      after them in the archive, succeeds.  Ids are 1..n in the order of first visits. */
  lemma RoundTrip(c: Classes, memory: Memory, rank: map<Ptr, nat>, roots: seq<Ptr>, k: Heap, tail: seq<int>)
    requires Graph(c, memory, rank) && AllRegistered(c, memory) && forall p :: p in roots ==> p in memory
    requires forall a :: a in k.objects ==> a < k.next
    ensures WriteRoots(c, memory, rank, EMPTY, roots).Ok?
    ensures var w := WriteRoots(c, memory, rank, EMPTY, roots).value;
            var read := ReadRoots(c, k, EMPTY, |roots|, w.words + tail);
            && read.Ok? && read.value.rest == tail
            && Unfolded(memory, k, Finished(w, read.value), roots, read.value.value)
            && Numbered(w.table) && FirstVisitOrder(0, w.names, |w.table.idToObj|)
            && SessionWritten(c, memory, rank, roots, w)
  {
    hide Graph, AllRegistered, WriteRoots, ReadRoots, Effect, Linked, Progress;
    EmptyTable(c, memory);
    RootsEffect(c, memory, rank, EMPTY, roots);
    StartLinked(c, memory, k);
    RootsRoundTrip(c, memory, rank, k.next, Start(k), roots, tail);
    var w := WriteRoots(c, memory, rank, EMPTY, roots).value;
    var read := ReadRoots(c, k, EMPTY, |roots|, w.words + tail).value;
    assert [] + w.names == w.names && [] + w.made == w.made;
    EffectOrder(c, memory, EMPTY, multiset(roots), w);
    AllClosed(c, memory, k, Finished(w, read), roots, read.value);
  }

  lemma EffectOrder(c: Classes, memory: Memory, t: Table, wanted: multiset<Ptr>, w: Written)
    requires Effect(c, memory, t, wanted, w)
    ensures FirstVisitOrder(|t.idToObj|, w.names, |w.table.idToObj|) && Numbered(w.table)
  {}

  lemma EmptyTable(c: Classes, memory: Memory)
    ensures GoodTable(c, memory, EMPTY)
  {}

  lemma StartLinked(c: Classes, memory: Memory, k: Heap)
    requires forall a :: a in k.objects ==> a < k.next
    ensures Linked(c, memory, k.next, Start(k)) && NothingOpen(Start(k))
  {}

  lemma AllClosed(c: Classes, memory: Memory, k: Heap, s: State, roots: seq<Ptr>, qs: seq<Ptr>)
    requires forall a :: a in k.objects ==> a < k.next
    requires Linked(c, memory, k.next, s) && Progress(k.next, Start(k), s) && RootsCopied(k.next, s.made, roots, qs)
    ensures Unfolded(memory, k, s, roots, qs)
  {
    assert AllShared(k.next, s) && AllCopied(memory, k.next, s) && Inverse(s.t) && Inverse(s.r);
    hide Linked, Inverse, AllShared, AllCopied, Progress, RootsCopied, NewCopied, Untouched, NewObjects, Addresses;
    AddressesClosed(memory, k, s);
    IdsClosed(k, s);
    NewAreCopied(memory, k, s);
    OldUntouched(k, s);
  }

  lemma NewAreCopied(memory: Memory, k: Heap, s: State)
    requires AllCopied(memory, k.next, s)
    ensures NewCopied(memory, k, s)
  {
    hide ObjectCopied;
  }

  lemma OldUntouched(k: Heap, s: State)
    requires Progress(k.next, Start(k), s) && forall a :: a in k.objects ==> a < k.next
    ensures Untouched(k, s.k)
  {
    hide OpenId, OpenAddress, SubTable;
  }

  lemma AddressesClosed(memory: Memory, k: Heap, s: State)
    requires forall a :: a in k.objects ==> a < k.next
    requires AllCopied(memory, k.next, s) && Progress(k.next, Start(k), s)
    ensures NewObjects(k, s.k) == Addresses(k.next, |s.made|)
  {
    hide ObjectCopied, Addresses, OpenId, SubTable;
    forall b: Ptr ensures b in NewObjects(k, s.k) <==> b in Addresses(k.next, |s.made|) {
      assert OpenAddress(k.next, s, b) <==> OpenAddress(k.next, Start(k), b);
    }
  }

  lemma IdsClosed(k: Heap, s: State)
    requires AllShared(k.next, s) && Progress(k.next, Start(k), s)
    ensures s.t.idToObj.Keys == s.r.idToObj.Keys
  {
    hide OpenAddress, SubTable, IsCopy;
    forall i ensures i in s.t.idToObj.Keys <==> i in s.r.idToObj.Keys {
      assert OpenId(s, i) <==> OpenId(Start(k), i);
      if i in s.r.idToObj { assert Shared(k.next, s, i); }
    }
  }

  /** A session's archive cut short anywhere is not read to the end. */
  lemma CutShort(c: Classes, memory: Memory, rank: map<Ptr, nat>, roots: seq<Ptr>, k: Heap, m: nat)
    requires Graph(c, memory, rank) && AllRegistered(c, memory) && forall p :: p in roots ==> p in memory
    requires forall a :: a in k.objects ==> a < k.next
    ensures WriteRoots(c, memory, rank, EMPTY, roots).Ok?
    ensures var words := WriteRoots(c, memory, rank, EMPTY, roots).value.words;
            m < |words| ==> ReadRoots(c, k, EMPTY, |roots|, words[..m]) == Err(EndOfArchive)
  {
    hide Graph, AllRegistered, WriteRoots, ReadRoots, Unfolded, SessionWritten;
    RoundTrip(c, memory, rank, roots, k, []);
    var words := WriteRoots(c, memory, rank, EMPTY, roots).value.words;
    assert words + [] == words;
    if m < |words| { ReadRootsCut(c, k, EMPTY, |roots|, words, m); }
  }

  /** Exactly the same sharing of reference-counted objects: new objects made from them are equal just when the objects
      were. */
  lemma SharingExact(c: Classes, memory: Memory, rank: map<Ptr, nat>, roots: seq<Ptr>, w: Written, base: Ptr,
                     a: Ptr, b: Ptr, a': Ptr, b': Ptr)
    requires SessionWritten(c, memory, rank, roots, w) && Counted(c, memory, a) && Counted(c, memory, a')
    requires IsCopy(base, w.made, a, b) && IsCopy(base, w.made, a', b')
    ensures a == a' <==> b == b'
  {
    hide SessionWritten, Counted;
    SharedOnceIn(c, memory, rank, roots, w, a);
    if a == a' && b != b' {
      FoundTwice(w.made, b - base, b' - base);
      assert false;
    }
  }

  lemma SharedOnceIn(c: Classes, memory: Memory, rank: map<Ptr, nat>, roots: seq<Ptr>, w: Written, a: Ptr)
    requires SessionWritten(c, memory, rank, roots, w) && Counted(c, memory, a)
    ensures multiset(w.made)[a] <= 1
  {
    hide GoodTable, PlainEachTime, Complete, Caused, Graph;
  }

  // ---- when it is the same graph ----

  function Image(phi: map<Ptr, Ptr>, f: Field): Field {
    match f
    case Data(_) => f
    case Link(a) => if a in phi then Link(phi[a]) else f
  }

  /** The same body, with each link to the image of its target */
  ghost predicate SameObject(phi: map<Ptr, Ptr>, o: Object, o': Object) {
    && o'.typ == o.typ && |o'.fields| == |o.fields|
    && forall i :: 0 <= i < |o.fields| ==>
                     && (o.fields[i].Link? ==> o.fields[i].target in phi)
                     && o'.fields[i] == Image(phi, o.fields[i])
  }

  ghost predicate OneToOne(phi: map<Ptr, Ptr>) {
    forall a, b :: a in phi && b in phi && phi[a] == phi[b] ==> a == b
  }

  /** phi takes the objects that the roots lead to one to one onto the new objects, with types, data and links, and the
      roots to what was read for them. */
  ghost predicate Isomorphism(memory: Memory, roots: seq<Ptr>, k: Heap, k': Heap, qs: seq<Ptr>, phi: map<Ptr, Ptr>) {
    && phi.Keys == Reachable(memory, roots) && phi.Values == NewObjects(k, k') && OneToOne(phi)
    && SameObjects(memory, k', phi) && RootsMapped(roots, qs, phi)
  }

  ghost predicate SameObjects(memory: Memory, k': Heap, phi: map<Ptr, Ptr>) {
    forall a :: a in phi ==> a in memory && phi[a] in k'.objects && SameObject(phi, memory[a], k'.objects[phi[a]])
  }

  ghost predicate RootsMapped(roots: seq<Ptr>, qs: seq<Ptr>, phi: map<Ptr, Ptr>) {
    |qs| == |roots| && forall j :: 0 <= j < |roots| ==> roots[j] in phi && qs[j] == phi[roots[j]]
  }

  ghost predicate Isomorphic(memory: Memory, roots: seq<Ptr>, k: Heap, k': Heap, qs: seq<Ptr>) {
    exists phi :: Isomorphism(memory, roots, k, k', qs, phi)
  }

  /** The place of an element in a list without repetitions */
  ghost function Place(made: seq<Ptr>, a: Ptr): (i: nat)
    requires a in made
    ensures i < |made| && made[i] == a
  {
    var i :| 0 <= i < |made| && made[i] == a;
    i
  }

  lemma OnePlace(made: seq<Ptr>, i: nat)
    requires NoneTwice(made) && i < |made|
    ensures Place(made, made[i]) == i
  {
    var j := Place(made, made[i]);
    if i != j { FoundTwice(made, i, j); }
  }

  ghost function CopyOf(base: Ptr, made: seq<Ptr>): (phi: map<Ptr, Ptr>)
    ensures forall a :: a in phi <==> a in made
  {
    map a | a in made :: base + Place(made, a)
  }

  lemma CopyIsOnly(base: Ptr, made: seq<Ptr>, a: Ptr, b: Ptr)
    requires NoneTwice(made) && IsCopy(base, made, a, b)
    ensures a in CopyOf(base, made) && CopyOf(base, made)[a] == b
  {
    OnePlace(made, b - base);
  }

  lemma CopiesAreOneToOne(base: Ptr, made: seq<Ptr>)
    requires NoneTwice(made)
    ensures OneToOne(CopyOf(base, made))
    ensures CopyOf(base, made).Values == Addresses(base, |made|)
  {
    var phi := CopyOf(base, made);
    forall b ensures b in phi.Values <==> base <= b < base + |made| {
      if base <= b < base + |made| {
        CopyIsOnly(base, made, made[b - base], b);
      }
    }
  }

  lemma CopiedIsSame(base: Ptr, memory: Memory, made: seq<Ptr>, a: Ptr, o: Object)
    requires NoneTwice(made) && ObjectCopied(base, memory, made, a, o)
    ensures SameObject(CopyOf(base, made), memory[a], o)
  {
    var phi, fs := CopyOf(base, made), memory[a].fields;
    hide CopyOf;
    forall i | 0 <= i < |fs|
      ensures (fs[i].Link? ==> fs[i].target in phi) && o.fields[i] == Image(phi, fs[i])
    {
      if fs[i].Link? { CopyIsOnly(base, made, fs[i].target, o.fields[i].target); }
    }
  }

  lemma CopiesAreSame(memory: Memory, k: Heap, s: State, roots: seq<Ptr>, qs: seq<Ptr>)
    requires Unfolded(memory, k, s, roots, qs) && NoneTwice(s.made)
    ensures SameObjects(memory, s.k, CopyOf(k.next, s.made)) && RootsMapped(roots, qs, CopyOf(k.next, s.made))
  {
    assert RootsCopied(k.next, s.made, roots, qs);
    hide CopyOf, SameObject, NoneTwice, Unfolded;
    var phi := CopyOf(k.next, s.made);
    forall a | a in phi
      ensures a in memory && phi[a] in s.k.objects && SameObject(phi, memory[a], s.k.objects[phi[a]])
    {
      OneCopyIsSame(memory, k, s, roots, qs, a);
    }
    forall j | 0 <= j < |roots| ensures roots[j] in phi && qs[j] == phi[roots[j]] {
      CopyIsOnly(k.next, s.made, roots[j], qs[j]);
    }
  }

  lemma NewObject(memory: Memory, k: Heap, s: State, roots: seq<Ptr>, qs: seq<Ptr>, b: Ptr)
    requires Unfolded(memory, k, s, roots, qs) && k.next <= b < k.next + |s.made|
    ensures b in s.k.objects && ObjectCopied(k.next, memory, s.made, s.made[b - k.next], s.k.objects[b])
  {
    hide NewObjects, Addresses, NewCopied, RootsCopied, AllShared, Inverse, Untouched, ObjectCopied;
    AddressIsNew(k, s.k, |s.made|, b);
    CopyAt(memory, k, s, b);
  }

  lemma AddressIsNew(k: Heap, k': Heap, n: nat, b: Ptr)
    requires NewObjects(k, k') == Addresses(k.next, n) && k.next <= b < k.next + n
    ensures b in k'.objects
  {
    hide Addresses;
    assert b in NewObjects(k, k');
  }

  lemma CopyAt(memory: Memory, k: Heap, s: State, b: Ptr)
    requires NewCopied(memory, k, s) && b in s.k.objects && k.next <= b < k.next + |s.made|
    ensures ObjectCopied(k.next, memory, s.made, s.made[b - k.next], s.k.objects[b])
  {
    hide ObjectCopied;
  }

  lemma OneCopyIsSame(memory: Memory, k: Heap, s: State, roots: seq<Ptr>, qs: seq<Ptr>, a: Ptr)
    requires Unfolded(memory, k, s, roots, qs) && NoneTwice(s.made) && a in s.made
    ensures var phi := CopyOf(k.next, s.made);
            a in memory && phi[a] in s.k.objects && SameObject(phi, memory[a], s.k.objects[phi[a]])
  {
    hide CopyOf, SameObject, NoneTwice, FieldsCopied, Unfolded;
    var b := k.next + Place(s.made, a);
    NewObject(memory, k, s, roots, qs, b);
    CopyIsOnly(k.next, s.made, a, b);
    CopiedIsSame(k.next, memory, s.made, a, s.k.objects[b]);
  }

  lemma CopiesAreIsomorphic(c: Classes, memory: Memory, rank: map<Ptr, nat>, roots: seq<Ptr>, w: Written, k: Heap,
                            s: State, qs: seq<Ptr>)
    requires SessionWritten(c, memory, rank, roots, w) && s.made == w.made && NoneTwice(s.made)
    requires Unfolded(memory, k, s, roots, qs)
    ensures Isomorphic(memory, roots, k, s.k, qs)
  {
    hide CopyOf, SessionWritten, Reachable, SameObjects, RootsMapped, OneToOne, NoneTwice;
    var phi := CopyOf(k.next, s.made);
    MadeIsReachable(c, memory, rank, roots, w);
    CopiesAreOneToOne(k.next, s.made);
    CopiesAreSame(memory, k, s, roots, qs);
    assert NewObjects(k, s.k) == phi.Values;
    hide Unfolded, NewObjects;
    assert phi.Keys == Reachable(memory, roots);
    assert Isomorphism(memory, roots, k, s.k, qs, phi);
  }

  // ---- a one-to-one map leaves no room for a second body ----

  lemma {:induction false} SizeOfImage(phi: map<Ptr, Ptr>)
    requires OneToOne(phi)
    ensures |phi.Values| == |phi.Keys|
    decreases |phi|
  {
    if phi != map[] {
      var a :| a in phi;
      var rest := phi - {a};
      SizeOfImage(rest);
      assert phi.Keys == rest.Keys + {a} && phi.Values == rest.Values + {phi[a]};
    }
  }

  lemma {:induction false} AsManyAsPlaces(made: seq<Ptr>, s: set<Ptr>)
    requires forall a :: a in s <==> a in made
    ensures |s| <= |made| && (|s| == |made| ==> NoneTwice(made))
    decreases |made|
  {
    if made != [] {
      var a, rest := made[0], made[1..];
      assert made == [a] + rest && multiset(made) == multiset{a} + multiset(rest);
      if a in rest {
        AsManyAsPlaces(rest, s);
      } else {
        AsManyAsPlaces(rest, s - {a});
        assert multiset(rest)[a] == 0;
      }
    }
  }

  lemma IsomorphicHasNoneTwice(c: Classes, memory: Memory, rank: map<Ptr, nat>, roots: seq<Ptr>, w: Written, k: Heap,
                               s: State, qs: seq<Ptr>)
    requires SessionWritten(c, memory, rank, roots, w) && s.made == w.made
    requires Unfolded(memory, k, s, roots, qs) && Isomorphic(memory, roots, k, s.k, qs)
    ensures NoneTwice(s.made)
  {
    assert |NewObjects(k, s.k)| == |s.made|;
    hide SessionWritten, Reachable, SameObjects, RootsMapped, Unfolded, NewObjects, OneToOne, NoneTwice;
    var phi :| Isomorphism(memory, roots, k, s.k, qs, phi);
    MadeIsReachable(c, memory, rank, roots, w);
    SizeOfImage(phi);
    AsManyAsPlaces(s.made, phi.Keys);
  }

  /** What is read back is isomorphic to what was written if and only if every plain object of the session is mentioned
      once, as a root or by a link. */
  lemma IsomorphicExactly(c: Classes, memory: Memory, rank: map<Ptr, nat>, roots: seq<Ptr>, k: Heap, tail: seq<int>)
    requires Graph(c, memory, rank) && AllRegistered(c, memory) && forall p :: p in roots ==> p in memory
    requires forall a :: a in k.objects ==> a < k.next
    ensures WriteRoots(c, memory, rank, EMPTY, roots).Ok?
    ensures var read := ReadRoots(c, k, EMPTY, |roots|, WriteRoots(c, memory, rank, EMPTY, roots).value.words + tail);
            && read.Ok?
            && (Isomorphic(memory, roots, k, read.value.heap, read.value.value) <==> PlainOnce(c, memory, roots))
  {
    RoundTrip(c, memory, rank, roots, k, tail);
    var w := WriteRoots(c, memory, rank, EMPTY, roots).value;
    var read := ReadRoots(c, k, EMPTY, |roots|, w.words + tail).value;
    hide Graph, AllRegistered, WriteRoots, ReadRoots, SessionWritten, Unfolded, Isomorphic, PlainOnce, NoneTwice;
    WrittenTwice(c, memory, rank, roots, w);
    if NoneTwice(w.made) { CopiesAreIsomorphic(c, memory, rank, roots, w, k, Finished(w, read), read.value); }
    if Isomorphic(memory, roots, k, read.heap, read.value) {
      IsomorphicHasNoneTwice(c, memory, rank, roots, w, k, Finished(w, read), read.value);
    }
  }

  // ---- one object ----

  /** No plain object that p leads to is the target of two links. */
  ghost predicate PlainLinkedOnce(c: Classes, memory: Memory, p: Ptr) {
    forall a, m: Mention, m': Mention ::
      a in memory && !Counted(c, memory, a) && m.LinkFrom? && m'.LinkFrom?
      && Mentions(memory, [p], m, a) && Mentions(memory, [p], m', a) ==>
        m == m'
  }

  lemma {:induction false} PathGoesDown(c: Classes, memory: Memory, rank: map<Ptr, nat>, path: seq<Ptr>)
    requires Graph(c, memory, rank) && Path(memory, path) && path[0] in memory
    ensures path[0] in rank && path[|path| - 1] in rank && rank[path[|path| - 1]] <= rank[path[0]]
    decreases |path|
  {
    var n := |path| - 1;
    if n > 0 {
      assert Path(memory, path[..n]);
      PathGoesDown(c, memory, rank, path[..n]);
      LinkGoesDown(c, memory, rank, path[n - 1], path[n]);
    }
  }

  lemma NothingLeadsBack(c: Classes, memory: Memory, rank: map<Ptr, nat>, p: Ptr, b: Ptr)
    requires Graph(c, memory, rank) && p in memory && b in Reachable(memory, [p])
    ensures !LinksTo(memory, b, p)
  {
    var path :| Path(memory, path) && path[0] in [p] && path[|path| - 1] == b;
    PathGoesDown(c, memory, rank, path);
    if LinksTo(memory, b, p) { LinkGoesDown(c, memory, rank, b, p); }
  }

  /** In an acyclic graph nothing leads back to the one root. */
  lemma OneRootOnce(c: Classes, memory: Memory, rank: map<Ptr, nat>, p: Ptr)
    requires Graph(c, memory, rank) && p in memory
    ensures PlainOnce(c, memory, [p]) <==> PlainLinkedOnce(c, memory, p)
  {
    forall m: Mention | m.LinkFrom? ensures !Mentions(memory, [p], m, p) {
      if m.owner in Reachable(memory, [p]) { NothingLeadsBack(c, memory, rank, p, m.owner); }
    }
    assert forall m: Mention, a :: m.Root? && Mentions(memory, [p], m, a) ==> m == Root(0) && a == p;
  }

  lemma OneRoot(c: Classes, memory: Memory, rank: map<Ptr, nat>, p: Ptr, k: Heap, words: seq<int>)
    requires Graph(c, memory, rank) && p in memory
    ensures WriteRoots(c, memory, rank, EMPTY, [p]) == WriteObject(c, memory, rank, EMPTY, p)
    ensures var one, read := ReadObject(c, k, EMPTY, words), ReadRoots(c, k, EMPTY, 1, words);
            if one.Err? then read.Err?
            else read == Ok(Read(one.value.heap, one.value.table, [one.value.value], one.value.rest))
  {
    hide WriteObject, ReadObject, Graph;
    var w := WriteObject(c, memory, rank, EMPTY, p);
    assert [p][1..] == [];
    if w.Ok? {
      assert WriteRoots(c, memory, rank, w.value.table, []) == Ok(Written(w.value.table, [], [], []));
      assert w.value.words + [] == w.value.words && w.value.names + [] == w.value.names;
      assert w.value.made + [] == w.value.made;
    }
    var one := ReadObject(c, k, EMPTY, words);
    if one.Ok? {
      assert ReadRoots(c, one.value.heap, one.value.table, 0, one.value.rest)
          == Ok(Read(one.value.heap, one.value.table, [], one.value.rest));
      assert [one.value.value] + [] == [one.value.value];
    }
  }

  /** One object written and read back: isomorphic if and only if no plain object that it leads to is the target of two
      links. */
  lemma OneObjectExactly(c: Classes, memory: Memory, rank: map<Ptr, nat>, p: Ptr, k: Heap, tail: seq<int>)
    requires Graph(c, memory, rank) && AllRegistered(c, memory) && p in memory
    requires forall a :: a in k.objects ==> a < k.next
    ensures WriteObject(c, memory, rank, EMPTY, p).Ok?
    ensures var read := ReadObject(c, k, EMPTY, WriteObject(c, memory, rank, EMPTY, p).value.words + tail);
            && read.Ok? && read.value.rest == tail
            && (Isomorphic(memory, [p], k, read.value.heap, [read.value.value]) <==> PlainLinkedOnce(c, memory, p))
  {
    hide Graph, AllRegistered, WriteRoots, ReadRoots, WriteObject, ReadObject, Isomorphic, PlainOnce, PlainLinkedOnce;
    hide Unfolded, SessionWritten;
    RoundTrip(c, memory, rank, [p], k, tail);
    IsomorphicExactly(c, memory, rank, [p], k, tail);
    OneRoot(c, memory, rank, p, k, WriteRoots(c, memory, rank, EMPTY, [p]).value.words + tail);
    OneRootOnce(c, memory, rank, p);
  }

  // ---- what registration is needed for ----

  /** Reading what was written of p gives an object of its type. */
  ghost predicate ReadsBack(c: Classes, memory: Memory, rank: map<Ptr, nat>, p: Ptr, k: Heap, tail: seq<int>)
    requires Graph(c, memory, rank) && p in memory
  {
    && WriteObject(c, memory, rank, EMPTY, p).Ok?
    && var read := ReadObject(c, k, EMPTY, WriteObject(c, memory, rank, EMPTY, p).value.words + tail);
    read.Ok? && read.value.value in read.value.heap.objects
    && read.value.heap.objects[read.value.value].typ == memory[p].typ
  }

  /** The reader creates what the map that the writer found the CRC in has for it. */
  lemma CreatesWhatIsRegistered(c: Classes, memory: Memory, rank: map<Ptr, nat>, p: Ptr, k: Heap, tail: seq<int>)
    requires Graph(c, memory, rank) && p in memory && !Registered(c, memory[p].typ)
    ensures !ReadsBack(c, memory, rank, p, k, tail)
  {
    hide Graph;
    var w := WriteObject(c, memory, rank, EMPTY, p);
    if w.Ok? {
      var words := w.value.words + tail;
      var id := if IsRefCounted(c, memory[p].typ) then 1 else 0;
      assert words[..4] == Header(c, memory[p].typ, id);
      assert words[0] == words[..4][0] && words[3] == words[..4][3];
    }
  }

  /** In a graph whose other types are registered, an object comes back with its type if and only if its own is. */
  lemma ReadsBackExactly(c: Classes, memory: Memory, rank: map<Ptr, nat>, p: Ptr, k: Heap, tail: seq<int>)
    requires Graph(c, memory, rank) && p in memory && forall a :: a in k.objects ==> a < k.next
    requires forall q :: q in memory && memory[q].typ != memory[p].typ ==> Registered(c, memory[q].typ)
    ensures ReadsBack(c, memory, rank, p, k, tail) <==> Registered(c, memory[p].typ)
  {
    if Registered(c, memory[p].typ) {
      RoundTrip(c, memory, rank, [p], k, tail);
      hide Graph, WriteRoots, ReadRoots, WriteObject, ReadObject, Unfolded, SessionWritten;
      var w := WriteRoots(c, memory, rank, EMPTY, [p]).value;
      var read := ReadRoots(c, k, EMPTY, 1, w.words + tail).value;
      OneRoot(c, memory, rank, p, k, w.words + tail);
      TypeKept(memory, k, Finished(w, read), p, read.value);
    } else {
      CreatesWhatIsRegistered(c, memory, rank, p, k, tail);
    }
  }

  lemma TypeKept(memory: Memory, k: Heap, s: State, p: Ptr, qs: seq<Ptr>)
    requires Unfolded(memory, k, s, [p], qs)
    ensures |qs| == 1 && qs[0] in s.k.objects && p in memory && s.k.objects[qs[0]].typ == memory[p].typ
  {
    assert RootsCopied(k.next, s.made, [p], qs);
    hide Unfolded, RootsCopied, FieldsCopied;
    OneCopied(k.next, s.made, p, qs);
    NewObject(memory, k, s, [p], qs, qs[0]);
  }

  lemma OneCopied(base: Ptr, made: seq<Ptr>, p: Ptr, qs: seq<Ptr>)
    requires RootsCopied(base, made, [p], qs)
    ensures |qs| == 1 && IsCopy(base, made, p, qs[0])
  {
    assert IsCopy(base, made, [p][0], qs[0]);
  }
}
