/** What writing a session leaves behind: ids in the order of first visits, each shared object's body once, a plain
    object's body once for each link that is followed to it. */
module GraphWriter {
  import opened ObjectGraph

  ghost predicate AllRegistered(c: Classes, memory: Memory) {
    forall p :: p in memory ==> Registered(c, memory[p].typ)
  }

  /** A pointer to a reference-counted object */
  predicate Counted(c: Classes, memory: Memory, p: Ptr) { p in memory && IsRefCounted(c, memory[p].typ) }

  // ---- ids ----

  /** The ids of a writer's table are 1..n. */
  ghost predicate Numbered(t: Table) {
    forall i :: i in t.idToObj <==> 1 <= i <= |t.idToObj|
  }

  /** The tables a writer has: inverse maps, ids 1..n, reference-counted objects of the graph */
  ghost predicate GoodTable(c: Classes, memory: Memory, t: Table) {
    Inverse(t) && Numbered(t) && forall p :: p in t.objToId ==> Counted(c, memory, p)
  }

  ghost predicate SubTable(t: Table, t': Table) {
    && (forall i :: i in t.idToObj ==> i in t'.idToObj && t'.idToObj[i] == t.idToObj[i])
    && (forall p :: p in t.objToId ==> p in t'.objToId && t'.objToId[p] == t.objToId[p])
  }

  /** Ids are first named in the order 1, 2, 3, ...: from n ids known before, m are known after. */
  ghost predicate FirstVisitOrder(n: nat, names: seq<Id>, m: nat)
    decreases |names|
  {
    if names == [] then n == m
    else 1 <= names[0] <= n + 1 && FirstVisitOrder(if names[0] == n + 1 then n + 1 else n, names[1..], m)
  }

  lemma {:induction false} FirstVisitConcat(n: nat, a: seq<Id>, m: nat, b: seq<Id>, l: nat)
    requires FirstVisitOrder(n, a, m) && FirstVisitOrder(m, b, l)
    ensures FirstVisitOrder(n, a + b, l)
    decreases |a|
  {
    if a == [] {
      assert a + b == b;
    } else {
      assert (a + b)[1..] == a[1..] + b;
      FirstVisitConcat(if a[0] == n + 1 then n + 1 else n, a[1..], m, b, l);
    }
  }

  lemma FirstVisitKnown(n: nat, id: Id)
    requires 1 <= id <= n
    ensures FirstVisitOrder(n, [id], n)
  {
    assert FirstVisitOrder(n, [id][1..], n);
  }

  lemma FirstVisitNew(n: nat, names: seq<Id>, m: nat)
    requires FirstVisitOrder(n + 1, names, m)
    ensures FirstVisitOrder(n, [n + 1] + names, m)
  {
    assert ([n + 1] + names)[1..] == names;
  }

  /** A new id is one more than the number of ids. */
  lemma NewId(c: Classes, memory: Memory, t: Table, p: Ptr)
    requires GoodTable(c, memory, t) && p !in t.objToId && Counted(c, memory, p)
    ensures Add(t, p, 0).Ok?
    ensures var (t', id) := Add(t, p, 0).value;
            id == |t.idToObj| + 1 && id !in t.idToObj && GoodTable(c, memory, t') && |t'.idToObj| == id
            && t'.idToObj == t.idToObj[id := p] && t'.objToId == t.objToId[p := id] && SubTable(t, t')
  {
    var (t', id) := Add(t, p, 0).value;
    var n := |t.idToObj|;
    if t.idToObj != map[] {
      var largest := LargestId(t.idToObj);
      assert largest in t.idToObj && n in t.idToObj;
    } else {
      assert n == 0;
    }
    AddKeepsInverse(t, p, 0);
    assert t'.idToObj.Keys == t.idToObj.Keys + {id};
    forall i ensures i in t'.idToObj <==> 1 <= i <= |t'.idToObj| {
      assert i in t'.idToObj <==> i in t.idToObj || i == id;
    }
  }

  // ---- bodies ----

  /** The links of a body, by target */
  ghost function Targets(fields: seq<Field>): multiset<Ptr> {
    if fields == [] then multiset{}
    else (if fields[0].Link? then multiset{fields[0].target} else multiset{}) + Targets(fields[1..])
  }

  ghost function TargetsOf(memory: Memory, p: Ptr): multiset<Ptr> {
    if p in memory then Targets(memory[p].fields) else multiset{}
  }

  /** The links of all bodies written */
  ghost function AllTargets(memory: Memory, made: seq<Ptr>): multiset<Ptr> {
    if made == [] then multiset{} else TargetsOf(memory, made[0]) + AllTargets(memory, made[1..])
  }

  lemma {:induction false} AllTargetsConcat(memory: Memory, a: seq<Ptr>, b: seq<Ptr>)
    ensures AllTargets(memory, a + b) == AllTargets(memory, a) + AllTargets(memory, b)
    decreases |a|
  {
    hide TargetsOf;
    if a == [] {
      assert a + b == b;
    } else {
      assert (a + b)[1..] == a[1..] + b;
      AllTargetsConcat(memory, a[1..], b);
    }
  }

  /** From table t, following the links in wanted, w was written. */
  ghost predicate Effect(c: Classes, memory: Memory, t: Table, wanted: multiset<Ptr>, w: Written) {
    && GoodTable(c, memory, w.table) && SubTable(t, w.table)
    && FirstVisitOrder(|t.idToObj|, w.names, |w.table.idToObj|)
    && (forall a :: a in w.made ==> a in memory)
    && SharedOnce(c, memory, t, w)
    && PlainEachTime(c, memory, wanted, w)
    && Complete(memory, t, wanted, w)
    && Caused(memory, wanted, w)
  }

  /** The body of a shared object is written when it enters the table, and only then. */
  ghost predicate SharedOnce(c: Classes, memory: Memory, t: Table, w: Written) {
    forall a :: Counted(c, memory, a) ==>
                  multiset(w.made)[a] == if a in w.table.objToId && a !in t.objToId then 1 else 0
  }

  /** The body of a plain object is written once for each link to it. */
  ghost predicate PlainEachTime(c: Classes, memory: Memory, wanted: multiset<Ptr>, w: Written)
  {
    forall a :: !Counted(c, memory, a) ==> multiset(w.made)[a] == wanted[a] + AllTargets(memory, w.made)[a]
  }

  /** Whatever is linked is written, unless it was in the table before. */
  ghost predicate Complete(memory: Memory, t: Table, wanted: multiset<Ptr>, w: Written)
  {
    forall a :: a in wanted || a in AllTargets(memory, w.made) ==> a in w.made || a in t.objToId
  }

  /** Nothing else is written. */
  ghost predicate Caused(memory: Memory, wanted: multiset<Ptr>, w: Written)
  {
    forall a :: a in w.made ==> a in wanted || a in AllTargets(memory, w.made)
  }

  lemma EffectOfNothing(c: Classes, memory: Memory, t: Table, words: seq<int>)
    requires GoodTable(c, memory, t)
    ensures Effect(c, memory, t, multiset{}, Written(t, words, [], []))
  {}

  lemma EffectOfKnown(c: Classes, memory: Memory, t: Table, p: Ptr, words: seq<int>)
    requires GoodTable(c, memory, t) && p in t.objToId
    ensures Effect(c, memory, t, multiset{p}, Written(t, words, [t.objToId[p]], []))
  {
    FirstVisitKnown(|t.idToObj|, t.objToId[p]);
  }

  lemma EffectOfBoth(c: Classes, memory: Memory, t: Table, a: multiset<Ptr>, v: Written, b: multiset<Ptr>, w: Written)
    requires Effect(c, memory, t, a, v) && Effect(c, memory, v.table, b, w)
    ensures Effect(c, memory, t, a + b, Then(v, w))
  {
    hide GoodTable, Counted, FirstVisitOrder, SharedOnce, PlainEachTime, Complete, Caused;
    FirstVisitConcat(|t.idToObj|, v.names, |v.table.idToObj|, w.names, |w.table.idToObj|);
    SharedOnceBoth(c, memory, t, v, w);
    BodiesBoth(c, memory, t, a, v, b, w);
  }

  lemma SharedOnceBoth(c: Classes, memory: Memory, t: Table, v: Written, w: Written)
    requires SubTable(t, v.table) && SubTable(v.table, w.table)
    requires SharedOnce(c, memory, t, v) && SharedOnce(c, memory, v.table, w)
    ensures SharedOnce(c, memory, t, Then(v, w))
  {
    hide Counted;
    assert multiset(v.made + w.made) == multiset(v.made) + multiset(w.made);
  }

  lemma BodiesBoth(c: Classes, memory: Memory, t: Table, a: multiset<Ptr>, v: Written, b: multiset<Ptr>, w: Written)
    requires PlainEachTime(c, memory, a, v) && PlainEachTime(c, memory, b, w)
    requires Complete(memory, t, a, v) && Complete(memory, v.table, b, w) && SharedOnce(c, memory, t, v)
    requires GoodTable(c, memory, v.table)
    requires Caused(memory, a, v) && Caused(memory, b, w)
    ensures PlainEachTime(c, memory, a + b, Then(v, w)) && Complete(memory, t, a + b, Then(v, w))
    ensures Caused(memory, a + b, Then(v, w))
  {
    AllTargetsConcat(memory, v.made, w.made);
    hide AllTargets, Inverse, Numbered;
    assert multiset(v.made + w.made) == multiset(v.made) + multiset(w.made);
    forall p | p in v.table.objToId && p !in t.objToId ensures p in v.made {
      assert multiset(v.made)[p] == 1 by { assert Counted(c, memory, p); }
    }
  }

  lemma AllTargetsOfFirst(memory: Memory, p: Ptr, made: seq<Ptr>)
    ensures AllTargets(memory, [p] + made) == TargetsOf(memory, p) + AllTargets(memory, made)
    ensures multiset([p] + made) == multiset{p} + multiset(made)
  {
    assert ([p] + made)[1..] == made;
  }

  lemma EffectOfPlain(c: Classes, memory: Memory, t: Table, p: Ptr, body: Written, words: seq<int>)
    requires p in memory && !Counted(c, memory, p) && Effect(c, memory, t, TargetsOf(memory, p), body)
    ensures Effect(c, memory, t, multiset{p}, Written(body.table, words, body.names, [p] + body.made))
  {
    hide GoodTable, FirstVisitOrder;
    AllTargetsOfFirst(memory, p, body.made);
    hide TargetsOf, AllTargets, Counted;
  }

  lemma EffectOfShared(c: Classes, memory: Memory, t: Table, p: Ptr, t1: Table, body: Written, words: seq<int>)
    requires GoodTable(c, memory, t) && Counted(c, memory, p) && p !in t.objToId
    requires t1.idToObj == t.idToObj[|t.idToObj| + 1 := p] && t1.objToId == t.objToId[p := |t.idToObj| + 1]
    requires SubTable(t, t1) && |t1.idToObj| == |t.idToObj| + 1
    requires Effect(c, memory, t1, TargetsOf(memory, p), body)
    ensures Effect(c, memory, t, multiset{p},
                   Written(body.table, words, [|t.idToObj| + 1] + body.names, [p] + body.made))
  {
    hide GoodTable, FirstVisitOrder, SharedOnce, PlainEachTime, Complete, Caused;
    FirstVisitNew(|t.idToObj|, body.names, |body.table.idToObj|);
    assert p in memory && p in t1.objToId && p in body.table.objToId;
    SubTableTrans(t, t1, body.table);
    hide SubTable, Counted;
    EnterTable(c, memory, t, p, t1, body,
               Written(body.table, words, [|t.idToObj| + 1] + body.names, [p] + body.made));
  }

  lemma SubTableTrans(t: Table, t1: Table, t2: Table)
    requires SubTable(t, t1) && SubTable(t1, t2)
    ensures SubTable(t, t2)
  {}

  lemma EnterTable(c: Classes, memory: Memory, t: Table, p: Ptr, t1: Table, body: Written, w: Written)
    requires Counted(c, memory, p) && p !in t.objToId && t1.objToId.Keys == t.objToId.Keys + {p}
    requires w.table == body.table && w.made == [p] + body.made && p in body.table.objToId
    requires SharedOnce(c, memory, t1, body) && PlainEachTime(c, memory, TargetsOf(memory, p), body)
    requires Complete(memory, t1, TargetsOf(memory, p), body) && Caused(memory, TargetsOf(memory, p), body)
    ensures SharedOnce(c, memory, t, w) && PlainEachTime(c, memory, multiset{p}, w)
    ensures Complete(memory, t, multiset{p}, w) && Caused(memory, multiset{p}, w)
  {
    AllTargetsOfFirst(memory, p, body.made);
    hide TargetsOf, AllTargets, Counted;
  }

  /** Writing a registered graph never fails, and has that effect. */
  lemma {:induction false} ObjectEffect(c: Classes, memory: Memory, rank: map<Ptr, nat>, t: Table, p: Ptr)
    requires Graph(c, memory, rank) && AllRegistered(c, memory) && p in memory && GoodTable(c, memory, t)
    ensures WriteObject(c, memory, rank, t, p).Ok?
    ensures GoodTable(c, memory, WriteObject(c, memory, rank, t, p).value.table)
    ensures Effect(c, memory, t, multiset{p}, WriteObject(c, memory, rank, t, p).value)
    decreases rank[p], 1, 0
  {
    hide Effect, Add, WriteFields, Shaped;
    var typ, fields := memory[p].typ, memory[p].fields;
    if !IsRefCounted(c, typ) {
      FieldsEffect(c, memory, rank, t, fields, rank[p]);
      var body := WriteFields(c, memory, rank, t, fields, rank[p]).value;
      EffectOfPlain(c, memory, t, p, body, Header(c, typ, 0) + body.words);
    } else if p in t.objToId {
      EffectOfKnown(c, memory, t, p, Header(c, typ, LookupObject(t, p)));
    } else {
      NewId(c, memory, t, p);
      var (t1, id) := Add(t, p, 0).value;
      FieldsEffect(c, memory, rank, t1, fields, rank[p]);
      var body := WriteFields(c, memory, rank, t1, fields, rank[p]).value;
      EffectOfShared(c, memory, t, p, t1, body, Header(c, typ, id) + body.words);
    }
  }

  lemma {:induction false} FieldsEffect(c: Classes, memory: Memory, rank: map<Ptr, nat>, t: Table, fields: seq<Field>,
                                        n: nat)
    requires Graph(c, memory, rank) && AllRegistered(c, memory) && LinksBelow(memory, rank, fields, n)
    requires GoodTable(c, memory, t)
    ensures WriteFields(c, memory, rank, t, fields, n).Ok?
    ensures GoodTable(c, memory, WriteFields(c, memory, rank, t, fields, n).value.table)
    ensures Effect(c, memory, t, Targets(fields), WriteFields(c, memory, rank, t, fields, n).value)
    decreases n, 0, |fields|
  {
    hide WriteObject, GoodTable, Graph, Effect;
    if fields == [] {
      EffectOfNothing(c, memory, t, []);
    } else {
      var wanted := if fields[0].Link? then multiset{fields[0].target} else multiset{};
      var first := Written(t, if fields[0].Data? then [fields[0].value] else [], [], []);
      if fields[0].Data? {
        EffectOfNothing(c, memory, t, first.words);
      } else {
        ObjectEffect(c, memory, rank, t, fields[0].target);
        first := WriteObject(c, memory, rank, t, fields[0].target).value;
      }
      FieldsEffect(c, memory, rank, first.table, fields[1..], n);
      var rest := WriteFields(c, memory, rank, first.table, fields[1..], n).value;
      EffectOfBoth(c, memory, t, wanted, first, Targets(fields[1..]), rest);
    }
  }

  lemma {:induction false} RootsEffect(c: Classes, memory: Memory, rank: map<Ptr, nat>, t: Table, roots: seq<Ptr>)
    requires Graph(c, memory, rank) && AllRegistered(c, memory) && GoodTable(c, memory, t)
    requires forall p :: p in roots ==> p in memory
    ensures WriteRoots(c, memory, rank, t, roots).Ok?
    ensures Effect(c, memory, t, multiset(roots), WriteRoots(c, memory, rank, t, roots).value)
    decreases |roots|
  {
    hide WriteObject, GoodTable, Graph, Effect;
    if roots == [] {
      EffectOfNothing(c, memory, t, []);
    } else {
      ObjectEffect(c, memory, rank, t, roots[0]);
      var first := WriteObject(c, memory, rank, t, roots[0]).value;
      RootsEffect(c, memory, rank, first.table, roots[1..]);
      var rest := WriteRoots(c, memory, rank, first.table, roots[1..]).value;
      EffectOfBoth(c, memory, t, multiset{roots[0]}, first, multiset(roots[1..]), rest);
      assert roots == [roots[0]] + roots[1..];
      assert multiset(roots) == multiset{roots[0]} + multiset(roots[1..]);
    }
  }
}
