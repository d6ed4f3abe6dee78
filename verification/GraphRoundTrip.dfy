/** Reading what was written: every body written becomes one new object, a copy of the object that it came from. */
module GraphRoundTrip {
  import opened ObjectGraph
  import opened GraphWriter

  /** Writer and reader between two records: their tables, the reader's heap, the ids named and the bodies so far. */
  datatype State = State(t: Table, r: Table, k: Heap, names: seq<Id>, made: seq<Ptr>)

  function After<T>(s: State, w: Written, read: Read<T>): State {
    State(w.table, read.table, read.heap, s.names + w.names, s.made + w.made)
  }

  // ---- copies ----

  /** Object b of the heap was made from the body of object a; base is where the reader's first new object is. */
  predicate IsCopy(base: Ptr, made: seq<Ptr>, a: Ptr, b: Ptr) { base <= b < base + |made| && made[b - base] == a }

  /** The same data, and links to copies */
  predicate FieldsCopied(base: Ptr, made: seq<Ptr>, fs: seq<Field>, gs: seq<Field>) {
    && |gs| == |fs|
    && forall i :: 0 <= i < |fs| ==>
                     match fs[i]
                     case Data(v) => gs[i] == Data(v)
                     case Link(a) => gs[i].Link? && IsCopy(base, made, a, gs[i].target)
  }

  predicate ObjectCopied(base: Ptr, memory: Memory, made: seq<Ptr>, a: Ptr, o: Object) {
    a in memory && o.typ == memory[a].typ && FieldsCopied(base, made, memory[a].fields, o.fields)
  }

  lemma StillCopied(base: Ptr, made: seq<Ptr>, more: seq<Ptr>, fs: seq<Field>, gs: seq<Field>)
    requires FieldsCopied(base, made, fs, gs) && made <= more
    ensures FieldsCopied(base, more, fs, gs)
  {}

  // ---- what writer and reader share between records ----

  /** The object of the graph and the object of the heap with id i, which counts the records that name it */
  ghost predicate Shared(base: Ptr, s: State, i: Id) {
    && i in s.r.idToObj && i in s.t.idToObj && s.r.idToObj[i] in s.k.objects
    && IsCopy(base, s.made, s.t.idToObj[i], s.r.idToObj[i])
    && s.k.objects[s.r.idToObj[i]].refCount == multiset(s.names)[i] >= 1
  }

  ghost predicate AllShared(base: Ptr, s: State) {
    && (forall i :: i in s.r.idToObj ==> Shared(base, s, i))
    && (forall i :: i in s.names ==> i in s.r.idToObj)
  }

  ghost predicate AllCopied(memory: Memory, base: Ptr, s: State) {
    && s.k.next == base + |s.made|
    && (forall b :: b in s.k.objects ==> b < s.k.next)
    && (forall b :: b in s.k.objects && base <= b ==>
                      ObjectCopied(base, memory, s.made, s.made[b - base], s.k.objects[b]))
  }

  ghost predicate Linked(c: Classes, memory: Memory, base: Ptr, s: State) {
    GoodTable(c, memory, s.t) && Inverse(s.r) && AllShared(base, s) && AllCopied(memory, base, s)
  }

  /** The objects being written have rank at least n, so nothing below n waits for its body. */
  ghost predicate OpenAbove(rank: map<Ptr, nat>, t: Table, r: Table, n: nat) {
    forall i :: i in t.idToObj && i !in r.idToObj ==> t.idToObj[i] in rank && rank[t.idToObj[i]] >= n
  }

  predicate OpenId(s: State, i: Id) { i in s.t.idToObj && i !in s.r.idToObj }

  predicate OpenAddress(base: Ptr, s: State, b: Ptr) { base <= b < s.k.next && b !in s.k.objects }

  /** One stretch of writing and reading: nothing is lost, no id and no address is left open that was not open before,
      and no object that is older than the session changes. */
  ghost predicate Progress(base: Ptr, s: State, s': State) {
    && SubTable(s.t, s'.t) && SubTable(s.r, s'.r) && s.made <= s'.made && s.k.next <= s'.k.next
    && (forall i :: OpenId(s', i) <==> OpenId(s, i))
    && (forall b :: OpenAddress(base, s', b) <==> OpenAddress(base, s, b))
    && (forall a :: a < base ==> (a in s'.k.objects <==> a in s.k.objects)
                                 && (a in s.k.objects ==> s'.k.objects[a] == s.k.objects[a]))
  }

  lemma ProgressTrans(base: Ptr, s: State, s1: State, s2: State)
    requires Progress(base, s, s1) && Progress(base, s1, s2)
    ensures Progress(base, s, s2)
  {
    hide OpenId, OpenAddress;
  }

  lemma NoProgress(base: Ptr, s: State)
    ensures Progress(base, s, s)
  {}

  lemma OpenStaysAbove(base: Ptr, rank: map<Ptr, nat>, s: State, s': State, n: nat)
    requires OpenAbove(rank, s.t, s.r, n) && Progress(base, s, s')
    ensures OpenAbove(rank, s'.t, s'.r, n)
  {
    forall i | i in s'.t.idToObj && i !in s'.r.idToObj ensures s'.t.idToObj[i] in rank && rank[s'.t.idToObj[i]] >= n {
      assert OpenId(s', i) && OpenId(s, i);
    }
  }

  // ---- a known id ----

  lemma Named(names: seq<Id>, id: Id)
    ensures multiset(names + [id]) == multiset(names)[id := multiset(names)[id] + 1]
  {}

  /** Only the count changes. */
  lemma KnownObject(c: Classes, memory: Memory, base: Ptr, s: State, id: Id)
    requires Linked(c, memory, base, s) && id in s.r.idToObj
    ensures AddRef(s.k, s.r.idToObj[id]).Ok?
    ensures var s' := s.(k := AddRef(s.k, s.r.idToObj[id]).value, names := s.names + [id]);
            Linked(c, memory, base, s') && Progress(base, s, s')
  {
    hide GoodTable, ObjectCopied;
    var q := s.r.idToObj[id];
    assert Shared(base, s, id);
    var s' := s.(k := AddRef(s.k, q).value, names := s.names + [id]);
    Named(s.names, id);
    forall i | i in s.r.idToObj ensures Shared(base, s', i) { assert Shared(base, s, i); }
    forall b | b in s'.k.objects && base <= b
      ensures ObjectCopied(base, memory, s.made, s.made[b - base], s'.k.objects[b])
    {
      SameBody(base, memory, s.made, s.made[b - base], s.k.objects[b], s'.k.objects[b]);
    }
  }

  lemma SameBody(base: Ptr, memory: Memory, made: seq<Ptr>, a: Ptr, o: Object, o': Object)
    requires ObjectCopied(base, memory, made, a, o) && o'.typ == o.typ && o'.fields == o.fields
    ensures ObjectCopied(base, memory, made, a, o')
  {}

  // ---- a new object: an address before its body, the object after it ----

  function Opened(s: State, t: Table, p: Ptr): State { s.(t := t, k := Reserve(s.k), made := s.made + [p]) }

  lemma OpenObject(c: Classes, memory: Memory, base: Ptr, s: State, t: Table, p: Ptr)
    requires Linked(c, memory, base, s) && SubTable(s.t, t) && GoodTable(c, memory, t)
    ensures Linked(c, memory, base, Opened(s, t, p)) && IsCopy(base, Opened(s, t, p).made, p, s.k.next)
  {
    hide GoodTable, FieldsCopied, Inverse;
    var s' := Opened(s, t, p);
    forall i | i in s.r.idToObj ensures Shared(base, s', i) { assert Shared(base, s, i); }
    forall b | b in s'.k.objects && base <= b
      ensures ObjectCopied(base, memory, s'.made, s'.made[b - base], s'.k.objects[b])
    {
      assert ObjectCopied(base, memory, s.made, s.made[b - base], s.k.objects[b]);
      StillCopied(base, s.made, s'.made, memory[s.made[b - base]].fields, s.k.objects[b].fields);
    }
  }

  function Stored(s: State, q: Ptr, o: Object): State { s.(k := Store(s.k, q, o)) }

  /** Storing the finished object at its address */
  lemma StoreObject(c: Classes, memory: Memory, base: Ptr, s: State, p: Ptr, q: Ptr, o: Object)
    requires Linked(c, memory, base, s) && OpenAddress(base, s, q) && IsCopy(base, s.made, p, q)
    requires ObjectCopied(base, memory, s.made, p, o)
    ensures Linked(c, memory, base, Stored(s, q, o)) && q !in s.r.objToId
  {
    hide GoodTable, ObjectCopied;
    forall i | i in s.r.idToObj ensures Shared(base, Stored(s, q, o), i) && s.r.idToObj[i] != q {
      assert Shared(base, s, i);
    }
  }

  function Closed(s: State, r: Table, names: seq<Id>): State { s.(r := r, names := names) }

  lemma NamesWith(names: seq<Id>, more: seq<Id>, id: Id)
    ensures multiset(names + ([id] + more)) == multiset(names + more)[id := multiset(names + more)[id] + 1]
    ensures forall i :: i in names + ([id] + more) <==> i == id || i in names + more
  {}

  /** The reader registers the finished object under the writer's id, with count one. */
  lemma CloseObject(c: Classes, memory: Memory, base: Ptr, s: State, names: seq<Id>, more: seq<Id>, id: Id, q: Ptr)
    requires Linked(c, memory, base, s) && s.names == names + more
    requires OpenId(s, id) && q !in s.r.objToId && q in s.k.objects && s.k.objects[q].refCount == 1
    requires IsCopy(base, s.made, s.t.idToObj[id], q)
    ensures Add(s.r, q, id).Ok?
    ensures var r' := Add(s.r, q, id).value.0;
            r'.idToObj == s.r.idToObj[id := q] && r'.objToId == s.r.objToId[q := id]
            && Linked(c, memory, base, Closed(s, r', names + ([id] + more)))
  {
    hide AllCopied, IsCopy;
    assert id != 0 by { assert Numbered(s.t); }
    hide GoodTable;
    AddKeepsInverse(s.r, q, id);
    var r' := Add(s.r, q, id).value.0;
    var s' := Closed(s, r', names + ([id] + more));
    NamesWith(names, more, id);
    hide Add;
    CountsAfterClosing(base, s, s', id, q);
    assert AllCopied(memory, base, s') by { CopiedApart(memory, base, s, s'); }
  }

  lemma CopiedApart(memory: Memory, base: Ptr, s: State, s': State)
    requires AllCopied(memory, base, s) && s'.k == s.k && s'.made == s.made
    ensures AllCopied(memory, base, s')
  {}

  lemma CountsAfterClosing(base: Ptr, s: State, s': State, id: Id, q: Ptr)
    requires AllShared(base, s) && id !in s.r.idToObj && id in s.t.idToObj && q in s.k.objects
    requires IsCopy(base, s.made, s.t.idToObj[id], q) && s.k.objects[q].refCount == 1
    requires s'.t == s.t && s'.k == s.k && s'.made == s.made && s'.r.idToObj == s.r.idToObj[id := q]
    requires multiset(s'.names) == multiset(s.names)[id := multiset(s.names)[id] + 1]
    requires forall i :: i in s'.names <==> i == id || i in s.names
    ensures AllShared(base, s')
  {
    hide IsCopy;
    forall i | i in s'.r.idToObj ensures Shared(base, s', i) {
      if i == id {
        assert id !in s.names && id !in multiset(s.names);
      } else {
        assert Shared(base, s, i);
      }
    }
  }

  // ---- the main induction ----

  /** What one record contributes, from the words the writer produced for it. */
  ghost predicate ObjectDone(c: Classes, memory: Memory, rank: map<Ptr, nat>, base: Ptr, s: State, p: Ptr,
                             tail: seq<int>)
    requires Graph(c, memory, rank) && p in memory
  {
    && WriteObject(c, memory, rank, s.t, p).Ok?
    && var w := WriteObject(c, memory, rank, s.t, p).value;
    var read := ReadObject(c, s.k, s.r, w.words + tail);
    read.Ok? && read.value.rest == tail
    && var s' := After(s, w, read.value);
    Linked(c, memory, base, s') && Progress(base, s, s') && IsCopy(base, s'.made, p, read.value.value)
  }

  ghost predicate FieldsDone(c: Classes, memory: Memory, rank: map<Ptr, nat>, base: Ptr, s: State, typ: TypeName,
                             done: seq<Cell>, fs: seq<Field>, n: nat, tail: seq<int>)
    requires Graph(c, memory, rank) && LinksBelow(memory, rank, fs, n)
  {
    && WriteFields(c, memory, rank, s.t, fs, n).Ok?
    && var w := WriteFields(c, memory, rank, s.t, fs, n).value;
    var read := ReadFields(c, s.k, s.r, typ, done, w.words + tail);
    read.Ok? && read.value.rest == tail
    && var s' := After(s, w, read.value);
    Linked(c, memory, base, s') && Progress(base, s, s') && FieldsCopied(base, s'.made, fs, read.value.value)
  }

  lemma {:induction false} ObjectRoundTrip(c: Classes, memory: Memory, rank: map<Ptr, nat>, base: Ptr, s: State, p: Ptr,
                                           tail: seq<int>)
    requires Graph(c, memory, rank) && AllRegistered(c, memory) && p in memory
    requires Linked(c, memory, base, s) && OpenAbove(rank, s.t, s.r, rank[p] + 1)
    ensures ObjectDone(c, memory, rank, base, s, p, tail)
    decreases rank[p], 1, 0
  {
    var typ, fs := memory[p].typ, memory[p].fields;
    assert LinksBelow(memory, rank, fs, rank[p]) && Shaped(c, typ, [], fs) && Registered(c, typ);
    assert GoodTable(c, memory, s.t);
    hide Linked, Progress, GoodTable, FieldsCopied, Graph, AllRegistered, LinksBelow, Shaped, Add, FieldsDone;
    if IsRefCounted(c, typ) {
      if p in s.t.objToId {
        KnownRecord(c, memory, rank, base, s, p, tail);
      } else {
        NewId(c, memory, s.t, p);
        var (t1, id) := Add(s.t, p, 0).value;
        OpenObject(c, memory, base, s, t1, p);
        OpenedAbove(rank, s.t, s.r, t1, id, p);
        FieldsRoundTrip(c, memory, rank, base, Opened(s, t1, p), typ, [], fs, rank[p], tail);
        SharedRecord(c, memory, rank, base, s, p, t1, id, tail);
      }
    } else {
      SameTable(s.t);
      OpenObject(c, memory, base, s, s.t, p);
      FieldsRoundTrip(c, memory, rank, base, Opened(s, s.t, p), typ, [], fs, rank[p], tail);
      PlainRecord(c, memory, rank, base, s, p, tail);
    }
  }

  lemma SameTable(t: Table)
    ensures SubTable(t, t)
  {}

  lemma OpenedAbove(rank: map<Ptr, nat>, t: Table, r: Table, t1: Table, id: Id, p: Ptr)
    requires p in rank && OpenAbove(rank, t, r, rank[p] + 1) && t1.idToObj == t.idToObj[id := p]
    ensures OpenAbove(rank, t1, r, rank[p])
  {}

  /** An object met again is not being written: its body is behind, and the reader knows its id. */
  lemma KnownRecord(c: Classes, memory: Memory, rank: map<Ptr, nat>, base: Ptr, s: State, p: Ptr, tail: seq<int>)
    requires Graph(c, memory, rank) && Counted(c, memory, p) && Linked(c, memory, base, s)
    requires p in s.t.objToId && OpenAbove(rank, s.t, s.r, rank[p] + 1)
    ensures ObjectDone(c, memory, rank, base, s, p, tail)
  {
    hide Graph, Progress, AllCopied, ReadFields, WriteFields, Header;
    var id := s.t.objToId[p];
    assert id in s.r.idToObj && id != 0 && LookupObject(s.t, p) == id && s.t.idToObj[id] == p;
    assert Shared(base, s, id);
    KnownObject(c, memory, base, s, id);
    hide Linked, GoodTable;
    var words := Header(c, memory[p].typ, id);
    RecordHeader(c, memory[p].typ, id, [], tail);
    var w := Written(s.t, words, [id], []);
    assert WriteObject(c, memory, rank, s.t, p) == Ok(w);
    var k' := AddRef(s.k, s.r.idToObj[id]).value;
    assert ReadObject(c, s.k, s.r, words + tail) == Ok(Read(k', s.r, s.r.idToObj[id], tail));
    assert s.made + [] == s.made;
  }

  lemma RecordHeader(c: Classes, typ: TypeName, id: Id, body: seq<int>, tail: seq<int>)
    ensures var words := Header(c, typ, id) + body + tail;
            && |words| >= 4 && words[0] == c.crc(typ) && words[3] == id && words[4..] == body + tail
            && (body == [] ==> words == Header(c, typ, id) + tail)
  {}

  /** The state after a body, with the object stored at the address reserved for it */
  lemma BodyStored(c: Classes, memory: Memory, base: Ptr, s: State, t1: Table, p: Ptr, s2: State, o: Object)
    requires p in memory && o.typ == memory[p].typ && s.k.next >= base
    requires Linked(c, memory, base, s) && Linked(c, memory, base, s2) && Progress(base, Opened(s, t1, p), s2)
    requires FieldsCopied(base, s2.made, memory[p].fields, o.fields)
    ensures Linked(c, memory, base, Stored(s2, s.k.next, o)) && s.k.next !in s2.r.objToId
    ensures IsCopy(base, s2.made, p, s.k.next)
  {
    hide GoodTable, FieldsCopied;
    assert OpenAddress(base, Opened(s, t1, p), s.k.next);
    assert OpenAddress(base, s2, s.k.next);
    assert Opened(s, t1, p).made[s.k.next - base] == p;
    StoreObject(c, memory, base, s2, p, s.k.next, o);
  }

  /** A plain object: header, body, and a copy at the reserved address. */
  lemma PlainRecord(c: Classes, memory: Memory, rank: map<Ptr, nat>, base: Ptr, s: State, p: Ptr, tail: seq<int>)
    requires Graph(c, memory, rank) && p in memory && Registered(c, memory[p].typ) && !IsRefCounted(c, memory[p].typ)
    requires Linked(c, memory, base, s) && LinksBelow(memory, rank, memory[p].fields, rank[p])
    requires FieldsDone(c, memory, rank, base, Opened(s, s.t, p), memory[p].typ, [], memory[p].fields, rank[p], tail)
    ensures ObjectDone(c, memory, rank, base, s, p, tail)
  {
    var typ, fs, n := memory[p].typ, memory[p].fields, rank[p];
    hide Linked, Progress, FieldsCopied, Graph, LinksBelow, ObjectDone, Header;
    hide WriteObject, ReadObject, WriteFields, ReadFields, IsRefCounted, Registered, IsCopy;
    var w := WriteFields(c, memory, rank, s.t, fs, n).value;
    var b := ReadFields(c, Reserve(s.k), s.r, typ, [], w.words + tail).value;
    PlainWritten(c, memory, rank, s.t, p);
    PlainRead(c, s.k, s.r, typ, w.words, tail);
    assert s.made + [p] + w.made == s.made + ([p] + w.made);
    PlainState(c, memory, base, s, p, After(Opened(s, s.t, p), w, b), Object(typ, b.value, 1));
    var record := Written(w.table, Header(c, typ, 0) + w.words, w.names, [p] + w.made);
    var read := ReadObject(c, s.k, s.r, record.words + tail).value;
    RecordDone(c, memory, rank, base, s, p, tail, record, read);
  }

  lemma PlainState(c: Classes, memory: Memory, base: Ptr, s: State, p: Ptr, s2: State, o: Object)
    requires p in memory && o.typ == memory[p].typ
    requires Linked(c, memory, base, s) && Linked(c, memory, base, s2) && Progress(base, Opened(s, s.t, p), s2)
    requires FieldsCopied(base, s2.made, memory[p].fields, o.fields)
    ensures Linked(c, memory, base, Stored(s2, s.k.next, o)) && Progress(base, s, Stored(s2, s.k.next, o))
    ensures IsCopy(base, s2.made, p, s.k.next)
  {
    assert base <= s.k.next && s.k.next !in s.k.objects by { assert AllCopied(memory, base, s); }
    hide Linked, FieldsCopied, IsCopy;
    BodyStored(c, memory, base, s, s.t, p, s2, o);
    hide Progress;
    PlainProgress(base, s, p, s2, o);
  }

  lemma PlainProgress(base: Ptr, s: State, p: Ptr, s2: State, o: Object)
    requires base <= s.k.next && s.k.next !in s.k.objects && Progress(base, Opened(s, s.t, p), s2)
    ensures Progress(base, s, Stored(s2, s.k.next, o))
  {
    hide SubTable;
    var s1, s' := Opened(s, s.t, p), Stored(s2, s.k.next, o);
    forall i ensures OpenId(s', i) <==> OpenId(s, i) {
      assert OpenId(s2, i) <==> OpenId(s1, i);
    }
    forall b ensures OpenAddress(base, s', b) <==> OpenAddress(base, s, b) {
      assert OpenAddress(base, s2, b) <==> OpenAddress(base, s1, b);
    }
  }

  lemma PlainWritten(c: Classes, memory: Memory, rank: map<Ptr, nat>, t: Table, p: Ptr)
    requires Graph(c, memory, rank) && p in memory && !IsRefCounted(c, memory[p].typ) && Registered(c, memory[p].typ)
    requires LinksBelow(memory, rank, memory[p].fields, rank[p])
    requires WriteFields(c, memory, rank, t, memory[p].fields, rank[p]).Ok?
    ensures var w := WriteFields(c, memory, rank, t, memory[p].fields, rank[p]).value;
            WriteObject(c, memory, rank, t, p)
            == Ok(Written(w.table, Header(c, memory[p].typ, 0) + w.words, w.names, [p] + w.made))
  {
    hide WriteFields;
  }

  lemma PlainRead(c: Classes, k: Heap, r: Table, typ: TypeName, words: seq<int>, tail: seq<int>)
    requires !IsRefCounted(c, typ) && Registered(c, typ) && ReadFields(c, Reserve(k), r, typ, [], words + tail).Ok?
    ensures var b := ReadFields(c, Reserve(k), r, typ, [], words + tail).value;
            ReadObject(c, k, r, Header(c, typ, 0) + words + tail)
            == Ok(Read(Store(b.heap, k.next, Object(typ, b.value, 1)), b.table, k.next, b.rest))
  {
    hide ReadFields, Header;
    RecordHeader(c, typ, 0, words, tail);
  }

  /** A shared object on its first visit: numbered before its body, registered by the reader after it. */
  lemma SharedRecord(c: Classes, memory: Memory, rank: map<Ptr, nat>, base: Ptr, s: State, p: Ptr, t1: Table, id: Id,
                     tail: seq<int>)
    requires Graph(c, memory, rank) && p in memory && Registered(c, memory[p].typ) && IsRefCounted(c, memory[p].typ)
    requires Linked(c, memory, base, s) && LinksBelow(memory, rank, memory[p].fields, rank[p])
    requires p !in s.t.objToId && Add(s.t, p, 0) == Ok((t1, id)) && id !in s.t.idToObj && id != 0
    requires t1.idToObj == s.t.idToObj[id := p] && SubTable(s.t, t1)
    requires FieldsDone(c, memory, rank, base, Opened(s, t1, p), memory[p].typ, [], memory[p].fields, rank[p], tail)
    ensures ObjectDone(c, memory, rank, base, s, p, tail)
  {
    var typ, fs, n := memory[p].typ, memory[p].fields, rank[p];
    hide Linked, Progress, FieldsCopied, Graph, LinksBelow, SubTable, ObjectDone, Header;
    hide WriteObject, ReadObject, WriteFields, ReadFields, IsRefCounted, Registered, IsCopy, Add;
    var w := WriteFields(c, memory, rank, t1, fs, n).value;
    var b := ReadFields(c, Reserve(s.k), s.r, typ, [], w.words + tail).value;
    var s2, o := After(Opened(s, t1, p), w, b), Object(typ, b.value, 1);
    SharedState(c, memory, base, s, t1, p, id, s2, w.names, o);
    SharedWritten(c, memory, rank, s.t, p, t1, id);
    SharedRead(c, s.k, s.r, typ, id, w.words, tail);
    SharedDone(c, memory, rank, base, s, p, t1, id, w, b, o, tail);
  }

  /** The record put together */
  lemma SharedDone(c: Classes, memory: Memory, rank: map<Ptr, nat>, base: Ptr, s: State, p: Ptr, t1: Table, id: Id,
                   w: Written, b: Read<seq<Field>>, o: Object, tail: seq<int>)
    requires Graph(c, memory, rank) && p in memory && b.rest == tail && Add(b.table, s.k.next, id).Ok?
    requires var s' := Closed(Stored(After(Opened(s, t1, p), w, b), s.k.next, o), Add(b.table, s.k.next, id).value.0,
                              s.names + ([id] + w.names));
             Linked(c, memory, base, s') && Progress(base, s, s') && IsCopy(base, s'.made, p, s.k.next)
    requires WriteObject(c, memory, rank, s.t, p)
          == Ok(Written(w.table, Header(c, memory[p].typ, id) + w.words, [id] + w.names, [p] + w.made))
    requires ReadObject(c, s.k, s.r, Header(c, memory[p].typ, id) + w.words + tail)
          == Ok(Read(Store(b.heap, s.k.next, o), Add(b.table, s.k.next, id).value.0, s.k.next, b.rest))
    ensures ObjectDone(c, memory, rank, base, s, p, tail)
  {
    hide Linked, Progress, Graph, ObjectDone, Header, WriteObject, ReadObject, IsCopy, Add;
    var record := Written(w.table, Header(c, memory[p].typ, id) + w.words, [id] + w.names, [p] + w.made);
    var r' := Add(b.table, s.k.next, id).value.0;
    var read := Read(Store(b.heap, s.k.next, o), r', s.k.next, tail);
    assert s.made + [p] + w.made == s.made + ([p] + w.made);
    RecordDone(c, memory, rank, base, s, p, tail, record, read);
  }

  lemma RecordDone(c: Classes, memory: Memory, rank: map<Ptr, nat>, base: Ptr, s: State, p: Ptr, tail: seq<int>,
                   w: Written, read: Read<Ptr>)
    requires Graph(c, memory, rank) && p in memory && WriteObject(c, memory, rank, s.t, p) == Ok(w)
    requires ReadObject(c, s.k, s.r, w.words + tail) == Ok(read) && read.rest == tail
    requires Linked(c, memory, base, After(s, w, read)) && Progress(base, s, After(s, w, read))
    requires IsCopy(base, s.made + w.made, p, read.value)
    ensures ObjectDone(c, memory, rank, base, s, p, tail)
  {}

  lemma SharedState(c: Classes, memory: Memory, base: Ptr, s: State, t1: Table, p: Ptr, id: Id, s2: State,
                    more: seq<Id>, o: Object)
    requires p in memory && o.typ == memory[p].typ && o.refCount == 1 && s2.names == s.names + more
    requires Linked(c, memory, base, s) && Linked(c, memory, base, s2) && Progress(base, Opened(s, t1, p), s2)
    requires t1.idToObj == s.t.idToObj[id := p] && SubTable(s.t, t1) && id !in s.t.idToObj
    requires FieldsCopied(base, s2.made, memory[p].fields, o.fields)
    ensures id !in s.r.idToObj && Add(s2.r, s.k.next, id).Ok?
    ensures var s' := Closed(Stored(s2, s.k.next, o), Add(s2.r, s.k.next, id).value.0, s.names + ([id] + more));
            Linked(c, memory, base, s') && Progress(base, s, s') && IsCopy(base, s'.made, p, s.k.next)
  {
    assert base <= s.k.next && s.k.next !in s.k.objects by { assert AllCopied(memory, base, s); }
    forall i | i in s.r.idToObj ensures i in s.t.idToObj { assert Shared(base, s, i); }
    hide Linked, Progress, FieldsCopied, SubTable, IsCopy, Add;
    StillOpen(base, Opened(s, t1, p), s2, id);
    BodyStored(c, memory, base, s, t1, p, s2, o);
    CloseObject(c, memory, base, Stored(s2, s.k.next, o), s.names, more, id, s.k.next);
    SharedProgress(base, s, t1, p, id, s2, o, Add(s2.r, s.k.next, id).value.0, s.names + ([id] + more));
  }

  lemma StillOpen(base: Ptr, s: State, s': State, id: Id)
    requires Progress(base, s, s') && OpenId(s, id)
    ensures OpenId(s', id) && s'.t.idToObj[id] == s.t.idToObj[id]
  {}

  lemma SharedProgress(base: Ptr, s: State, t1: Table, p: Ptr, id: Id, s2: State, o: Object, r': Table, names: seq<Id>)
    requires base <= s.k.next && Progress(base, Opened(s, t1, p), s2) && s.k.next !in s.k.objects
    requires t1.idToObj == s.t.idToObj[id := p] && SubTable(s.t, t1) && id !in s.t.idToObj && id !in s2.r.idToObj
    requires s.k.next !in s2.r.objToId
    requires r'.idToObj == s2.r.idToObj[id := s.k.next] && r'.objToId == s2.r.objToId[s.k.next := id]
    ensures Progress(base, s, Closed(Stored(s2, s.k.next, o), r', names))
  {
    var s1, s' := Opened(s, t1, p), Closed(Stored(s2, s.k.next, o), r', names);
    SubTableTrans(s.t, t1, s2.t);
    forall i ensures OpenId(s', i) <==> OpenId(s, i) {
      assert OpenId(s2, i) <==> OpenId(s1, i);
    }
    forall b ensures OpenAddress(base, s', b) <==> OpenAddress(base, s, b) {
      assert OpenAddress(base, s2, b) <==> OpenAddress(base, s1, b);
    }
  }

  lemma SharedWritten(c: Classes, memory: Memory, rank: map<Ptr, nat>, t: Table, p: Ptr, t1: Table, id: Id)
    requires Graph(c, memory, rank) && p in memory && IsRefCounted(c, memory[p].typ) && p !in t.objToId
    requires Add(t, p, 0) == Ok((t1, id)) && LinksBelow(memory, rank, memory[p].fields, rank[p])
    requires WriteFields(c, memory, rank, t1, memory[p].fields, rank[p]).Ok?
    ensures var w := WriteFields(c, memory, rank, t1, memory[p].fields, rank[p]).value;
            WriteObject(c, memory, rank, t, p)
            == Ok(Written(w.table, Header(c, memory[p].typ, id) + w.words, [id] + w.names, [p] + w.made))
  {
    hide WriteFields, Add;
  }

  lemma SharedRead(c: Classes, k: Heap, r: Table, typ: TypeName, id: Id, words: seq<int>, tail: seq<int>)
    requires IsRefCounted(c, typ) && Registered(c, typ) && id != 0 && id !in r.idToObj
    requires ReadFields(c, Reserve(k), r, typ, [], words + tail).Ok?
    requires var b := ReadFields(c, Reserve(k), r, typ, [], words + tail).value; Add(b.table, k.next, id).Ok?
    ensures var b := ReadFields(c, Reserve(k), r, typ, [], words + tail).value;
            ReadObject(c, k, r, Header(c, typ, id) + words + tail)
            == Ok(Read(Store(b.heap, k.next, Object(typ, b.value, 1)), Add(b.table, k.next, id).value.0, k.next,
                       b.rest))
  {
    hide ReadFields, Add, Header;
    RecordHeader(c, typ, id, words, tail);
  }

  lemma {:induction false} FieldsRoundTrip(c: Classes, memory: Memory, rank: map<Ptr, nat>, base: Ptr, s: State,
                                           typ: TypeName, done: seq<Cell>, fs: seq<Field>, n: nat, tail: seq<int>)
    requires Graph(c, memory, rank) && AllRegistered(c, memory) && LinksBelow(memory, rank, fs, n) &&
             Shaped(c, typ, done, fs)
    requires Linked(c, memory, base, s) && OpenAbove(rank, s.t, s.r, n)
    ensures FieldsDone(c, memory, rank, base, s, typ, done, fs, n, tail)
    decreases n, 0, |fs|
  {
    hide Linked, OpenAbove, Progress, Graph, AllRegistered, WriteFields, ReadFields, WriteObject, ReadObject;
    if fs == [] {
      NoFields(c, memory, rank, base, s, typ, done, n, tail);
    } else if fs[0].Data? {
      FieldsRoundTrip(c, memory, rank, base, s, typ, done + [DataCell(fs[0].value)], fs[1..], n, tail);
      DataField(c, memory, rank, base, s, typ, done, fs, n, tail);
    } else {
      var a := fs[0].target;
      OpenAboveTarget(rank, s.t, s.r, n, rank[a] + 1);
      var written := WriteObject(c, memory, rank, s.t, a);
      var after := if written.Ok? then WriteFields(c, memory, rank, written.value.table, fs[1..], n) else Err(Internal);
      var rest := if after.Ok? then after.value.words else [];
      ObjectRoundTrip(c, memory, rank, base, s, a, rest + tail);
      var w1, r1 := written.value, ReadObject(c, s.k, s.r, written.value.words + (rest + tail)).value;
      var s1 := After(s, w1, r1);
      OpenStaysAbove(base, rank, s, s1, n);
      FieldsRoundTrip(c, memory, rank, base, s1, typ, done + [LinkCell], fs[1..], n, tail);
      LinkField(c, memory, rank, base, s, typ, done, fs, n, tail);
    }
  }

  lemma OpenAboveTarget(rank: map<Ptr, nat>, t: Table, r: Table, n: nat, m: nat)
    requires OpenAbove(rank, t, r, n) && m <= n
    ensures OpenAbove(rank, t, r, m)
  {}

  /** A link and the fields after it, put together. */
  lemma LinkField(c: Classes, memory: Memory, rank: map<Ptr, nat>, base: Ptr, s: State, typ: TypeName, done: seq<Cell>,
                  fs: seq<Field>, n: nat, tail: seq<int>)
    requires Graph(c, memory, rank) && LinksBelow(memory, rank, fs, n) && Shaped(c, typ, done, fs) && fs != [] &&
             fs[0].Link?
    requires var a := fs[0].target;
             WriteObject(c, memory, rank, s.t, a).Ok? &&
             var w1 := WriteObject(c, memory, rank, s.t, a).value;
             WriteFields(c, memory, rank, w1.table, fs[1..], n).Ok? &&
             var w2 := WriteFields(c, memory, rank, w1.table, fs[1..], n).value;
             ObjectDone(c, memory, rank, base, s, a, w2.words + tail) &&
             var r1 := ReadObject(c, s.k, s.r, w1.words + (w2.words + tail)).value;
             FieldsDone(c, memory, rank, base, After(s, w1, r1), typ, done + [LinkCell], fs[1..], n, tail)
    ensures FieldsDone(c, memory, rank, base, s, typ, done, fs, n, tail)
  {
    hide Linked, Progress, FieldsCopied, IsCopy, Graph, Shaped, WriteFields, ReadFields, WriteObject, ReadObject;
    var a := fs[0].target;
    var w1 := WriteObject(c, memory, rank, s.t, a).value;
    var w2 := WriteFields(c, memory, rank, w1.table, fs[1..], n).value;
    var r1 := ReadObject(c, s.k, s.r, w1.words + (w2.words + tail)).value;
    var s1 := After(s, w1, r1);
    var b := ReadFields(c, r1.heap, r1.table, typ, done + [LinkCell], w2.words + tail).value;
    var s2 := After(s1, w2, b);
    WriteLinkField(c, memory, rank, s.t, fs, n);
    ReadLinkField(c, s.k, s.r, typ, done, fs, w1.words, w2.words + tail);
    assert w1.words + w2.words + tail == w1.words + (w2.words + tail);
    assert s.names + w1.names + w2.names == s.names + (w1.names + w2.names);
    assert s.made + w1.made + w2.made == s.made + (w1.made + w2.made);
    ProgressTrans(base, s, s1, s2);
    LinkCopied(base, s1.made, s2.made, fs, r1.value, b.value);
  }

  lemma LinkCopied(base: Ptr, made: seq<Ptr>, more: seq<Ptr>, fs: seq<Field>, q: Ptr, gs: seq<Field>)
    requires fs != [] && fs[0].Link? && IsCopy(base, made, fs[0].target, q) && made <= more
    requires FieldsCopied(base, more, fs[1..], gs)
    ensures FieldsCopied(base, more, fs, [Link(q)] + gs)
  {
    assert fs == [fs[0]] + fs[1..];
  }

  lemma WriteLinkField(c: Classes, memory: Memory, rank: map<Ptr, nat>, t: Table, fs: seq<Field>, n: nat)
    requires Graph(c, memory, rank) && LinksBelow(memory, rank, fs, n) && fs != [] && fs[0].Link?
    requires WriteObject(c, memory, rank, t, fs[0].target).Ok?
    requires WriteFields(c, memory, rank, WriteObject(c, memory, rank, t, fs[0].target).value.table, fs[1..], n).Ok?
    ensures var w1 := WriteObject(c, memory, rank, t, fs[0].target).value;
            var w2 := WriteFields(c, memory, rank, w1.table, fs[1..], n).value;
            WriteFields(c, memory, rank, t, fs, n) == Ok(Then(w1, w2))
  {
    hide WriteObject, Graph;
  }

  lemma ReadLinkField(c: Classes, k: Heap, r: Table, typ: TypeName, done: seq<Cell>, fs: seq<Field>, words: seq<int>,
                      rest: seq<int>)
    requires Shaped(c, typ, done, fs) && fs != [] && fs[0].Link?
    requires ReadObject(c, k, r, words + rest).Ok? && ReadObject(c, k, r, words + rest).value.rest == rest
    requires var r1 := ReadObject(c, k, r, words + rest).value;
             ReadFields(c, r1.heap, r1.table, typ, done + [LinkCell], rest).Ok?
    ensures var r1 := ReadObject(c, k, r, words + rest).value;
            var b := ReadFields(c, r1.heap, r1.table, typ, done + [LinkCell], rest).value;
            ReadFields(c, k, r, typ, done, words + rest)
            == Ok(Read(b.heap, b.table, [Link(r1.value)] + b.value, b.rest))
  {
    hide ReadObject;
    NextIsLink(c, typ, done, fs);
  }

  lemma NextIsLink(c: Classes, typ: TypeName, done: seq<Cell>, fs: seq<Field>)
    requires Shaped(c, typ, done, fs) && fs != [] && fs[0].Link?
    ensures c.next(typ, done) == ReadLink
  {}

  lemma DataField(c: Classes, memory: Memory, rank: map<Ptr, nat>, base: Ptr, s: State, typ: TypeName, done: seq<Cell>,
                  fs: seq<Field>, n: nat, tail: seq<int>)
    requires Graph(c, memory, rank) && LinksBelow(memory, rank, fs, n) && Shaped(c, typ, done, fs) && fs != [] &&
             fs[0].Data?
    requires FieldsDone(c, memory, rank, base, s, typ, done + [DataCell(fs[0].value)], fs[1..], n, tail)
    ensures FieldsDone(c, memory, rank, base, s, typ, done, fs, n, tail)
  {
    hide Linked, Progress, FieldsCopied, Graph, Shaped, WriteFields, ReadFields, WriteObject, ReadObject;
    var v := fs[0].value;
    var w := WriteFields(c, memory, rank, s.t, fs[1..], n).value;
    var b := ReadFields(c, s.k, s.r, typ, done + [DataCell(v)], w.words + tail).value;
    WriteDataField(c, memory, rank, s.t, fs, n);
    ReadDataField(c, s.k, s.r, typ, done, fs, w.words + tail);
    assert [v] + w.words + tail == [v] + (w.words + tail);
    DataCopied(base, s.made + w.made, fs, b.value);
  }

  lemma DataCopied(base: Ptr, made: seq<Ptr>, fs: seq<Field>, gs: seq<Field>)
    requires fs != [] && fs[0].Data? && FieldsCopied(base, made, fs[1..], gs)
    ensures FieldsCopied(base, made, fs, [fs[0]] + gs)
  {
    assert fs == [fs[0]] + fs[1..];
  }

  lemma WriteDataField(c: Classes, memory: Memory, rank: map<Ptr, nat>, t: Table, fs: seq<Field>, n: nat)
    requires Graph(c, memory, rank) && LinksBelow(memory, rank, fs, n) && fs != [] && fs[0].Data?
    requires WriteFields(c, memory, rank, t, fs[1..], n).Ok?
    ensures var w := WriteFields(c, memory, rank, t, fs[1..], n).value;
            WriteFields(c, memory, rank, t, fs, n) == Ok(Written(w.table, [fs[0].value] + w.words, w.names, w.made))
  {
    hide WriteObject, Graph;
    var w := WriteFields(c, memory, rank, t, fs[1..], n).value;
    assert [] + w.names == w.names && [] + w.made == w.made;
  }

  lemma ReadDataField(c: Classes, k: Heap, r: Table, typ: TypeName, done: seq<Cell>, fs: seq<Field>, rest: seq<int>)
    requires Shaped(c, typ, done, fs) && fs != [] && fs[0].Data?
    requires ReadFields(c, k, r, typ, done + [DataCell(fs[0].value)], rest).Ok?
    ensures var b := ReadFields(c, k, r, typ, done + [DataCell(fs[0].value)], rest).value;
            ReadFields(c, k, r, typ, done, [fs[0].value] + rest) == Ok(Read(b.heap, b.table, [fs[0]] + b.value, b.rest))
  {
    hide ReadObject;
    assert ([fs[0].value] + rest)[1..] == rest;
  }

  lemma NoFields(c: Classes, memory: Memory, rank: map<Ptr, nat>, base: Ptr, s: State, typ: TypeName, done: seq<Cell>,
                 n: nat, tail: seq<int>)
    requires Graph(c, memory, rank) && Shaped(c, typ, done, []) && Linked(c, memory, base, s)
    ensures FieldsDone(c, memory, rank, base, s, typ, done, [], n, tail)
  {
    hide Linked, Progress, Graph;
    assert [] + tail == tail && s.names + [] == s.names && s.made + [] == s.made;
    NoProgress(base, s);
  }

  // ---- a session ----

  ghost predicate RootsCopied(base: Ptr, made: seq<Ptr>, roots: seq<Ptr>, qs: seq<Ptr>) {
    |qs| == |roots| && forall j :: 0 <= j < |roots| ==> IsCopy(base, made, roots[j], qs[j])
  }

  ghost predicate RootsDone(c: Classes, memory: Memory, rank: map<Ptr, nat>, base: Ptr, s: State, roots: seq<Ptr>,
                            tail: seq<int>)
    requires Graph(c, memory, rank) && forall p :: p in roots ==> p in memory
  {
    && WriteRoots(c, memory, rank, s.t, roots).Ok?
    && var w := WriteRoots(c, memory, rank, s.t, roots).value;
    var read := ReadRoots(c, s.k, s.r, |roots|, w.words + tail);
    read.Ok? && read.value.rest == tail
    && var s' := After(s, w, read.value);
    Linked(c, memory, base, s') && Progress(base, s, s') && RootsCopied(base, s'.made, roots, read.value.value)
  }

  ghost predicate NothingOpen(s: State) { forall i :: i in s.t.idToObj ==> i in s.r.idToObj }

  lemma NothingOpenAbove(rank: map<Ptr, nat>, s: State, n: nat)
    requires NothingOpen(s)
    ensures OpenAbove(rank, s.t, s.r, n)
  {}

  lemma {:induction false} RootsRoundTrip(c: Classes, memory: Memory, rank: map<Ptr, nat>, base: Ptr, s: State,
                                          roots: seq<Ptr>, tail: seq<int>)
    requires Graph(c, memory, rank) && AllRegistered(c, memory) && forall p :: p in roots ==> p in memory
    requires Linked(c, memory, base, s) && NothingOpen(s)
    ensures RootsDone(c, memory, rank, base, s, roots, tail)
    decreases |roots|
  {
    hide Linked, Progress, WriteObject, ReadObject, RootsCopied, IsCopy, OpenId;
    if roots == [] {
      NoProgress(base, s);
      assert s.names + [] == s.names && s.made + [] == s.made && [] + tail == tail;
      NoRoots(base, s.made);
    } else {
      var p := roots[0];
      NothingOpenAbove(rank, s, rank[p] + 1);
      hide Graph, AllRegistered, NothingOpen, WriteRoots;
      var written := WriteObject(c, memory, rank, s.t, p);
      var after := if written.Ok? then WriteRoots(c, memory, rank, written.value.table, roots[1..]) else Err(Internal);
      var rest := if after.Ok? then after.value.words else [];
      ObjectRoundTrip(c, memory, rank, base, s, p, rest + tail);
      var w1, r1 := written.value, ReadObject(c, s.k, s.r, written.value.words + (rest + tail)).value;
      var s1 := After(s, w1, r1);
      assert NothingOpen(s1) by { OpenAfter(base, s, s1); }
      RootsRoundTrip(c, memory, rank, base, s1, roots[1..], tail);
      FirstRoot(c, memory, rank, base, s, roots, tail);
    }
  }

  lemma NoRoots(base: Ptr, made: seq<Ptr>)
    ensures RootsCopied(base, made, [], [])
  {}

  lemma OpenAfter(base: Ptr, s: State, s': State)
    requires Progress(base, s, s') && NothingOpen(s)
    ensures NothingOpen(s')
  {
    forall i | i in s'.t.idToObj ensures i in s'.r.idToObj { assert OpenId(s', i) <==> OpenId(s, i); }
  }

  lemma FirstRoot(c: Classes, memory: Memory, rank: map<Ptr, nat>, base: Ptr, s: State, roots: seq<Ptr>, tail: seq<int>)
    requires Graph(c, memory, rank) && roots != [] && forall p :: p in roots ==> p in memory
    requires WriteObject(c, memory, rank, s.t, roots[0]).Ok? &&
             var w1 := WriteObject(c, memory, rank, s.t, roots[0]).value;
             WriteRoots(c, memory, rank, w1.table, roots[1..]).Ok? &&
             var w2 := WriteRoots(c, memory, rank, w1.table, roots[1..]).value;
             ObjectDone(c, memory, rank, base, s, roots[0], w2.words + tail) &&
             var r1 := ReadObject(c, s.k, s.r, w1.words + (w2.words + tail)).value;
             RootsDone(c, memory, rank, base, After(s, w1, r1), roots[1..], tail)
    ensures RootsDone(c, memory, rank, base, s, roots, tail)
  {
    hide Linked, Progress, WriteObject, ReadObject, RootsCopied, IsCopy, Graph;
    var w1 := WriteObject(c, memory, rank, s.t, roots[0]).value;
    var w2 := WriteRoots(c, memory, rank, w1.table, roots[1..]).value;
    var r1 := ReadObject(c, s.k, s.r, w1.words + (w2.words + tail)).value;
    var s1 := After(s, w1, r1);
    var b := ReadRoots(c, r1.heap, r1.table, |roots| - 1, w2.words + tail).value;
    var s2 := After(s1, w2, b);
    assert w1.words + w2.words + tail == w1.words + (w2.words + tail);
    assert s.names + w1.names + w2.names == s.names + (w1.names + w2.names);
    assert s.made + w1.made + w2.made == s.made + (w1.made + w2.made);
    ProgressTrans(base, s, s1, s2);
    RootCopied(base, s1, s2, roots, r1.value, b.value);
  }

  lemma RootCopied(base: Ptr, s1: State, s2: State, roots: seq<Ptr>, q: Ptr, qs: seq<Ptr>)
    requires roots != [] && IsCopy(base, s1.made, roots[0], q) && Progress(base, s1, s2)
    requires RootsCopied(base, s2.made, roots[1..], qs)
    ensures RootsCopied(base, s2.made, roots, [q] + qs)
  {
    assert roots == [roots[0]] + roots[1..];
  }
}
