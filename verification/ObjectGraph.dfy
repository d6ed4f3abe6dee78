/** Serialization of object graphs with sharing, on values: the object memory, the reference-count
    table and the two recursive procedures of src/core/serializerimpl.cpp and src/core/srefcounttbl.cpp. */
module ObjectGraph {

  type Ptr = nat
  type TypeName = string
  type Id = int  // 0 stands for "no id"

  /** A member variable of a serializable object: plain data, or a pointer to another such object. */
  datatype Field = Data(value: int) | Link(target: Ptr)

  datatype Object = Object(typ: TypeName, fields: seq<Field>, refCount: int)

  type Memory = map<Ptr, Object>

  /** What a class's Read has seen of its own body when it decides what to read next. */
  datatype Cell = DataCell(value: int) | LinkCell

  datatype Next = ReadData | ReadLink | Done

  /** The static creation maps, keyed by the CRC of the type name, and what the classes themselves fix:
      their version and how Read walks a body. */
  datatype Classes = Classes(refCounted: map<int, TypeName>, plain: map<int, TypeName>,
                             crc: TypeName -> int, version: TypeName -> int, next: (TypeName, seq<Cell>) -> Next)

  datatype Error = UnknownType | EndOfArchive | Internal

  datatype Result<+T> = Ok(value: T) | Err(error: Error) {
    predicate IsFailure() { Err? }
    function PropagateFailure<U>(): Result<U>
      requires Err?
    {
      Err(error)
    }
    function Extract(): T
      requires Ok?
    {
      value
    }
  }

  // ---- cSerRefCountTable ----

  datatype Table = Table(idToObj: map<Id, Ptr>, objToId: map<Ptr, Id>)

  const EMPTY: Table := Table(map[], map[])

  /** The two maps are inverse to each other, and no object has id 0. */
  ghost predicate Inverse(t: Table) {
    && (forall p :: p in t.objToId ==> t.objToId[p] != 0 && t.objToId[p] in t.idToObj && t.idToObj[t.objToId[p]] == p)
    && (forall i :: i in t.idToObj ==> t.idToObj[i] in t.objToId && t.objToId[t.idToObj[i]] == i)
  }

  function LookupObject(t: Table, p: Ptr): Id { if p in t.objToId then t.objToId[p] else 0 }

  lemma HasMember(s: set<Id>)
    requires s != {}
    ensures exists x :: x in s
  {
    if forall x :: x !in s { assert false; }
  }

  lemma {:induction false} LargestExists(s: set<Id>) returns (k: Id)
    requires s != {}
    ensures k in s && forall j :: j in s ==> j <= k
  {
    HasMember(s);
    k :| k in s;
    if s != {k} {
      var rest := s - {k};
      assert forall j :: j in s ==> j == k || j in rest;
      assert rest != {} by { assert s == rest + {k}; }
      var l := LargestExists(rest);
      if l > k { k := l; }
    }
  }

  /** mIDToObjTbl.rbegin()->first */
  function LargestId(m: map<Id, Ptr>): (k: Id)
    requires m != map[]
    ensures k in m && forall j :: j in m ==> j <= k
  {
    var keys := m.Keys;
    assert keys != {} && exists k :: k in keys && forall j :: j in keys ==> j <= k by {
      assert m.Keys == {} ==> m == map[];
      var k := LargestExists(keys);
    }
    var k :| k in keys && forall j :: j in keys ==> j <= k;
    k
  }

  /** Add: with id 0 a new id is made; an object or id already present is an internal error. */
  function Add(t: Table, p: Ptr, id: Id): Result<(Table, Id)> {
    if LookupObject(t, p) != 0 then Err(Internal)
    else
      var newId := if id != 0 then id else if t.idToObj == map[] then 1 else LargestId(t.idToObj) + 1;
      if id != 0 && id in t.idToObj then Err(Internal)
      else Ok((Table(t.idToObj[newId := p], t.objToId[p := newId]), newId))
  }

  /** Refused exactly for an object or an id that is there already; else the object has the id asked for, or the next
      one above the largest, and the maps stay inverse. */
  lemma AddKeepsInverse(t: Table, p: Ptr, id: Id)
    requires Inverse(t)
    ensures Add(t, p, id).Err? <==> p in t.objToId || (id != 0 && id in t.idToObj)
    ensures Add(t, p, id).Ok? ==>
              var (t', newId) := Add(t, p, id).value;
              && newId !in t.idToObj && t'.idToObj == t.idToObj[newId := p] && t'.objToId == t.objToId[p := newId]
              && (newId != 0 ==> Inverse(t'))
              && if id != 0 then newId == id else NextId(t, newId)
  {}

  /** One above every id in use, and the first such */
  ghost predicate NextId(t: Table, id: Id) {
    && (forall i :: i in t.idToObj ==> i < id)
    && (if t.idToObj == map[] then id == 1 else id - 1 in t.idToObj)
  }

  // ---- the graph to be written ----

  ghost predicate Shaped(c: Classes, typ: TypeName, done: seq<Cell>, fields: seq<Field>)
    decreases |fields|
  {
    match c.next(typ, done)
    case Done => fields == []
    case ReadData => fields != [] && fields[0].Data? && Shaped(c, typ, done + [DataCell(fields[0].value)], fields[1..])
    case ReadLink => fields != [] && fields[0].Link? && Shaped(c, typ, done + [LinkCell], fields[1..])
  }

  /** Every link goes to an object of smaller rank. */
  ghost predicate LinksBelow(memory: Memory, rank: map<Ptr, nat>, fields: seq<Field>, r: nat) {
    forall k :: 0 <= k < |fields| && fields[k].Link? ==>
      fields[k].target in memory && fields[k].target in rank && rank[fields[k].target] < r
  }

  /** An acyclic graph, closed under its links, whose bodies have the shape their classes read. */
  ghost predicate Graph(c: Classes, memory: Memory, rank: map<Ptr, nat>) {
    forall p :: p in memory ==>
      p in rank && LinksBelow(memory, rank, memory[p].fields, rank[p]) && Shaped(c, memory[p].typ, [], memory[p].fields)
  }

  predicate IsRefCounted(c: Classes, typ: TypeName) { c.crc(typ) in c.refCounted }

  /** The type was registered, in one of the two maps, and its CRC leads back to it. */
  predicate Registered(c: Classes, typ: TypeName) {
    var k := c.crc(typ);
    if k in c.refCounted then c.refCounted[k] == typ else k in c.plain && c.plain[k] == typ
  }

  // ---- WriteObjectDynCreate ----

  /** What writing leaves behind: the table, the 32-bit words, the ids named by its records, and the objects whose
      bodies it wrote, one for each record that has a body, in the order of the headers. */
  datatype Written = Written(table: Table, words: seq<int>, names: seq<Id>, made: seq<Ptr>)

  const SIZE_PLACEHOLDER: int := 0xffffffff

  function Header(c: Classes, typ: TypeName, id: Id): seq<int> {
    [c.crc(typ), c.version(typ), SIZE_PLACEHOLDER, id]
  }

  ghost function WriteObject(c: Classes, memory: Memory, rank: map<Ptr, nat>, t: Table, p: Ptr): Result<Written>
    requires Graph(c, memory, rank) && p in memory
    decreases rank[p], 1, 0
  {
    var typ, fields := memory[p].typ, memory[p].fields;
    if IsRefCounted(c, typ) then
      if LookupObject(t, p) == 0 then
        var (t1, id) :- Add(t, p, 0);
        var body :- WriteFields(c, memory, rank, t1, fields, rank[p]);
        Ok(Written(body.table, Header(c, typ, id) + body.words, [id] + body.names, [p] + body.made))
      else
        Ok(Written(t, Header(c, typ, LookupObject(t, p)), [LookupObject(t, p)], []))
    else if c.crc(typ) in c.plain then
      var body :- WriteFields(c, memory, rank, t, fields, rank[p]);
      Ok(Written(body.table, Header(c, typ, 0) + body.words, body.names, [p] + body.made))
    else
      Err(UnknownType)
  }

  /** Write of an object: its fields in order. */
  ghost function WriteFields(c: Classes, memory: Memory, rank: map<Ptr, nat>, t: Table, fields: seq<Field>,
                             r: nat): Result<Written>
    requires Graph(c, memory, rank) && LinksBelow(memory, rank, fields, r)
    decreases r, 0, |fields|
  {
    if fields == [] then Ok(Written(t, [], [], []))
    else
      var first :- if fields[0].Data? then Ok(Written(t, [fields[0].value], [], []))
                   else WriteObject(c, memory, rank, t, fields[0].target);
      var rest :- WriteFields(c, memory, rank, first.table, fields[1..], r);
      Ok(Then(first, rest))
  }

  function Then(first: Written, rest: Written): Written {
    Written(rest.table, first.words + rest.words, first.names + rest.names, first.made + rest.made)
  }

  /** A session: one call of WriteObjectDynCreate after another through one table. */
  ghost function WriteRoots(c: Classes, memory: Memory, rank: map<Ptr, nat>, t: Table,
                            roots: seq<Ptr>): Result<Written>
    requires Graph(c, memory, rank) && forall p :: p in roots ==> p in memory
    decreases |roots|
  {
    if roots == [] then Ok(Written(t, [], [], []))
    else
      var first :- WriteObject(c, memory, rank, t, roots[0]);
      var rest :- WriteRoots(c, memory, rank, first.table, roots[1..]);
      Ok(Then(first, rest))
  }

  // ---- ReadObjectDynCreate ----

  /** The memory being built; addresses from `next` on are free. */
  datatype Heap = Heap(objects: Memory, next: Ptr)

  datatype Read<+T> = Read(heap: Heap, table: Table, value: T, rest: seq<int>)

  /** AddRef throws on a dead object. */
  function AddRef(heap: Heap, q: Ptr): Result<Heap> {
    if q !in heap.objects || heap.objects[q].refCount <= 0 then Err(Internal)
    else Ok(heap.(objects := heap.objects[q := heap.objects[q].(refCount := heap.objects[q].refCount + 1)]))
  }

  /** Reserving the address of a new object. */
  function Reserve(heap: Heap): Heap { heap.(next := heap.next + 1) }

  function Store(heap: Heap, q: Ptr, o: Object): Heap { heap.(objects := heap.objects[q := o]) }

  ghost function ReadObject(c: Classes, heap: Heap, t: Table, words: seq<int>): (r: Result<Read<Ptr>>)
    ensures r.Ok? ==> |r.value.rest| < |words|
    decreases |words|, 0
  {
    if |words| < 4 then Err(EndOfArchive)
    else
      var crc, id, body := words[0], words[3], words[4..];
      if id == 0 then
        if crc !in c.plain then Err(UnknownType)
        else
          var b :- ReadFields(c, Reserve(heap), t, c.plain[crc], [], body);
          Ok(Read(Store(b.heap, heap.next, Object(c.plain[crc], b.value, 1)), b.table, heap.next, b.rest))
      else if id in t.idToObj then
        var heap' :- AddRef(heap, t.idToObj[id]);
        Ok(Read(heap', t, t.idToObj[id], body))
      else if crc !in c.refCounted then Err(UnknownType)
      else
        var b :- ReadFields(c, Reserve(heap), t, c.refCounted[crc], [], body);
        var (t1, _) :- Add(b.table, heap.next, id);
        Ok(Read(Store(b.heap, heap.next, Object(c.refCounted[crc], b.value, 1)), t1, heap.next, b.rest))
  }

  /** Read of an object: what to read next depends on what was read. */
  ghost function ReadFields(c: Classes, heap: Heap, t: Table, typ: TypeName, done: seq<Cell>,
                            words: seq<int>): (r: Result<Read<seq<Field>>>)
    ensures r.Ok? ==> |r.value.rest| <= |words|
    decreases |words|, 1
  {
    match c.next(typ, done)
    case Done => Ok(Read(heap, t, [], words))
    case ReadData =>
      if words == [] then Err(EndOfArchive)
      else
        var b :- ReadFields(c, heap, t, typ, done + [DataCell(words[0])], words[1..]);
        Ok(Read(b.heap, b.table, [Data(words[0])] + b.value, b.rest))
    case ReadLink =>
      var first :- ReadObject(c, heap, t, words);
      var b :- ReadFields(c, first.heap, first.table, typ, done + [LinkCell], first.rest);
      Ok(Read(b.heap, b.table, [Link(first.value)] + b.value, b.rest))
  }

  /** As many calls of ReadObjectDynCreate */
  ghost function ReadRoots(c: Classes, heap: Heap, t: Table, n: nat, words: seq<int>): Result<Read<seq<Ptr>>>
    decreases n
  {
    if n == 0 then Ok(Read(heap, t, [], words))
    else
      var first :- ReadObject(c, heap, t, words);
      var b :- ReadRoots(c, first.heap, first.table, n - 1, first.rest);
      Ok(Read(b.heap, b.table, [first.value] + b.value, b.rest))
  }
}
