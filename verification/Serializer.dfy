/** The classes of src/core/srefcounttbl.cpp:50-107 and src/core/serializerimpl.cpp:104-331 with their
    fields updated in place; their results are the functions of ObjectGraph. */
module Serializer {
  import opened ObjectGraph
  import opened GraphWriter

  class RefCountTable {
    var mIDToObjTbl: map<Id, Ptr>
    var mObjToIdTbl: map<Ptr, Id>

    function Value(): Table
      reads this
    {
      Table(mIDToObjTbl, mObjToIdTbl)
    }

    constructor ()
      ensures Value() == EMPTY
    {
      mIDToObjTbl, mObjToIdTbl := map[], map[];
    }

    method Clear()
      modifies this
      ensures Value() == EMPTY
    {
      mIDToObjTbl := map[];
      mObjToIdTbl := map[];
    }

    /** 0 if the object is not in the table */
    method LookupObj(p: Ptr) returns (id: Id)
      ensures id == LookupObject(Value(), p)
    {
      id := if p in mObjToIdTbl then mObjToIdTbl[p] else 0;
    }

    /** Not found, with 0, stands for the null pointer. */
    method LookupId(id: Id) returns (found: bool, p: Ptr)
      ensures found == (id in Value().idToObj) && (found ==> p == Value().idToObj[id])
    {
      found := id in mIDToObjTbl;
      p := if found then mIDToObjTbl[id] else 0;
    }

    method AddObj(p: Ptr, id0: Id) returns (r: Result<Id>)
      modifies this
      ensures r.Err? <==> Add(old(Value()), p, id0).Err?
      ensures r.Err? ==> r.error == Add(old(Value()), p, id0).error && Value() == old(Value())
      ensures r.Ok? ==> (Value(), r.value) == Add(old(Value()), p, id0).value
    {
      var known := LookupObj(p);
      if known != 0 { return Err(Internal); }
      var id := id0;
      if id == 0 {
        id := if mIDToObjTbl == map[] then 1 else LargestId(mIDToObjTbl) + 1;
      } else {
        var taken, _ := LookupId(id);
        if taken { return Err(Internal); }
      }
      mIDToObjTbl := mIDToObjTbl[id := p];
      mObjToIdTbl := mObjToIdTbl[p := id];
      return Ok(id);
    }
  }

  class SerializerImpl {
    var archive: seq<int>     // 32-bit words
    var head: nat             // read position
    const mRefCtObjTbl: RefCountTable
    var memory: Heap          // the objects that reading creates
    const classes: Classes    // mSerCreateMap, mSerRefCountCreateMap

    ghost predicate Valid()
      reads this
    {
      head <= |archive|
    }

    constructor (classes: Classes, archive: seq<int>, memory: Heap)
      ensures Valid() && this.archive == archive && head == 0 && this.memory == memory && this.classes == classes
      ensures fresh(mRefCtObjTbl) && mRefCtObjTbl.Value() == EMPTY
    {
      this.classes, this.archive, this.memory, head := classes, archive, memory, 0;
      mRefCtObjTbl := new RefCountTable();
    }

    method Init()
      modifies mRefCtObjTbl
      ensures mRefCtObjTbl.Value() == EMPTY
    {
      mRefCtObjTbl.Clear();
    }

    method WriteInt32(i: int)
      modifies this`archive
      ensures archive == old(archive) + [i]
    {
      archive := archive + [i];
    }

    method ReadInt32() returns (r: Result<int>)
      requires Valid()
      modifies this`head
      ensures Valid()
      ensures r.Ok? <==> old(head) < |archive|
      ensures r.Ok? ==> r.value == archive[old(head)] && head == old(head) + 1
      ensures r.Err? ==> r.error == EndOfArchive
    {
      if head == |archive| { return Err(EndOfArchive); }
      head := head + 1;
      return Ok(archive[head - 1]);
    }

    /** The type, the version and the room for the size of a record */
    method WriteStart(typ: TypeName)
      modifies this`archive
      ensures archive == old(archive) + [classes.crc(typ), classes.version(typ), 0xffffffff]
    {
      WriteInt32(classes.crc(typ));
      WriteInt32(classes.version(typ));
      WriteInt32(SIZE_PLACEHOLDER);
    }

    /** WriteObjectDynCreate: appends the words of the record and leaves the writer's table. */
    method WriteObjectDynCreate(graph: Memory, ghost rank: map<Ptr, nat>, p: Ptr) returns (r: Result<()>)
      requires Graph(classes, graph, rank) && p in graph
      modifies this`archive, mRefCtObjTbl
      ensures var w := WriteObject(classes, graph, rank, old(mRefCtObjTbl.Value()), p);
              if w.Ok? then r.Ok? && archive == old(archive) + w.value.words && mRefCtObjTbl.Value() == w.value.table
              else r == Err(w.error)
      ensures r.Ok? ==> RecordAt(classes, graph[p].typ, archive, |old(archive)|)
      decreases rank[p], 1, 0
    {
      RecordWords(classes, graph, rank, mRefCtObjTbl.Value(), p, archive);
      hide RecordAt;
      assert LinksBelow(graph, rank, graph[p].fields, rank[p]);
      hide LinksBelow, WriteObject, WriteFields, Shaped, Graph, Add;
      ghost var before := archive;
      WriteObjectCases(classes, graph, rank, mRefCtObjTbl.Value(), p);
      var typ, fields := graph[p].typ, graph[p].fields;
      var crc := classes.crc(typ);
      var bRefCount := true;
      if crc !in classes.refCounted {
        if crc !in classes.plain { return Err(UnknownType); }
        bRefCount := false;
      }
      hide Header;
      WriteStart(typ);
      if bRefCount {
        var idx := mRefCtObjTbl.LookupObj(p);
        if idx == 0 {
          r := WriteNew(graph, rank, p);
          if r.Ok? { HeaderAndBody(classes, typ, before, archive); }
        } else {
          WriteInt32(idx);
          HeaderAndBody(classes, typ, before, archive);
          return Ok(());
        }
      } else {
        WriteInt32(0);
        r := WriteBody(graph, rank, fields, rank[p]);
        if r.Ok? { HeaderAndBody(classes, typ, before, archive); }
      }
    }

    /** A shared object for the first time: into the table, then its id and its body */
    method WriteNew(graph: Memory, ghost rank: map<Ptr, nat>, p: Ptr) returns (r: Result<()>)
      requires Graph(classes, graph, rank) && p in graph && p in rank &&
               LinksBelow(graph, rank, graph[p].fields, rank[p])
      requires Add(mRefCtObjTbl.Value(), p, 0).Ok?
      modifies this`archive, mRefCtObjTbl
      ensures var (t, id) := Add(old(mRefCtObjTbl.Value()), p, 0).value;
              var w := WriteFields(classes, graph, rank, t, graph[p].fields, rank[p]);
              if w.Ok? then
                r.Ok? && archive == old(archive) + [id] + w.value.words && mRefCtObjTbl.Value() == w.value.table
              else r == Err(w.error)
      decreases rank[p], 0, |graph[p].fields| + 1
    {
      hide LinksBelow, WriteFields, Shaped, Graph, Add;
      var added := mRefCtObjTbl.AddObj(p, 0);
      WriteInt32(added.value);
      r := WriteBody(graph, rank, graph[p].fields, rank[p]);
    }

    /** Write of an object: its members in order. */
    method WriteBody(graph: Memory, ghost rank: map<Ptr, nat>, fields: seq<Field>, ghost n: nat) returns (r: Result<()>)
      requires Graph(classes, graph, rank) && LinksBelow(graph, rank, fields, n)
      modifies this`archive, mRefCtObjTbl
      ensures var w := WriteFields(classes, graph, rank, old(mRefCtObjTbl.Value()), fields, n);
              if w.Ok? then r.Ok? && archive == old(archive) + w.value.words && mRefCtObjTbl.Value() == w.value.table
              else r == Err(w.error)
      decreases n, 0, |fields|
    {
      hide WriteObject, WriteFields, Graph;
      WriteFieldsCases(classes, graph, rank, mRefCtObjTbl.Value(), fields, n);
      if fields == [] { return Ok(()); }
      match fields[0] {
        case Data(v) => WriteInt32(v);
        case Link(a) =>
          r := WriteObjectDynCreate(graph, rank, a);
          if r.Err? { return r; }
      }
      r := WriteBody(graph, rank, fields[1..], n);
    }

    /** What is left to read */
    function Unread(): seq<int>
      requires Valid()
      reads this
    {
      archive[head..]
    }

    /** ReadObjectDynCreate: consumes the record and builds the object. */
    method ReadObjectDynCreate() returns (r: Result<Ptr>)
      requires Valid()
      modifies this`head, this`memory, mRefCtObjTbl
      ensures Valid()
      ensures var rd := ReadObject(classes, old(memory), old(mRefCtObjTbl.Value()), old(Unread()));
              if rd.Ok? then
                && r == Ok(rd.value.value) && memory == rd.value.heap
                && mRefCtObjTbl.Value() == rd.value.table && Unread() == rd.value.rest
              else r == Err(rd.error)
      decreases |archive| - head, 0
    {
      ghost var words := Unread();
      var crc := ReadInt32();
      if crc.Err? { return Err(crc.error); }
      var version := ReadInt32();
      if version.Err? { return Err(version.error); }
      var size := ReadInt32();
      if size.Err? { return Err(size.error); }
      var objIdx := ReadInt32();
      if objIdx.Err? { return Err(objIdx.error); }
      assert Unread() == words[4..] && crc.value == words[0] && objIdx.value == words[3];
      var q := memory.next;
      if objIdx.value == 0 {
        if crc.value !in classes.plain { return Err(UnknownType); }
        memory := Reserve(memory);
        var body := ReadBody(classes.plain[crc.value], []);
        if body.Err? { return Err(body.error); }
        memory := Store(memory, q, Object(classes.plain[crc.value], body.value, 1));
        return Ok(q);
      }
      var found, p := mRefCtObjTbl.LookupId(objIdx.value);
      if found {
        var counted := AddRef(memory, p);
        if counted.Err? { return Err(counted.error); }
        memory := counted.value;
        return Ok(p);
      }
      if crc.value !in classes.refCounted { return Err(UnknownType); }
      memory := Reserve(memory);
      var body := ReadBody(classes.refCounted[crc.value], []);
      if body.Err? { return Err(body.error); }
      var added := mRefCtObjTbl.AddObj(q, objIdx.value);
      if added.Err? { return Err(added.error); }
      memory := Store(memory, q, Object(classes.refCounted[crc.value], body.value, 1));
      return Ok(q);
    }

    /** Read of an object: its class decides from what it has read what comes next. */
    method ReadBody(typ: TypeName, done: seq<Cell>) returns (r: Result<seq<Field>>)
      requires Valid()
      modifies this`head, this`memory, mRefCtObjTbl
      ensures Valid()
      ensures var rd := ReadFields(classes, old(memory), old(mRefCtObjTbl.Value()), typ, done, old(Unread()));
              if rd.Ok? then
                && r == Ok(rd.value.value) && memory == rd.value.heap
                && mRefCtObjTbl.Value() == rd.value.table && Unread() == rd.value.rest
              else r == Err(rd.error)
      decreases |archive| - head, 1
    {
      ghost var words := Unread();
      match classes.next(typ, done) {
        case Done => return Ok([]);
        case ReadData =>
          var v := ReadInt32();
          if v.Err? { return Err(v.error); }
          assert Unread() == words[1..] && v.value == words[0];
          var rest := ReadBody(typ, done + [DataCell(v.value)]);
          if rest.Err? { return rest; }
          return Ok([Data(v.value)] + rest.value);
        case ReadLink =>
          var q := ReadObjectDynCreate();
          if q.Err? { return Err(q.error); }
          var rest := ReadBody(typ, done + [LinkCell]);
          if rest.Err? { return rest; }
          return Ok([Link(q.value)] + rest.value);
      }
    }
  }

  // ---- the words of a record ----

  /** A record starts with the CRC of the type, the version, the size not yet known, and the id. */
  predicate RecordAt(c: Classes, typ: TypeName, words: seq<int>, at: nat) {
    && at + 4 <= |words|
    && words[at] == c.crc(typ) && words[at + 1] == c.version(typ) && words[at + 2] == 0xffffffff
  }

  /** What was appended after the start of a record: its id, and a body */
  lemma HeaderAndBody(c: Classes, typ: TypeName, before: seq<int>, after: seq<int>)
    requires |after| >= |before| + 4 && after[..|before| + 3] == before + [c.crc(typ), c.version(typ), 0xffffffff]
    ensures after == before + (Header(c, typ, after[|before| + 3]) + after[|before| + 4..])
  {}

  lemma RecordWords(c: Classes, memory: Memory, rank: map<Ptr, nat>, t: Table, p: Ptr, before: seq<int>)
    requires Graph(c, memory, rank) && p in memory
    ensures var w := WriteObject(c, memory, rank, t, p);
            w.Ok? ==> RecordAt(c, memory[p].typ, before + w.value.words, |before|)
  {
    WriteObjectCases(c, memory, rank, t, p);
    hide WriteObject, WriteFields, Graph, Add;
  }

  /** The id of a record: none for a plain object, else the object's in the table afterwards. */
  lemma RecordId(c: Classes, memory: Memory, rank: map<Ptr, nat>, t: Table, p: Ptr)
    requires Graph(c, memory, rank) && AllRegistered(c, memory) && p in memory && GoodTable(c, memory, t)
    ensures var w := WriteObject(c, memory, rank, t, p);
            && w.Ok? && |w.value.words| >= 4
            && (!IsRefCounted(c, memory[p].typ) ==> w.value.words[3] == 0)
            && (IsRefCounted(c, memory[p].typ) ==>
                  && p in w.value.table.objToId && w.value.words[3] == w.value.table.objToId[p]
                  && 1 <= w.value.words[3] <= |w.value.table.idToObj|)
  {
    hide WriteObject, WriteFields, Graph, Add, AllRegistered, SharedOnce, PlainEachTime, Complete, Caused,
      FirstVisitOrder;
    WriteObjectCases(c, memory, rank, t, p);
    ObjectEffect(c, memory, rank, t, p);
    if IsRefCounted(c, memory[p].typ) && p !in t.objToId {
      NewId(c, memory, t, p);
      var (t1, id) := Add(t, p, 0).value;
      FieldsEffect(c, memory, rank, t1, memory[p].fields, rank[p]);
    }
  }

  predicate DataOnly(fields: seq<Field>) { forall i :: 0 <= i < |fields| ==> fields[i].Data? }

  /** The members of a body without links, one word each */
  lemma {:induction false} DataWords(c: Classes, memory: Memory, rank: map<Ptr, nat>, t: Table, fields: seq<Field>,
                                     n: nat)
    requires Graph(c, memory, rank) && DataOnly(fields)
    ensures LinksBelow(memory, rank, fields, n)
    ensures var w := WriteFields(c, memory, rank, t, fields, n);
            w.Ok? && |w.value.words| == |fields|
            && forall i :: 0 <= i < |fields| ==> w.value.words[i] == fields[i].value
    decreases |fields|
  {
    hide Graph;
    if fields != [] {
      DataWords(c, memory, rank, t, fields[1..], n);
      WriteFieldsCases(c, memory, rank, t, fields, n);
    }
  }

  /** An object without links is written as its header and its members; one that was written before, as its header. */
  lemma FlatRecord(c: Classes, memory: Memory, rank: map<Ptr, nat>, t: Table, p: Ptr)
    requires Graph(c, memory, rank) && p in memory && DataOnly(memory[p].fields)
    ensures var w := WriteObject(c, memory, rank, t, p);
            w.Ok? ==>
              var known := IsRefCounted(c, memory[p].typ) && LookupObject(t, p) != 0;
              var fields := memory[p].fields;
              && |w.value.words| == (if known then 4 else 4 + |fields|)
              && forall i :: 4 <= i < |w.value.words| ==> w.value.words[i] == fields[i - 4].value
  {
    WriteObjectCases(c, memory, rank, t, p);
    DataWords(c, memory, rank, t, memory[p].fields, rank[p]);
    if Add(t, p, 0).Ok? { DataWords(c, memory, rank, Add(t, p, 0).value.0, memory[p].fields, rank[p]); }
    hide WriteObject, WriteFields, Graph, Add;
  }

  /** WriteObject by kind of record. */
  lemma WriteObjectCases(c: Classes, memory: Memory, rank: map<Ptr, nat>, t: Table, p: Ptr)
    requires Graph(c, memory, rank) && p in memory
    ensures p in rank && LinksBelow(memory, rank, memory[p].fields, rank[p])
    ensures var typ, id, w := memory[p].typ, LookupObject(t, p), WriteObject(c, memory, rank, t, p);
            if !IsRefCounted(c, typ) && c.crc(typ) !in c.plain then w == Err(UnknownType)
            else if !IsRefCounted(c, typ) then
              var body := WriteFields(c, memory, rank, t, memory[p].fields, rank[p]);
              if body.Ok? then
                w == Ok(Written(body.value.table, Header(c, typ, 0) + body.value.words, body.value.names,
                                [p] + body.value.made))
              else w == Err(body.error)
            else if id != 0 then w == Ok(Written(t, Header(c, typ, id), [id], []))
            else (
              Add(t, p, 0).Ok? &&
              var (t1, newId) := Add(t, p, 0).value;
              var body := WriteFields(c, memory, rank, t1, memory[p].fields, rank[p]);
              if body.Ok? then
                w == Ok(Written(body.value.table, Header(c, typ, newId) + body.value.words, [newId] + body.value.names,
                                [p] + body.value.made))
              else w == Err(body.error))
  {
    hide WriteFields;
  }

  lemma WriteFieldsCases(c: Classes, memory: Memory, rank: map<Ptr, nat>, t: Table, fields: seq<Field>, n: nat)
    requires Graph(c, memory, rank) && LinksBelow(memory, rank, fields, n)
    ensures var w := WriteFields(c, memory, rank, t, fields, n);
            if fields == [] then w == Ok(Written(t, [], [], []))
            else
              var first :=
                if fields[0].Data? then Ok(Written(t, [fields[0].value], [], []))
                else WriteObject(c, memory, rank, t, fields[0].target);
              if first.Err? then w == first
              else
                var rest := WriteFields(c, memory, rank, first.value.table, fields[1..], n);
                if rest.Ok? then w == Ok(Then(first.value, rest.value)) else w == rest
  {
    hide WriteObject, Graph;
  }

  // ---- the static creation maps ----

  /** Every key is the CRC of the type it creates. */
  ghost predicate Consistent(crc: TypeName -> int, creators: map<int, TypeName>) {
    forall k :: k in creators ==> crc(creators[k]) == k
  }

  ghost predicate Creates(creators: map<int, TypeName>, typ: TypeName) {
    exists k :: k in creators && creators[k] == typ
  }

  class CreationMaps {
    var mSerCreateMap: map<int, TypeName>
    var mSerRefCountCreateMap: map<int, TypeName>
    const crc: TypeName -> int

    ghost predicate Valid()
      reads this
    {
      Consistent(crc, mSerCreateMap) && Consistent(crc, mSerRefCountCreateMap)
    }

    constructor (crc: TypeName -> int)
      ensures Valid() && this.crc == crc && mSerCreateMap == map[] && mSerRefCountCreateMap == map[]
    {
      this.crc, mSerCreateMap, mSerRefCountCreateMap := crc, map[], map[];
    }

    /** RegisterSerializable: a second type with the same CRC is refused. */
    method RegisterSerializable(typ: TypeName) returns (r: Result<()>)
      requires Valid()
      modifies this`mSerCreateMap
      ensures Valid() && (r.Ok? <==> forall t :: Creates(old(mSerCreateMap), t) ==> crc(t) != crc(typ))
      ensures r.Ok? ==> mSerCreateMap == old(mSerCreateMap)[crc(typ) := typ]
      ensures r.Err? ==> r.error == Internal && mSerCreateMap == old(mSerCreateMap)
    {
      var k := crc(typ);
      if k in mSerCreateMap {
        assert Creates(mSerCreateMap, mSerCreateMap[k]);
        return Err(Internal);
      }
      mSerCreateMap := mSerCreateMap[k := typ];
      return Ok(());
    }

    method RegisterSerializableRefCt(typ: TypeName) returns (r: Result<()>)
      requires Valid()
      modifies this`mSerRefCountCreateMap
      ensures Valid() && (r.Ok? <==> forall t :: Creates(old(mSerRefCountCreateMap), t) ==> crc(t) != crc(typ))
      ensures r.Ok? ==> mSerRefCountCreateMap == old(mSerRefCountCreateMap)[crc(typ) := typ]
      ensures r.Err? ==> r.error == Internal && mSerRefCountCreateMap == old(mSerRefCountCreateMap)
    {
      var k := crc(typ);
      if k in mSerRefCountCreateMap {
        assert Creates(mSerRefCountCreateMap, mSerRefCountCreateMap[k]);
        return Err(Internal);
      }
      mSerRefCountCreateMap := mSerRefCountCreateMap[k := typ];
      return Ok(());
    }
  }
}

/** The two serializers of a run: one writes an archive, another reads it. */
module SerializerRun {
  import opened ObjectGraph
  import opened GraphWriter
  import opened GraphSharing
  import opened GraphRoundTrip
  import opened GraphIsomorphism
  import opened Serializer

  /** One call of WriteObjectDynCreate for each root */
  method WriteSession(writer: SerializerImpl, graph: Memory, ghost rank: map<Ptr, nat>, roots: seq<Ptr>)
    requires Graph(writer.classes, graph, rank) && AllRegistered(writer.classes, graph)
    requires writer.archive == [] && writer.mRefCtObjTbl.Value() == EMPTY && forall p :: p in roots ==> p in graph
    modifies writer`archive, writer.mRefCtObjTbl
    ensures var w := WriteRoots(writer.classes, graph, rank, EMPTY, roots);
            w.Ok? && writer.archive == w.value.words && writer.mRefCtObjTbl.Value() == w.value.table
  {
    hide Graph, AllRegistered, WriteObject, Effect, WriteRoots, GoodTable;
    ghost var c, done := writer.classes, Written(EMPTY, [], [], []);
    EmptyTable(c, graph);
    RootsEffect(c, graph, rank, EMPTY, roots);
    ThenAfterNothing(WriteRoots(c, graph, rank, EMPTY, roots).value);
    for i := 0 to |roots|
      invariant GoodTable(c, graph, done.table) && WriteRoots(c, graph, rank, done.table, roots[i..]).Ok?
      invariant WriteRoots(c, graph, rank, EMPTY, roots)
             == Ok(Then(done, WriteRoots(c, graph, rank, done.table, roots[i..]).value))
      invariant writer.archive == done.words && writer.mRefCtObjTbl.Value() == done.table
    {
      NextRoot(c, graph, rank, done, roots, i);
      var result := writer.WriteObjectDynCreate(graph, rank, roots[i]);
      done := Then(done, WriteObject(c, graph, rank, done.table, roots[i]).value);
    }
    NoMoreRoots(c, graph, rank, done, roots);
  }

  lemma ThenAfterNothing(w: Written)
    ensures Then(Written(EMPTY, [], [], []), w) == w
  {}

  lemma NextRoot(c: Classes, graph: Memory, rank: map<Ptr, nat>, done: Written, roots: seq<Ptr>, i: nat)
    requires Graph(c, graph, rank) && AllRegistered(c, graph) && GoodTable(c, graph, done.table)
    requires i < |roots| && forall p :: p in roots ==> p in graph
    ensures var first := WriteObject(c, graph, rank, done.table, roots[i]);
            && first.Ok? && GoodTable(c, graph, first.value.table)
            && WriteRoots(c, graph, rank, first.value.table, roots[i + 1..]).Ok?
            && WriteRoots(c, graph, rank, done.table, roots[i..]).Ok?
            && Then(done, WriteRoots(c, graph, rank, done.table, roots[i..]).value)
            == Then(Then(done, first.value), WriteRoots(c, graph, rank, first.value.table, roots[i + 1..]).value)
  {
    hide Graph, AllRegistered, WriteObject, Effect, GoodTable;
    ObjectEffect(c, graph, rank, done.table, roots[i]);
    var first := WriteObject(c, graph, rank, done.table, roots[i]).value;
    RootsEffect(c, graph, rank, first.table, roots[i + 1..]);
    assert roots[i..][0] == roots[i] && roots[i..][1..] == roots[i + 1..];
    ThenAssociates(done, first, WriteRoots(c, graph, rank, first.table, roots[i + 1..]).value);
  }

  lemma ThenAssociates(a: Written, b: Written, c: Written)
    ensures Then(a, Then(b, c)) == Then(Then(a, b), c)
  {
    assert a.words + (b.words + c.words) == a.words + b.words + c.words;
    assert a.names + (b.names + c.names) == a.names + b.names + c.names;
    assert a.made + (b.made + c.made) == a.made + b.made + c.made;
  }

  lemma NoMoreRoots(c: Classes, graph: Memory, rank: map<Ptr, nat>, done: Written, roots: seq<Ptr>)
    requires Graph(c, graph, rank)
    ensures WriteRoots(c, graph, rank, done.table, roots[|roots|..]).Ok?
    ensures Then(done, WriteRoots(c, graph, rank, done.table, roots[|roots|..]).value) == done
  {
    assert done.words + [] == done.words && done.names + [] == done.names && done.made + [] == done.made;
  }

  /** As many calls of ReadObjectDynCreate */
  method ReadSession(reader: SerializerImpl, n: nat) returns (qs: seq<Ptr>)
    requires reader.Valid()
    requires ReadRoots(reader.classes, reader.memory, reader.mRefCtObjTbl.Value(), n, reader.Unread()).Ok?
    modifies reader`head, reader`memory, reader.mRefCtObjTbl
    ensures reader.Valid()
    ensures var read := ReadRoots(reader.classes, old(reader.memory), old(reader.mRefCtObjTbl.Value()), n,
                                  old(reader.Unread())).value;
            && qs == read.value && reader.memory == read.heap
            && reader.mRefCtObjTbl.Value() == read.table && reader.Unread() == read.rest
    decreases n
  {
    hide ReadObject;
    if n == 0 { return []; }
    var q := reader.ReadObjectDynCreate();
    var rest := ReadSession(reader, n - 1);
    return [q.value] + rest;
  }

  /** What one serializer writes of the roots, another reads over any memory: copies of all that was written, with the
      ids and the counts of the records, and the same graph if and only if every plain object is mentioned once. */
  method WriteAndRead(classes: Classes, graph: Memory, ghost rank: map<Ptr, nat>, roots: seq<Ptr>, memory: Heap)
    returns (qs: seq<Ptr>, after: Heap, ghost s: State)
    requires Graph(classes, graph, rank) && AllRegistered(classes, graph) && forall p :: p in roots ==> p in graph
    requires forall a :: a in memory.objects ==> a < memory.next
    ensures after == s.k && Unfolded(graph, memory, s, roots, qs)
    ensures var w := WriteRoots(classes, graph, rank, EMPTY, roots);
            w.Ok? && s.t == w.value.table && s.names == w.value.names && s.made == w.value.made
    ensures Numbered(s.t) && FirstVisitOrder(0, s.names, |s.t.idToObj|)
    ensures Isomorphic(graph, roots, memory, after, qs) <==> PlainOnce(classes, graph, roots)
  {
    hide Graph, AllRegistered, WriteRoots, ReadRoots, Unfolded, Isomorphic, PlainOnce, SessionWritten;
    RoundTrip(classes, graph, rank, roots, memory, []);
    IsomorphicExactly(classes, graph, rank, roots, memory, []);
    var writer := new SerializerImpl(classes, [], memory);
    writer.Init();
    WriteSession(writer, graph, rank, roots);
    ghost var w := WriteRoots(classes, graph, rank, EMPTY, roots).value;
    assert w.words + [] == w.words;
    var reader := new SerializerImpl(classes, writer.archive, memory);
    reader.Init();
    assert reader.Unread() == w.words;
    qs := ReadSession(reader, |roots|);
    after := reader.memory;
    s := Finished(w, ReadRoots(classes, memory, EMPTY, |roots|, w.words).value);
  }

  /** Registration checks the two maps separately.  In a graph whose other types are registered, an object of a plain
      type comes back with its type if and only if no reference-counted type has the same CRC. */
  lemma SharedCrc(c: Classes, memory: Memory, rank: map<Ptr, nat>, p: Ptr, k: Heap, tail: seq<int>)
    requires Graph(c, memory, rank) && p in memory && forall a :: a in k.objects ==> a < k.next
    requires forall q :: q in memory && memory[q].typ != memory[p].typ ==> Registered(c, memory[q].typ)
    requires Consistent(c.crc, c.plain) && Consistent(c.crc, c.refCounted)
    requires Creates(c.plain, memory[p].typ) && !Creates(c.refCounted, memory[p].typ)
    ensures ReadsBack(c, memory, rank, p, k, tail) <==>
            forall t :: Creates(c.refCounted, t) ==> c.crc(t) != c.crc(memory[p].typ)
  {
    hide Graph, ReadsBack;
    ReadsBackExactly(c, memory, rank, p, k, tail);
    var crc := c.crc(memory[p].typ);
    if crc in c.refCounted {
      assert Creates(c.refCounted, c.refCounted[crc]);
    }
  }
}
