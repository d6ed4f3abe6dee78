/** What reading any archive leaves, well-formed or not: an object without an id is the target of one link at most. */
module GraphReader {
  import opened ObjectGraph

  predicate LinkAt(k: Heap, b: Ptr, i: nat, x: Ptr) {
    b in k.objects && i < |k.objects[b].fields| && k.objects[b].fields[i] == Link(x)
  }

  /** All objects have addresses below the next free one, registered ones too. */
  ghost predicate Tidy(k: Heap, r: Table) {
    Inverse(r) && (forall a :: a in k.objects ==> a < k.next) && forall a :: a in r.objToId ==> a < k.next
  }

  /** Reading goes on from (k, r) to (k', r'): what is below k.next keeps its body and stays registered or not. */
  ghost predicate Later(k: Heap, r: Table, k': Heap, r': Table) {
    && k.next <= k'.next && Tidy(k', r')
    && (forall a :: a < k.next ==> (a in r'.objToId <==> a in r.objToId))
    && (forall a: Ptr, i: nat, x: Ptr :: a < k.next ==> (LinkAt(k', a, i, x) <==> LinkAt(k, a, i, x)))
  }

  /** The links of the objects from lo on, to objects without an id: to objects from lo on, each the only one. */
  ghost predicate Separate(lo: Ptr, k: Heap, r: Table) {
    && (forall b: Ptr, i: nat, x: Ptr :: lo <= b && LinkAt(k, b, i, x) && x !in r.objToId ==> lo <= x < k.next)
    && (forall b: Ptr, i: nat, b': Ptr, i': nat, x: Ptr ::
          lo <= b && lo <= b' && LinkAt(k, b, i, x) && LinkAt(k, b', i', x) && x !in r.objToId ==> b == b' && i == i')
  }

  /** A pointer just read: to an object with an id, or to a new one that nothing links to yet */
  ghost predicate Unowned(lo: Ptr, k: Heap, r: Table, q: Ptr) {
    q !in r.objToId ==> lo <= q < k.next && forall b: Ptr, i: nat :: lo <= b ==> !LinkAt(k, b, i, q)
  }

  /** The links just read, no two of them to the same object without an id */
  ghost predicate AllUnowned(lo: Ptr, k: Heap, r: Table, gs: seq<Field>) {
    && (forall i :: 0 <= i < |gs| && gs[i].Link? ==> Unowned(lo, k, r, gs[i].target))
    && (forall i, j :: 0 <= i < j < |gs| && gs[i].Link? && gs[i] == gs[j] ==> gs[i].target in r.objToId)
  }

  lemma LaterTrans(k: Heap, r: Table, k1: Heap, r1: Table, k2: Heap, r2: Table)
    requires Later(k, r, k1, r1) && Later(k1, r1, k2, r2)
    ensures Later(k, r, k2, r2)
  {
    hide LinkAt, Tidy;
  }

  lemma SeparateBoth(k: Heap, k1: Heap, r1: Table, k2: Heap, r2: Table)
    requires k.next <= k1.next && Later(k1, r1, k2, r2) && Tidy(k1, r1)
    requires Separate(k.next, k1, r1) && Separate(k1.next, k2, r2)
    ensures Separate(k.next, k2, r2)
  {
    assert forall x :: x in r1.objToId ==> x < k1.next;
    hide LinkAt, Tidy;
  }

  /** What was read first is still unowned after more was read. */
  lemma StillUnowned(k: Heap, k1: Heap, r1: Table, k2: Heap, r2: Table, q: Ptr)
    requires k.next <= k1.next && Later(k1, r1, k2, r2) && Tidy(k1, r1)
    requires Unowned(k.next, k1, r1, q) && Separate(k1.next, k2, r2)
    ensures Unowned(k.next, k2, r2, q)
  {
    hide LinkAt;
    if q !in r2.objToId {
      assert q in r1.objToId ==> q < k1.next;
    }
  }

  /** What was read later is unowned from further down too. */
  lemma UnownedBelow(k: Heap, k1: Heap, r1: Table, k2: Heap, r2: Table, q: Ptr)
    requires k.next <= k1.next && Later(k1, r1, k2, r2) && Tidy(k1, r1)
    requires Separate(k.next, k1, r1) && Unowned(k1.next, k2, r2, q)
    ensures Unowned(k.next, k2, r2, q)
  {
    assert q in r1.objToId ==> q < k1.next;
    hide LinkAt, Tidy;
    if q !in r2.objToId {
      forall b: Ptr, i: nat | k.next <= b ensures !LinkAt(k2, b, i, q) {
        assert b < k1.next ==> (LinkAt(k2, b, i, q) <==> LinkAt(k1, b, i, q));
      }
    }
  }

  // ---- one record ----

  lemma CountOnly(k: Heap, r: Table, q: Ptr)
    requires Tidy(k, r) && AddRef(k, q).Ok? && q in r.objToId
    ensures var k' := AddRef(k, q).value; Later(k, r, k', r) && Separate(k.next, k', r) && Unowned(k.next, k', r, q)
  {}

  lemma KnownIsRegistered(k: Heap, r: Table, id: Id)
    requires Tidy(k, r) && id in r.idToObj
    ensures r.idToObj[id] in r.objToId
  {}

  lemma ReserveOnly(k: Heap, r: Table)
    requires Tidy(k, r)
    ensures Tidy(Reserve(k), r) && Later(k, r, Reserve(k), r)
  {}

  /** The object with its body, at the address reserved before it */
  lemma BodyOwns(k: Heap, r: Table, k1: Heap, r1: Table, o: Object)
    requires Tidy(k, r) && Later(Reserve(k), r, k1, r1)
    requires Separate(k.next + 1, k1, r1) && AllUnowned(k.next + 1, k1, r1, o.fields)
    ensures var k' := Store(k1, k.next, o);
            Later(k, r, k', r1) && Separate(k.next, k', r1) && Unowned(k.next, k', r1, k.next)
  {
    var k', lo := Store(k1, k.next, o), k.next;
    forall b: Ptr, i: nat, x: Ptr | lo <= b && LinkAt(k', b, i, x) && x !in r1.objToId
      ensures lo <= x < k'.next && x != lo
    {
      if b == lo {
        assert Unowned(lo + 1, k1, r1, o.fields[i].target);
      } else {
        assert LinkAt(k1, b, i, x);
      }
    }
    forall b: Ptr, i: nat, b': Ptr, i': nat, x: Ptr |
      lo <= b && lo <= b' && LinkAt(k', b, i, x) && LinkAt(k', b', i', x) && x !in r1.objToId
      ensures b == b' && i == i'
    {
      OneOwner(k, k1, r1, o, b, i, b', i', x);
    }
    forall a: Ptr, i: nat, x: Ptr | a < k.next ensures LinkAt(k', a, i, x) <==> LinkAt(k, a, i, x) {
      assert LinkAt(k1, a, i, x) <==> LinkAt(Reserve(k), a, i, x);
    }
  }

  lemma OneOwner(k: Heap, k1: Heap, r1: Table, o: Object, b: Ptr, i: nat, b': Ptr, i': nat, x: Ptr)
    requires Separate(k.next + 1, k1, r1) && AllUnowned(k.next + 1, k1, r1, o.fields)
    requires var k' := Store(k1, k.next, o);
             k.next <= b && k.next <= b' && LinkAt(k', b, i, x) && LinkAt(k', b', i', x) && x !in r1.objToId
    ensures b == b' && i == i'
  {
    if b == k.next { assert Unowned(k.next + 1, k1, r1, o.fields[i].target); }
    if b' == k.next { assert Unowned(k.next + 1, k1, r1, o.fields[i'].target); }
    if b != k.next { assert LinkAt(k1, b, i, x); }
    if b' != k.next { assert LinkAt(k1, b', i', x); }
  }

  lemma RegisterOnly(k: Heap, r: Table, k': Heap, r1: Table, q: Ptr, id: Id)
    requires Later(k, r, k', r1) && Separate(k.next, k', r1) && k.next <= q < k'.next && id != 0
    requires Add(r1, q, id).Ok?
    ensures var r' := Add(r1, q, id).value.0;
            Later(k, r, k', r') && Separate(k.next, k', r') && Unowned(k.next, k', r', q)
  {
    hide LinkAt;
    AddKeepsInverse(r1, q, id);
  }

  // ---- any archive ----

  ghost predicate ReadOk<T>(k: Heap, r: Table, read: Read<T>) {
    Later(k, r, read.heap, read.table) && Separate(k.next, read.heap, read.table)
  }

  lemma {:induction false} ReadObjectOwns(c: Classes, k: Heap, r: Table, words: seq<int>)
    requires Tidy(k, r) && ReadObject(c, k, r, words).Ok?
    ensures var read := ReadObject(c, k, r, words).value;
            ReadOk(k, r, read) && Unowned(k.next, read.heap, read.table, read.value)
    decreases |words|, 0
  {
    hide Later, Separate, Unowned, AllUnowned, Tidy, Add, AddRef;
    var crc, id, body := words[0], words[3], words[4..];
    ReserveOnly(k, r);
    if id == 0 {
      ReadFieldsOwn(c, Reserve(k), r, c.plain[crc], [], body);
      var b := ReadFields(c, Reserve(k), r, c.plain[crc], [], body).value;
      BodyOwns(k, r, b.heap, b.table, Object(c.plain[crc], b.value, 1));
    } else if id in r.idToObj {
      KnownIsRegistered(k, r, id);
      CountOnly(k, r, r.idToObj[id]);
    } else {
      ReadFieldsOwn(c, Reserve(k), r, c.refCounted[crc], [], body);
      var b := ReadFields(c, Reserve(k), r, c.refCounted[crc], [], body).value;
      var o := Object(c.refCounted[crc], b.value, 1);
      BodyOwns(k, r, b.heap, b.table, o);
      LaterIsTidy(Reserve(k), r, b.heap, b.table);
      RegisterOnly(k, r, Store(b.heap, k.next, o), b.table, k.next, id);
    }
  }

  lemma {:induction false} ReadFieldsOwn(c: Classes, k: Heap, r: Table, typ: TypeName, done: seq<Cell>, words: seq<int>)
    requires Tidy(k, r) && ReadFields(c, k, r, typ, done, words).Ok?
    ensures var read := ReadFields(c, k, r, typ, done, words).value;
            ReadOk(k, r, read) && AllUnowned(k.next, read.heap, read.table, read.value)
    decreases |words|, 1
  {
    hide Later, Separate, Unowned, AllUnowned, Tidy;
    match c.next(typ, done)
    case Done => NothingRead(k, r);
    case ReadData =>
      ReadFieldsOwn(c, k, r, typ, done + [DataCell(words[0])], words[1..]);
      var b := ReadFields(c, k, r, typ, done + [DataCell(words[0])], words[1..]).value;
      DataOwnsNothing(k.next, b.heap, b.table, words[0], b.value);
    case ReadLink =>
      ReadObjectOwns(c, k, r, words);
      var first := ReadObject(c, k, r, words).value;
      LaterIsTidy(k, r, first.heap, first.table);
      ReadFieldsOwn(c, first.heap, first.table, typ, done + [LinkCell], first.rest);
      var b := ReadFields(c, first.heap, first.table, typ, done + [LinkCell], first.rest).value;
      LaterTrans(k, r, first.heap, first.table, b.heap, b.table);
      SeparateBoth(k, first.heap, first.table, b.heap, b.table);
      LinkAndMore(k, first.heap, first.table, b.heap, b.table, first.value, b.value);
  }

  lemma LaterIsTidy(k: Heap, r: Table, k': Heap, r': Table)
    requires Later(k, r, k', r')
    ensures Tidy(k', r') && k.next <= k'.next
  {}

  lemma NothingRead(k: Heap, r: Table)
    requires Tidy(k, r)
    ensures Later(k, r, k, r) && Separate(k.next, k, r) && AllUnowned(k.next, k, r, [])
  {}

  lemma DataOwnsNothing(lo: Ptr, k: Heap, r: Table, v: int, gs: seq<Field>)
    requires AllUnowned(lo, k, r, gs)
    ensures AllUnowned(lo, k, r, [Data(v)] + gs)
  {
    hide Unowned;
  }

  lemma LinkAndMore(k: Heap, k1: Heap, r1: Table, k2: Heap, r2: Table, q: Ptr, gs: seq<Field>)
    requires k.next <= k1.next && Later(k1, r1, k2, r2) && Tidy(k1, r1)
    requires Separate(k.next, k1, r1) && Separate(k1.next, k2, r2)
    requires Unowned(k.next, k1, r1, q) && AllUnowned(k1.next, k2, r2, gs)
    ensures AllUnowned(k.next, k2, r2, [Link(q)] + gs)
  {
    StillUnowned(k, k1, r1, k2, r2, q);
    forall i | 0 <= i < |gs| && gs[i].Link? ensures Unowned(k.next, k2, r2, gs[i].target) {
      UnownedBelow(k, k1, r1, k2, r2, gs[i].target);
    }
    forall i | 0 <= i < |gs| && gs[i] == Link(q) ensures q in r2.objToId {
      assert Unowned(k1.next, k2, r2, gs[i].target);
      assert q in r1.objToId ==> q < k1.next;
    }
    hide Unowned, Separate, Later;
  }

  /** Whatever the archive: no two links of the objects that a session read lead to one object without an id. */
  lemma {:induction false} PlainHasOneOwner(c: Classes, k: Heap, r: Table, n: nat, words: seq<int>)
    requires Tidy(k, r) && ReadRoots(c, k, r, n, words).Ok?
    ensures ReadOk(k, r, ReadRoots(c, k, r, n, words).value)
    decreases n
  {
    hide Later, Separate, Unowned, Tidy;
    if n == 0 {
      NothingRead(k, r);
    } else {
      ReadObjectOwns(c, k, r, words);
      var first := ReadObject(c, k, r, words).value;
      LaterIsTidy(k, r, first.heap, first.table);
      PlainHasOneOwner(c, first.heap, first.table, n - 1, first.rest);
      var b := ReadRoots(c, first.heap, first.table, n - 1, first.rest).value;
      LaterTrans(k, r, first.heap, first.table, b.heap, b.table);
      SeparateBoth(k, first.heap, first.table, b.heap, b.table);
    }
  }

  /** The errors of a record's header; its version and its size are not looked at. */
  lemma HeaderRead(c: Classes, k: Heap, r: Table, words: seq<int>, version: int, size: int)
    ensures |words| < 4 ==> ReadObject(c, k, r, words) == Err(EndOfArchive)
    ensures |words| >= 4 && words[3] == 0 && words[0] !in c.plain ==> ReadObject(c, k, r, words) == Err(UnknownType)
    ensures |words| >= 4 && words[3] != 0 && words[3] !in r.idToObj && words[0] !in c.refCounted ==>
              ReadObject(c, k, r, words) == Err(UnknownType)
    ensures |words| >= 4 ==> ReadObject(c, k, r, words[1 := version][2 := size]) == ReadObject(c, k, r, words)
  {
    hide ReadFields, Add, AddRef;
    if |words| >= 4 { assert words[1 := version][2 := size][4..] == words[4..]; }
  }

  // ---- archives that are cut short ----

  /** Reading the first m words instead of all: the same, unless they do not contain what was read. */
  function Cut<T>(r: Read<T>, length: nat, m: nat): Result<Read<T>>
    requires |r.rest| <= length
  {
    if m < length - |r.rest| then Err(EndOfArchive)
    else Ok(r.(rest := r.rest[..if m - (length - |r.rest|) < |r.rest| then m - (length - |r.rest|) else |r.rest|]))
  }

  lemma {:induction false} ReadObjectCut(c: Classes, k: Heap, r: Table, words: seq<int>, m: nat)
    requires m <= |words| && ReadObject(c, k, r, words).Ok?
    ensures ReadObject(c, k, r, words[..m]) == Cut(ReadObject(c, k, r, words).value, |words|, m)
    decreases |words|, 0
  {
    hide Add, AddRef;
    if m >= 4 {
      var crc, id, body := words[0], words[3], words[4..];
      assert words[..m][4..] == body[..m - 4];
      if id == 0 {
        ReadFieldsCut(c, Reserve(k), r, c.plain[crc], [], body, m - 4);
      } else if id !in r.idToObj {
        ReadFieldsCut(c, Reserve(k), r, c.refCounted[crc], [], body, m - 4);
      }
    } else {
      ReadsFour(c, k, r, words);
    }
  }

  lemma ReadsFour(c: Classes, k: Heap, r: Table, words: seq<int>)
    requires ReadObject(c, k, r, words).Ok?
    ensures |ReadObject(c, k, r, words).value.rest| + 4 <= |words|
  {
    hide Add, AddRef;
  }

  lemma {:induction false} ReadFieldsCut(c: Classes, k: Heap, r: Table, typ: TypeName, done: seq<Cell>, words: seq<int>,
                                         m: nat)
    requires m <= |words| && ReadFields(c, k, r, typ, done, words).Ok?
    ensures ReadFields(c, k, r, typ, done, words[..m]) == Cut(ReadFields(c, k, r, typ, done, words).value, |words|, m)
    decreases |words|, 1
  {
    hide ReadObject;
    match c.next(typ, done)
    case Done =>
    case ReadData =>
      if m > 0 {
        assert words[..m][1..] == words[1..][..m - 1];
        ReadFieldsCut(c, k, r, typ, done + [DataCell(words[0])], words[1..], m - 1);
      }
    case ReadLink =>
      ReadObjectCut(c, k, r, words, m);
      var first := ReadObject(c, k, r, words).value;
      var n := |words| - |first.rest|;
      if m >= n { ReadFieldsCut(c, first.heap, first.table, typ, done + [LinkCell], first.rest, m - n); }
  }

  /** What is read of the beginning of an archive is what is read of the whole, or the end of the archive. */
  lemma {:induction false} ReadRootsCut(c: Classes, k: Heap, r: Table, n: nat, words: seq<int>, m: nat)
    requires m <= |words| && ReadRoots(c, k, r, n, words).Ok?
    ensures |ReadRoots(c, k, r, n, words).value.rest| <= |words|
    ensures ReadRoots(c, k, r, n, words[..m]) == Cut(ReadRoots(c, k, r, n, words).value, |words|, m)
    decreases n
  {
    hide ReadObject;
    if n > 0 {
      ReadObjectCut(c, k, r, words, m);
      var first := ReadObject(c, k, r, words).value;
      var l := |words| - |first.rest|;
      ReadRootsCut(c, first.heap, first.table, n - 1, first.rest, if m >= l then m - l else 0);
    }
  }
}
