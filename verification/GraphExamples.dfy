/** Graphs that do not come back as they were: with the CRC of type names that the serializer uses. */
module GraphExamples {
  import opened Crc32
  import opened PolynomialDivision
  import opened CrcBursts
  import opened ObjectGraph
  import opened GraphWriter
  import opened GraphSharing
  import opened GraphIsomorphism
  import opened Serializer

  // ---- util_GetCRC ----

  function CharByte(c: char): bv8 { (c as int % 256) as bv8 }

  function NameBytes(name: TypeName): (b: seq<bv8>)
    ensures |b| == |name| && forall i :: 0 <= i < |name| ==> b[i] == CharByte(name[i])
  {
    seq(|name|, i requires 0 <= i < |name| => CharByte(name[i]))
  }

  ghost function NameCrc(name: TypeName): int { Cksum(NameBytes(name)) as int }

  lemma ByteOf(c: char, b: bv8)
    requires c as int == b as int
    ensures CharByte(c) == b
  {
    assert (b as int) as bv8 == b;
  }

  lemma Letters()
    ensures CharByte('H') == 0x48 && CharByte('K') == 0x4b && CharByte('L') == 0x4c && CharByte('P') == 0x50
    ensures CharByte('a') == 0x61 && CharByte('c') == 0x63 && CharByte('e') == 0x65 && CharByte('g') == 0x67
    ensures CharByte('h') == 0x68 && CharByte('n') == 0x6e && CharByte('o') == 0x6f && CharByte('p') == 0x70
    ensures CharByte('t') == 0x74 && CharByte('v') == 0x76 && CharByte('x') == 0x78 && CharByte('z') == 0x7a
  {
    hide CharByte;
    ByteOf('H', 0x48);
    ByteOf('K', 0x4b);
    ByteOf('L', 0x4c);
    ByteOf('P', 0x50);
    ByteOf('a', 0x61);
    ByteOf('c', 0x63);
    ByteOf('e', 0x65);
    ByteOf('g', 0x67);
    ByteOf('h', 0x68);
    ByteOf('n', 0x6e);
    ByteOf('o', 0x6f);
    ByteOf('p', 0x70);
    ByteOf('t', 0x74);
    ByteOf('v', 0x76);
    ByteOf('x', 0x78);
    ByteOf('z', 0x7a);
  }

  lemma LengthTen()
    ensures LengthBytes(10) == [10]
  {
    assert LengthBytes(0) == [];
  }

  /** Registers that follow each other byte by byte */
  lemma {:induction false} FollowRegisters(m: seq<bv8>, registers: seq<bv32>, i: nat)
    requires i <= |m| && |registers| == |m| + 1
    requires forall j :: 0 <= j < |m| ==> Compute(registers[j], m[j]) == registers[j + 1]
    ensures ComputeAll(registers[i], m[i..]) == registers[|m|]
    decreases |m| - i
  {
    hide Compute;
    if i < |m| {
      FollowRegisters(m, registers, i + 1);
      assert m[i..][1..] == m[i + 1..];
    }
  }

  lemma Complemented()
    ensures Complement(0x17f272d3) as int == 0xe80d8d2c
  {}

  // ---- two names with the same CRC ----

  const PLAIN_NAME: TypeName := "cHphzaneae"
  const PLAIN_NAME_BYTES: seq<bv8> := [0x63, 0x48, 0x70, 0x68, 0x7a, 0x61, 0x6e, 0x65, 0x61, 0x65, 0x0a]
  const PLAIN_NAME_REGISTERS: seq<bv32> := [
    0x0, 0xa1e6e04e, 0x1809876, 0x64ed7650, 0xd87acb64, 0x82660960,
    0xaee360a0, 0xbeea3099, 0xd0e01988, 0x59e618c9, 0x7263ff4, 0x17f272d3
  ]

  lemma PlainNameSteps()
    ensures forall i :: 0 <= i < 6 ==>
                          Compute(PLAIN_NAME_REGISTERS[i], PLAIN_NAME_BYTES[i]) == PLAIN_NAME_REGISTERS[i + 1]
  {}

  lemma PlainNameLastSteps()
    ensures forall i :: 6 <= i < 11 ==>
                          Compute(PLAIN_NAME_REGISTERS[i], PLAIN_NAME_BYTES[i]) == PLAIN_NAME_REGISTERS[i + 1]
  {}

  lemma PlainNameBytes()
    ensures NameBytes(PLAIN_NAME) + [10] == PLAIN_NAME_BYTES
  {
    hide NameBytes, CharByte;
    Letters();
  }

  lemma PlainNameCrc()
    ensures NameCrc(PLAIN_NAME) == 0xe80d8d2c
  {
    hide Compute, ComputeAll, Complement, Divide, NameBytes, LengthBytes;
    LengthTen();
    PlainNameBytes();
    PlainNameSteps();
    PlainNameLastSteps();
    FollowRegisters(PLAIN_NAME_BYTES, PLAIN_NAME_REGISTERS, 0);
    assert PLAIN_NAME_BYTES[0..] == PLAIN_NAME_BYTES;
    ComputeAllIsDivision(0, PLAIN_NAME_BYTES);
    Complemented();
  }

  const COUNTED_NAME: TypeName := "cKaxvopctg"
  const COUNTED_NAME_BYTES: seq<bv8> := [0x63, 0x4b, 0x61, 0x78, 0x76, 0x6f, 0x70, 0x63, 0x74, 0x67, 0x0a]
  const COUNTED_NAME_REGISTERS: seq<bv32> := [
    0x0, 0xa1e6e04e, 0xcc3beaf, 0x5ed6ef44, 0x544abf52, 0xdb1edf8e,
    0xb0e575a2, 0xb8ff3299, 0xc5e21988, 0x5be618c9, 0x7263ff4, 0x17f272d3
  ]

  lemma CountedNameSteps()
    ensures forall i :: 0 <= i < 6 ==>
                          Compute(COUNTED_NAME_REGISTERS[i], COUNTED_NAME_BYTES[i]) == COUNTED_NAME_REGISTERS[i + 1]
  {}

  lemma CountedNameLastSteps()
    ensures forall i :: 6 <= i < 11 ==>
                          Compute(COUNTED_NAME_REGISTERS[i], COUNTED_NAME_BYTES[i]) == COUNTED_NAME_REGISTERS[i + 1]
  {}

  lemma CountedNameBytes()
    ensures NameBytes(COUNTED_NAME) + [10] == COUNTED_NAME_BYTES
  {
    hide NameBytes, CharByte;
    Letters();
  }

  lemma CountedNameCrc()
    ensures NameCrc(COUNTED_NAME) == 0xe80d8d2c
  {
    hide Compute, ComputeAll, Complement, Divide, NameBytes, LengthBytes;
    LengthTen();
    CountedNameBytes();
    CountedNameSteps();
    CountedNameLastSteps();
    FollowRegisters(COUNTED_NAME_BYTES, COUNTED_NAME_REGISTERS, 0);
    assert COUNTED_NAME_BYTES[0..] == COUNTED_NAME_BYTES;
    ComputeAllIsDivision(0, COUNTED_NAME_BYTES);
    Complemented();
  }

  // ---- a type that comes back as another ----

  /** One type of each kind with one CRC, registered each in its map, and one object of the plain type: it comes back as
      the other. */
  lemma ComesBackAsOther(k: Heap)
    ensures var crc := NameCrc(PLAIN_NAME);
            var c := Classes(map[crc := COUNTED_NAME], map[crc := PLAIN_NAME], NameCrc, _ => 0, (_, _) => Done);
            var memory := map[0 := Object(PLAIN_NAME, [], 1)];
            var rank := map[0 := 0];
            && Consistent(c.crc, c.plain) && Consistent(c.crc, c.refCounted)
            && Graph(c, memory, rank) && WriteObject(c, memory, rank, EMPTY, 0).Ok?
            && var read := ReadObject(c, k, EMPTY, WriteObject(c, memory, rank, EMPTY, 0).value.words);
            read.Ok? && read.value.heap.objects[read.value.value].typ == COUNTED_NAME
  {
    PlainNameCrc();
    CountedNameCrc();
    hide NameCrc;
    var crc := NameCrc(PLAIN_NAME);
    var c := Classes(map[crc := COUNTED_NAME], map[crc := PLAIN_NAME], NameCrc, _ => 0, (_, _) => Done);
    var memory := map[0 := Object(PLAIN_NAME, [], 1)];
    var rank := map[0 := 0];
    assert Shaped(c, PLAIN_NAME, [], []);
    assert Graph(c, memory, rank);
    var words := WriteObject(c, memory, rank, EMPTY, 0).value.words;
    assert words == Header(c, PLAIN_NAME, 1) + [];
    assert ReadFields(c, Reserve(k), EMPTY, COUNTED_NAME, [], words[4..]) == Ok(Read(Reserve(k), EMPTY, [], []));
  }

  // ---- a plain object that comes back twice ----

  const PAIR: TypeName := "cPair"
  const LEAF: TypeName := "cLeaf"

  lemma FirstBytes()
    ensures |NameBytes(PAIR)| == |NameBytes(LEAF)| == 5
    ensures NameBytes(PAIR)[0] == NameBytes(LEAF)[0] && NameBytes(PAIR)[1] == 0x50 && NameBytes(LEAF)[1] == 0x4c
  {
    hide NameBytes, CharByte;
    Letters();
    assert PAIR[0] == LEAF[0] && PAIR[1] == 'P' && LEAF[1] == 'L';
  }

  /** The two names differ within four bytes, so their CRCs differ. */
  lemma PairAndLeaf()
    ensures NameCrc(PAIR) != NameCrc(LEAF)
  {
    hide Cksum, NameBytes;
    FirstBytes();
    FourBytesDetected(NameBytes(PAIR), NameBytes(LEAF), 1);
    DifferentNumbers(Cksum(NameBytes(PAIR)), Cksum(NameBytes(LEAF)));
  }

  lemma DifferentNumbers(x: bv32, y: bv32)
    requires x != y
    ensures x as int != y as int
  {
    assert (x as int) as bv32 == x && (y as int) as bv32 == y;
  }

  /** Plain pairs of links and plain leaves, both registered */
  ghost predicate PairsAndLeaves(c: Classes) {
    && c.refCounted == map[]
    && c.crc(PAIR) in c.plain && c.plain[c.crc(PAIR)] == PAIR && c.crc(LEAF) in c.plain && c.plain[c.crc(LEAF)] == LEAF
    && c.next(LEAF, []) == Done
    && c.next(PAIR, []) == c.next(PAIR, [LinkCell]) == ReadLink && c.next(PAIR, [LinkCell, LinkCell]) == Done
  }

  /** With the CRCs of the names there are such classes. */
  lemma PairsAndLeavesExist()
    ensures PairsAndLeaves(Classes(map[], map[NameCrc(PAIR) := PAIR, NameCrc(LEAF) := LEAF], NameCrc, _ => 0,
                                   (typ, done) => if typ == PAIR && |done| < 2 then ReadLink else Done))
  {
    PairAndLeaf();
    hide NameCrc;
  }

  const TWO_LINKS: Memory := map[0 := Object(PAIR, [Link(1), Link(1)], 1), 1 := Object(LEAF, [], 1)]
  const TWO_LINKS_RANK: map<Ptr, nat> := map[0 := 1, 1 := 0]

  lemma TwoLinksGraph(c: Classes)
    requires PairsAndLeaves(c)
    ensures Graph(c, TWO_LINKS, TWO_LINKS_RANK) && AllRegistered(c, TWO_LINKS)
    ensures !PlainLinkedOnce(c, TWO_LINKS, 0)
  {
    var fields := [Link(1), Link(1)];
    assert fields[1..] == [Link(1)] && fields[1..][1..] == [];
    var cells := [LinkCell];
    assert [] + cells == cells && cells + [LinkCell] == [LinkCell, LinkCell];
    assert Shaped(c, PAIR, [LinkCell, LinkCell], []);
    assert Shaped(c, PAIR, cells, [Link(1)]);
    assert Path(TWO_LINKS, [0]) && [0][0] in [0] && [0][|[0]| - 1] == 0;
    assert Reaches(TWO_LINKS, [0], 0);
    assert Mentions(TWO_LINKS, [0], LinkFrom(0, 0), 1) && Mentions(TWO_LINKS, [0], LinkFrom(0, 1), 1);
  }

  lemma LeafWritten(c: Classes, t: Table)
    requires PairsAndLeaves(c) && Graph(c, TWO_LINKS, TWO_LINKS_RANK)
    ensures WriteObject(c, TWO_LINKS, TWO_LINKS_RANK, t, 1) == Ok(Written(t, Header(c, LEAF, 0), [], [1]))
  {
    hide Header, Graph;
    assert TWO_LINKS[1].fields == [];
    assert WriteFields(c, TWO_LINKS, TWO_LINKS_RANK, t, [], 0) == Ok(Written(t, [], [], []));
    assert Header(c, LEAF, 0) + [] == Header(c, LEAF, 0) && [1] + [] == [1];
  }

  lemma LinksWritten(c: Classes)
    requires PairsAndLeaves(c) && Graph(c, TWO_LINKS, TWO_LINKS_RANK)
    ensures LinksBelow(TWO_LINKS, TWO_LINKS_RANK, [Link(1), Link(1)], 1)
    ensures WriteFields(c, TWO_LINKS, TWO_LINKS_RANK, EMPTY, [Link(1), Link(1)], 1)
         == Ok(Written(EMPTY, Header(c, LEAF, 0) + Header(c, LEAF, 0), [], [1, 1]))
  {
    LeafWritten(c, EMPTY);
    hide Header, Graph, WriteObject;
    var leaf, none := Written(EMPTY, Header(c, LEAF, 0), [], [1]), Written(EMPTY, [], [], []);
    var one, two := [Link(1)], [Link(1), Link(1)];
    assert two[1..] == one && one[1..] == [];
    assert WriteFields(c, TWO_LINKS, TWO_LINKS_RANK, EMPTY, [], 1) == Ok(none);
    assert Then(leaf, none) == leaf;
    assert WriteFields(c, TWO_LINKS, TWO_LINKS_RANK, EMPTY, one, 1) == Ok(leaf);
    assert [1] + [1] == [1, 1];
  }

  lemma PairWritten(c: Classes)
    requires PairsAndLeaves(c) && Graph(c, TWO_LINKS, TWO_LINKS_RANK)
    ensures WriteObject(c, TWO_LINKS, TWO_LINKS_RANK, EMPTY, 0)
         == Ok(Written(EMPTY, Header(c, PAIR, 0) + (Header(c, LEAF, 0) + Header(c, LEAF, 0)), [], [0, 1, 1]))
  {
    LinksWritten(c);
    hide Header, Graph, WriteFields;
    assert TWO_LINKS[0].fields == [Link(1), Link(1)] && TWO_LINKS[0].typ == PAIR;
    assert [0] + [1, 1] == [0, 1, 1];
  }

  lemma LeafRead(c: Classes, k: Heap, rest: seq<int>)
    requires PairsAndLeaves(c)
    ensures ReadObject(c, k, EMPTY, Header(c, LEAF, 0) + rest)
         == Ok(Read(Store(Reserve(k), k.next, Object(LEAF, [], 1)), EMPTY, k.next, rest))
  {
    assert (Header(c, LEAF, 0) + rest)[4..] == rest;
  }

  lemma OneLinkRead(c: Classes, k: Heap, done: seq<Cell>, leaf: seq<int>, rest: seq<int>, k1: Heap, gs: seq<Field>)
    requires c.next(PAIR, done) == ReadLink && PairsAndLeaves(c) && leaf == Header(c, LEAF, 0)
    requires var k0 := Store(Reserve(k), k.next, Object(LEAF, [], 1));
             ReadFields(c, k0, EMPTY, PAIR, done + [LinkCell], rest) == Ok(Read(k1, EMPTY, gs, []))
    ensures ReadFields(c, k, EMPTY, PAIR, done, leaf + rest) == Ok(Read(k1, EMPTY, [Link(k.next)] + gs, []))
  {
    LeafRead(c, k, rest);
    hide ReadObject, PairsAndLeaves;
  }

  lemma PairHead(c: Classes, k: Heap, body: seq<int>, k': Heap, gs: seq<Field>)
    requires PairsAndLeaves(c) && ReadFields(c, Reserve(k), EMPTY, PAIR, [], body) == Ok(Read(k', EMPTY, gs, []))
    ensures ReadObject(c, k, EMPTY, Header(c, PAIR, 0) + body)
         == Ok(Read(Store(k', k.next, Object(PAIR, gs, 1)), EMPTY, k.next, []))
  {
    hide ReadFields;
    assert (Header(c, PAIR, 0) + body)[4..] == body;
  }

  function LeafAt(k: Heap): Heap { Store(Reserve(k), k.next, Object(LEAF, [], 1)) }

  lemma BodyRead(c: Classes, k: Heap)
    requires PairsAndLeaves(c)
    ensures var leaf := Header(c, LEAF, 0);
            ReadFields(c, k, EMPTY, PAIR, [], leaf + leaf)
            == Ok(Read(LeafAt(LeafAt(k)), EMPTY, [Link(k.next), Link(k.next + 1)], []))
  {
    var leaf, k1, k2 := Header(c, LEAF, 0), LeafAt(k), LeafAt(LeafAt(k));
    var one, two := [LinkCell], [LinkCell, LinkCell];
    assert ReadFields(c, k2, EMPTY, PAIR, two, []) == Ok(Read(k2, EMPTY, [], []));
    hide ReadFields, Header, PairsAndLeaves;
    assert [] + one == one && one + [LinkCell] == two && leaf + [] == leaf;
    assert c.next(PAIR, []) == c.next(PAIR, one) == ReadLink by { assert PairsAndLeaves(c); }
    OneLinkRead(c, k1, one, leaf, [], k2, []);
    assert [Link(k1.next)] + [] == [Link(k1.next)];
    OneLinkRead(c, k, [], leaf, leaf, k2, [Link(k1.next)]);
    assert [Link(k.next)] + [Link(k1.next)] == [Link(k.next), Link(k.next + 1)];
  }

  lemma PairRead(c: Classes, k: Heap)
    requires PairsAndLeaves(c)
    ensures var read := ReadObject(c, k, EMPTY, Header(c, PAIR, 0) + (Header(c, LEAF, 0) + Header(c, LEAF, 0)));
            && read.Ok? && read.value.value in read.value.heap.objects
            && read.value.heap.objects[read.value.value].fields == [Link(k.next + 1), Link(k.next + 2)]
  {
    hide ReadFields, Header, ReadObject, PairsAndLeaves;
    var leaf, k1 := Header(c, LEAF, 0), Reserve(k);
    BodyRead(c, k1);
    PairHead(c, k, leaf + leaf, LeafAt(LeafAt(k1)), [Link(k1.next), Link(k1.next + 1)]);
  }

  /** Both links of a pair lead to one leaf; written and read back, they lead to two. */
  lemma SharingLost(c: Classes, k: Heap)
    requires PairsAndLeaves(c) && forall a :: a in k.objects ==> a < k.next
    ensures Graph(c, TWO_LINKS, TWO_LINKS_RANK) && AllRegistered(c, TWO_LINKS)
    ensures var w := WriteObject(c, TWO_LINKS, TWO_LINKS_RANK, EMPTY, 0);
            && w.Ok?
            && var read := ReadObject(c, k, EMPTY, w.value.words);
            && read.Ok? && read.value.value in read.value.heap.objects
            && read.value.heap.objects[read.value.value].fields == [Link(k.next + 1), Link(k.next + 2)]
            && !Isomorphic(TWO_LINKS, [0], k, read.value.heap, [read.value.value])
  {
    TwoLinksGraph(c);
    PairWritten(c);
    hide Header, Graph, AllRegistered, WriteObject, ReadObject, Isomorphic, PlainLinkedOnce;
    PairRead(c, k);
    OneObjectExactly(c, TWO_LINKS, TWO_LINKS_RANK, 0, k, []);
    var words := WriteObject(c, TWO_LINKS, TWO_LINKS_RANK, EMPTY, 0).value.words;
    assert words + [] == words;
  }
}
