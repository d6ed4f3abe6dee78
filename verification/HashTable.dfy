/** The chained hash table of src/core/hashtable.h: a bucket array of linked nodes that refines a finite map,
    and the iterator over it. */
module HashTable {
  import opened Bytes
  import opened Modular

  type Key = seq<byte>

  /** The exclusive or of two words, bit by bit */
  function Xor(a: nat, b: nat): nat
    decreases a + b
  {
    if a == 0 then b else if b == 0 then a
    else (if a % 2 == b % 2 then 0 else 1) + 2 * Xor(a / 2, b / 2)
  }

  /** One key byte: a shift by nine in 32 bits, and an exclusive or */
  function Mix(h: nat, b: byte): nat { Xor(h * 0x200 % 0x1_0000_0000, b) }

  function HashFrom(h: nat, key: Key, size: nat): (slot: nat)
    requires size > 0
    ensures key != [] ==> slot < size
    decreases |key|
  {
    if key == [] then h else HashFrom(Mix(h, key[0]) % size, key[1..], size)
  }

  /** The first byte read is the terminating NUL when the key is empty. */
  function HashOf(key: Key, size: nat): (slot: nat)
    requires size > 0
    ensures slot < size
  {
    HashFrom(if key == [] then 0 else key[0], key, size)
  }

  // ---- what the slot is ----

  /** Bit i of a number */
  function Bit(x: nat, i: nat): nat {
    if i == 0 then x % 2 else Bit(x / 2, i - 1)
  }

  lemma XorHalves(a: nat, b: nat)
    ensures Xor(a, b) / 2 == Xor(a / 2, b / 2) && Xor(a, b) % 2 == if a % 2 == b % 2 then 0 else 1
  {
    if a == 0 || b == 0 { assert Xor(a, b) == a + b; }
  }

  /** The bits of an exclusive or */
  lemma {:induction false} XorBit(a: nat, b: nat, i: nat)
    ensures Bit(Xor(a, b), i) == if Bit(a, i) == Bit(b, i) then 0 else 1
    decreases i
  {
    hide Xor;
    XorHalves(a, b);
    if i > 0 { XorBit(a / 2, b / 2, i - 1); }
  }

  lemma {:induction false} NoBits(i: nat)
    ensures Bit(0, i) == 0
  {
    if i > 0 { NoBits(i - 1); }
  }

  function Power2(n: nat): (p: nat)
    ensures p > 0
  {
    if n == 0 then 1 else 2 * Power2(n - 1)
  }

  /** The bits of a shifted number */
  lemma {:induction false} ShiftedBit(x: nat, n: nat, i: nat)
    ensures Bit(x * Power2(n), i) == if i < n then 0 else Bit(x, i - n)
    decreases n
  {
    if n == 0 {
      assert x * Power2(0) == x;
    } else {
      var y := x * Power2(n - 1);
      assert x * Power2(n) == 2 * y;
      if i > 0 {
        assert 2 * y / 2 == y;
        ShiftedBit(x, n - 1, i - 1);
      }
    }
  }

  /** The bits of what is left in n bits */
  lemma {:induction false} LowBit(x: nat, n: nat, i: nat)
    ensures Bit(x % Power2(n), i) == if i < n then Bit(x, i) else 0
    decreases n
  {
    if n == 0 {
      assert x % 1 == 0;
      NoBits(i);
    } else {
      HalfOfRemainder(x, Power2(n - 1));
      if i > 0 { LowBit(x / 2, n - 1, i - 1); }
    }
  }

  lemma HalfOfRemainder(x: nat, m: nat)
    requires m > 0
    ensures x % (2 * m) / 2 == x / 2 % m && x % (2 * m) % 2 == x % 2
  {
    var q, r := x / 2 / m, x / 2 % m;
    assert x / 2 == m * q + r && x == 2 * (x / 2) + x % 2;
    TwiceProduct(m, q);
    Quotient(x, 2 * m, q, 2 * r + x % 2);
  }

  lemma TwiceProduct(m: nat, q: nat)
    ensures 2 * (m * q) == 2 * m * q
  {}

  /** One key byte: bit i becomes bit i + 9 in a register of 32 bits, and then the bits of the byte are inverted. */
  lemma MixBits(h: nat, b: byte, i: nat)
    ensures Bit(Mix(h, b), i) == if (if 9 <= i < 32 then Bit(h, i - 9) else 0) == Bit(b, i) then 0 else 1
  {
    assert Power2(9) == 0x200 && Power2(32) == 0x1_0000_0000 by { Powers(); }
    XorBit(h * 0x200 % 0x1_0000_0000, b, i);
    LowBit(h * 0x200, 32, i);
    ShiftedBit(h, 9, i);
  }

  lemma Powers()
    ensures Power2(9) == 0x200 && Power2(32) == 0x1_0000_0000
  {
    assert Power2(4) == 16;
    assert Power2(8) == 16 * Power2(4);
    assert Power2(12) == 16 * Power2(8);
    assert Power2(16) == 16 * Power2(12);
    assert Power2(20) == 16 * Power2(16);
    assert Power2(24) == 16 * Power2(20);
    assert Power2(28) == 16 * Power2(24);
    assert Power2(32) == 16 * Power2(28);
  }

  /** The bytes of the key enter one after the other, and after each one the register is taken modulo the size. */
  lemma {:induction false} HashSnoc(h: nat, key: Key, b: byte, size: nat)
    requires size > 0
    ensures HashFrom(h, key + [b], size) == Mix(HashFrom(h, key, size), b) % size
    decreases |key|
  {
    hide Mix;
    if key == [] {
      assert [b][1..] == [];
      assert HashFrom(Mix(h, b) % size, [], size) == Mix(h, b) % size;
      assert [] + [b] == [b];
    } else {
      assert (key + [b])[1..] == key[1..] + [b];
      HashSnoc(Mix(h, key[0]) % size, key[1..], b, size);
    }
  }

  /** The slot of a key starts with the key's first byte in the register, which so enters twice. */
  lemma SlotIs(key: Key, b: byte, size: nat)
    requires size > 0
    ensures HashOf([], size) == 0 && HashOf([b], size) == Mix(b, b) % size
    ensures key != [] ==> HashOf(key + [b], size) == Mix(HashOf(key, size), b) % size
  {
    HashSnoc(b, [], b, size);
    assert [] + [b] == [b];
    if key != [] { HashSnoc(key[0], key, b, size); }
  }

  class Node<V> {
    var nKey: Key
    var nData: V
    var next: Node?<V>

    constructor (key: Key, data: V)
      ensures nKey == key && nData == data && next == null
    {
      nKey, nData, next := key, data, null;
    }
  }

  /** The node at a position of a chain, null past its end */
  function At<V>(chain: seq<Node<V>>, j: nat): Node?<V> { if j < |chain| then chain[j] else null }

  // ---- the buckets as values ----

  /** Every key of a bucket hashes to it, and occurs in it once. */
  ghost predicate Bucket<V>(b: seq<(Key, V)>, slot: nat, size: nat)
    requires size > 0
  {
    && (forall j :: 0 <= j < |b| ==> HashOf(b[j].0, size) == slot)
    && (forall j, k :: 0 <= j < k < |b| ==> b[j].0 != b[k].0)
  }

  ghost predicate Hashed<V>(bs: seq<seq<(Key, V)>>) {
    |bs| > 0 && forall i :: 0 <= i < |bs| ==> Bucket(bs[i], i, |bs|)
  }

  /** The buckets hold exactly the entries of the map. */
  ghost predicate Holds<V>(bs: seq<seq<(Key, V)>>, m: map<Key, V>)
    requires |bs| > 0
  {
    && (forall i, j :: 0 <= i < |bs| && 0 <= j < |bs[i]| ==> bs[i][j].0 in m && m[bs[i][j].0] == bs[i][j].1)
    && (forall key :: key in m ==> (key, m[key]) in bs[HashOf(key, |bs|)])
  }

  /** A new entry goes to the end of its bucket. */
  ghost function Appended<V>(bs: seq<seq<(Key, V)>>, key: Key, data: V): seq<seq<(Key, V)>>
    requires |bs| > 0
  {
    var slot := HashOf(key, |bs|);
    bs[slot := bs[slot] + [(key, data)]]
  }

  lemma ReplaceEntry<V>(bs: seq<seq<(Key, V)>>, m: map<Key, V>, slot: nat, j: nat, data: V)
    requires Hashed(bs) && Holds(bs, m) && slot < |bs| && j < |bs[slot]|
    ensures var key := bs[slot][j].0; var bs' := bs[slot := bs[slot][j := (key, data)]];
                                      key in m && Hashed(bs') && Holds(bs', m[key := data])
  {
    var key := bs[slot][j].0;
    var b := bs[slot][j := (key, data)];
    var bs' := bs[slot := b];
    assert Bucket(bs[slot], slot, |bs|);
    assert Bucket(b, slot, |bs|);
    forall i | 0 <= i < |bs| ensures Bucket(bs'[i], i, |bs|) {
      assert Bucket(bs[i], i, |bs|);
    }
    forall k | k in m[key := data] ensures (k, m[key := data][k]) in bs'[HashOf(k, |bs|)] {
      if k == key {
        assert b[j] == (key, data);
      } else {
        var i := HashOf(k, |bs|);
        var l :| 0 <= l < |bs[i]| && bs[i][l] == (k, m[k]);
        assert bs'[i][l] == (k, m[k]);
      }
    }
    forall i, l | 0 <= i < |bs| && 0 <= l < |bs'[i]|
      ensures bs'[i][l].0 in m && m[key := data][bs'[i][l].0] == bs'[i][l].1
    {
      assert Bucket(bs[i], i, |bs|) && bs'[i][l].0 == bs[i][l].0;
    }
  }

  lemma AppendEntry<V>(bs: seq<seq<(Key, V)>>, m: map<Key, V>, key: Key, data: V)
    requires Hashed(bs) && Holds(bs, m)
    requires forall j :: 0 <= j < |bs[HashOf(key, |bs|)]| ==> bs[HashOf(key, |bs|)][j].0 != key
    ensures var slot := HashOf(key, |bs|); var bs' := bs[slot := bs[slot] + [(key, data)]];
                                           key !in m && Hashed(bs') && Holds(bs', m[key := data])
  {
    var slot := HashOf(key, |bs|);
    var b := bs[slot] + [(key, data)];
    var bs' := bs[slot := b];
    assert key !in m;
    assert Bucket(bs[slot], slot, |bs|);
    assert Bucket(b, slot, |bs|);
    forall i | 0 <= i < |bs| ensures Bucket(bs'[i], i, |bs|) {
      assert Bucket(bs[i], i, |bs|);
    }
    forall k | k in m[key := data] ensures (k, m[key := data][k]) in bs'[HashOf(k, |bs|)] {
      if k == key {
        assert b[|bs[slot]|] == (key, data);
      } else {
        var i := HashOf(k, |bs|);
        var l :| 0 <= l < |bs[i]| && bs[i][l] == (k, m[k]);
        assert bs'[i][l] == (k, m[k]);
      }
    }
  }

  lemma Present<V>(bs: seq<seq<(Key, V)>>, m: map<Key, V>, i: nat, j: nat)
    requires Hashed(bs) && Holds(bs, m) && i < |bs| && j < |bs[i]|
    ensures bs[i][j].0 in m && m[bs[i][j].0] == bs[i][j].1
  {}

  lemma Absent<V>(bs: seq<seq<(Key, V)>>, m: map<Key, V>, key: Key)
    requires Hashed(bs) && Holds(bs, m)
    requires forall j :: 0 <= j < |bs[HashOf(key, |bs|)]| ==> bs[HashOf(key, |bs|)][j].0 != key
    ensures key !in m
  {}

  ghost function Keys<V>(b: seq<(Key, V)>): set<Key> { set e | e in b :: e.0 }

  /** The map after Remove */
  ghost function Removed<V>(bs: seq<seq<(Key, V)>>, m: map<Key, V>, key: Key): map<Key, V>
    requires |bs| > 0
  {
    var b := bs[HashOf(key, |bs|)];
    if b != [] && b[0].0 == key then m - Keys(b) else m
  }

  /** No other key of the map has the slot of this one. */
  ghost predicate AloneInSlot<V>(m: map<Key, V>, key: Key, size: nat)
    requires size > 0
  {
    forall k :: k in m && k != key ==> HashOf(k, size) != HashOf(key, size)
  }

  lemma AloneIsSingle<V>(bs: seq<seq<(Key, V)>>, m: map<Key, V>, key: Key)
    requires Hashed(bs) && Holds(bs, m) && key in m
    ensures AloneInSlot(m, key, |bs|) <==> |bs[HashOf(key, |bs|)]| == 1
  {
    var slot := HashOf(key, |bs|);
    var b := bs[slot];
    assert Bucket(b, slot, |bs|) && (key, m[key]) in b;
    if |b| > 1 {
      var k := b[if b[0].0 == key then 1 else 0].0;
      assert k in m && k != key && HashOf(k, |bs|) == slot;
    }
    if |b| == 1 {
      assert b == [(key, m[key])];
      forall k | k in m && k != key ensures HashOf(k, |bs|) != slot {
        assert (k, m[k]) in bs[HashOf(k, |bs|)];
      }
    }
  }

  /** Remove takes away the key alone exactly when it is absent, or no other key of the map has its slot. */
  lemma RemoveCorrect<V>(bs: seq<seq<(Key, V)>>, m: map<Key, V>, key: Key)
    requires Hashed(bs) && Holds(bs, m)
    ensures Removed(bs, m, key) == m - {key} <==> key !in m || AloneInSlot(m, key, |bs|)
  {
    if key in m {
      AloneIsSingle(bs, m, key);
      RemovePresent(bs, m, key);
    } else {
      RemoveAbsent(bs, m, key);
    }
  }

  lemma RemoveAbsent<V>(bs: seq<seq<(Key, V)>>, m: map<Key, V>, key: Key)
    requires Hashed(bs) && Holds(bs, m) && key !in m
    ensures Removed(bs, m, key) == m == m - {key}
  {
    var b := bs[HashOf(key, |bs|)];
    assert forall j :: 0 <= j < |b| ==> b[j].0 in m;
  }

  lemma RemovePresent<V>(bs: seq<seq<(Key, V)>>, m: map<Key, V>, key: Key)
    requires Hashed(bs) && Holds(bs, m) && key in m
    ensures Removed(bs, m, key) == m - {key} <==> |bs[HashOf(key, |bs|)]| == 1
  {
    var b := bs[HashOf(key, |bs|)];
    assert (key, m[key]) in b;
    if |b| == 1 {
      assert b == [(key, m[key])] && Keys(b) == {key};
    } else {
      var i := if b[0].0 == key then 1 else 0;
      assert Bucket(b, HashOf(key, |bs|), |bs|);
      assert b[i] in b && b[i].0 in Keys(b) && b[i].0 in m && b[i].0 != key;
      assert b[i].0 in m - {key} && key !in m - {key};
    }
  }

  lemma DropBucket<V>(bs: seq<seq<(Key, V)>>, m: map<Key, V>, slot: nat)
    requires Hashed(bs) && Holds(bs, m) && slot < |bs|
    ensures Hashed(bs[slot := []]) && Holds(bs[slot := []], m - Keys(bs[slot]))
  {
    var bs', m' := bs[slot := []], m - Keys(bs[slot]);
    forall i | 0 <= i < |bs| ensures Bucket(bs'[i], i, |bs|) { assert Bucket(bs[i], i, |bs|); }
    forall k | k in m' ensures (k, m'[k]) in bs'[HashOf(k, |bs|)] {
      assert (k, m[k]) in bs[HashOf(k, |bs|)];
    }
    forall i, j | 0 <= i < |bs| && 0 <= j < |bs'[i]| ensures bs'[i][j].0 in m' && m'[bs'[i][j].0] == bs'[i][j].1 {
      assert Bucket(bs[i], i, |bs|) && Bucket(bs[slot], slot, |bs|);
    }
  }

  /** Linked nodes that carry the entries of a bucket, in order. */
  ghost predicate Chain<V>(chain: seq<Node<V>>, b: seq<(Key, V)>)
    reads chain
  {
    && |chain| == |b|
    && (forall j :: 0 <= j < |b| ==>
                      chain[j].nKey == b[j].0 && chain[j].nData == b[j].1 && chain[j].next == At(chain, j + 1))
  }

  lemma NoNodes<V>()
    ensures Chain<V>([], [])
  {}

  method SetData<V>(ghost chain: seq<Node<V>>, ghost b: seq<(Key, V)>, ghost j: nat, node: Node<V>, data: V)
    requires Chain(chain, b) && j < |chain| && chain[j] == node
    requires forall l :: 0 <= l < |chain| && l != j ==> chain[l] != node
    modifies node`nData
    ensures Chain(chain, b[j := (node.nKey, data)])
  {
    node.nData := data;
  }

  method Link<V>(ghost chain: seq<Node<V>>, ghost b: seq<(Key, V)>, prev: Node<V>, key: Key, data: V)
    returns (n: Node<V>)
    requires Chain(chain, b) && chain != [] && prev == chain[|chain| - 1]
    requires forall l :: 0 <= l < |chain| - 1 ==> chain[l] != prev
    modifies prev`next
    ensures fresh(n) && Chain(chain + [n], b + [(key, data)])
  {
    n := new Node(key, data);
    prev.next := n;
  }

  class HashTable<V> {
    var mTable: array<Node?<V>>
    const mTableSize: nat
    var mValuesInTable: int
    ghost var chains: seq<seq<Node<V>>>
    ghost var buckets: seq<seq<(Key, V)>>
    ghost var contents: map<Key, V>
    ghost var nodes: set<Node<V>>

    ghost predicate Linked()
      reads this, mTable, nodes
    {
      && 0 < mTableSize == mTable.Length == |chains| == |buckets|
      && (forall i :: 0 <= i < mTableSize ==>
                        mTable[i] == At(chains[i], 0) && (forall n :: n in chains[i] ==> n in nodes) &&
                        Chain(chains[i], buckets[i]))
    }

    ghost predicate Valid()
      reads this, mTable, nodes
    {
      Linked() && Hashed(buckets) && Holds(buckets, contents)
    }

    /** No node is on two chains, or twice on one. */
    lemma Apart(i: nat, j: nat, k: nat, l: nat)
      requires Linked() && Hashed(buckets) && i < mTableSize && k < mTableSize && j < |chains[i]| && l < |chains[k]|
      requires chains[i][j] == chains[k][l]
      ensures i == k && j == l
    {
      assert Chain(chains[i], buckets[i]) && Chain(chains[k], buckets[k]);
      assert Bucket(buckets[i], i, |buckets|) && Bucket(buckets[k], k, |buckets|);
      assert buckets[i][j].0 == buckets[k][l].0;
    }

    lemma OnOneChain(slot: nat, j: nat)
      requires Linked() && Hashed(buckets) && slot < mTableSize && j < |chains[slot]|
      ensures forall l :: 0 <= l < |chains[slot]| && l != j ==> chains[slot][l] != chains[slot][j]
      ensures forall i :: 0 <= i < mTableSize && i != slot ==> chains[slot][j] !in chains[i]
    {
      forall i, l | 0 <= i < mTableSize && 0 <= l < |chains[i]| && chains[i][l] == chains[slot][j]
        ensures i == slot && l == j
      {
        Apart(i, l, slot, j);
      }
    }

    lemma SlotAt(slot: nat)
      requires Linked() && slot < mTableSize
      ensures |chains[slot]| == |buckets[slot]| && mTable[slot] == At(chains[slot], 0)
    {
      assert Chain(chains[slot], buckets[slot]);
    }

    lemma EntryAt(slot: nat, j: nat)
      requires Linked() && slot < mTableSize && (j < |chains[slot]| || j < |buckets[slot]|)
      ensures j < |chains[slot]| == |buckets[slot]|
      ensures buckets[slot][j] == (chains[slot][j].nKey, chains[slot][j].nData) &&
              chains[slot][j].next == At(chains[slot], j + 1)
    {
      assert Chain(chains[slot], buckets[slot]);
    }

    constructor (tblSize: nat)
      requires tblSize > 0
      ensures Valid() && contents == map[] && mValuesInTable == 0 && buckets == seq(tblSize, _ => []) &&
              fresh(mTable) && nodes == {} && mTableSize == tblSize
    {
      mValuesInTable := 0;
      mTableSize := tblSize;
      mTable := new Node?<V>[tblSize](_ => null);
      chains, buckets := seq(tblSize, _ => []), seq(tblSize, _ => []);
      nodes := {};
      contents := map[];
    }

    method Hash(key: Key) returns (hindex: nat)
      requires mTableSize > 0
      ensures hindex == HashOf(key, mTableSize) && hindex < mTableSize
    {
      hindex := if key == [] then 0 else key[0];
      var len, pb := |key|, 0;
      while len > 0
        invariant 0 <= pb <= |key| && len == |key| - pb &&
                  HashFrom(hindex, key[pb..], mTableSize) == HashOf(key, mTableSize)
      {
        len := len - 1;
        assert key[pb..][1..] == key[pb + 1..];
        hindex := Mix(hindex, key[pb]) % mTableSize;
        pb := pb + 1;
      }
      assert key[pb..] == [];
    }

    /** New data in an existing node */
    method Replace(ghost slot: nat, ghost j: nat, node: Node<V>, data: V)
      requires Valid() && slot < mTableSize && j < |chains[slot]| && chains[slot][j] == node
      modifies this`contents, this`buckets, node`nData
      ensures Valid() && contents == old(contents)[node.nKey := data] && node.nKey in old(contents)
    {
      hide Hashed, Holds, Chain;
      OnOneChain(slot, j);
      EntryAt(slot, j);
      ReplaceEntry(buckets, contents, slot, j, data);
      SetData(chains[slot], buckets[slot], j, node, data);
      contents := contents[node.nKey := data];
      buckets := buckets[slot := buckets[slot][j := (node.nKey, data)]];
    }

    /** A new node at the end of a chain */
    method Append(slot: nat, prev: Node<V>, key: Key, data: V)
      requires Valid() && slot < mTableSize == mTable.Length && chains[slot] != [] &&
               prev == chains[slot][|chains[slot]| - 1]
      requires HashOf(key, mTableSize) == slot && forall n :: n in chains[slot] ==> n.nKey != key
      modifies this`mValuesInTable, this`chains, this`buckets, this`contents, this`nodes, prev`next
      ensures Valid() && contents == old(contents)[key := data] && key !in old(contents)
      ensures mValuesInTable == old(mValuesInTable) + 1 && buckets == Appended(old(buckets), key, data)
      ensures forall n :: n in nodes ==> n in old(nodes) || fresh(n)
    {
      hide Hashed, Holds, Chain;
      OnOneChain(slot, |chains[slot]| - 1);
      forall j | 0 <= j < |buckets[slot]| ensures buckets[slot][j].0 != key { EntryAt(slot, j); }
      AppendEntry(buckets, contents, key, data);
      var n := Link(chains[slot], buckets[slot], prev, key, data);
      mValuesInTable := mValuesInTable + 1;
      chains := chains[slot := chains[slot] + [n]];
      nodes := nodes + {n};
      contents := contents[key := data];
      buckets := buckets[slot := buckets[slot] + [(key, data)]];
    }

    /** The first node of a chain */
    method Start(slot: nat, key: Key, data: V)
      requires Valid() && slot < mTableSize == mTable.Length && chains[slot] == [] && HashOf(key, mTableSize) == slot
      modifies this`mValuesInTable, this`chains, this`buckets, this`contents, this`nodes, mTable
      ensures Valid() && contents == old(contents)[key := data] && key !in old(contents)
      ensures mValuesInTable == old(mValuesInTable) + 1 && buckets == Appended(old(buckets), key, data)
      ensures forall n :: n in nodes ==> n in old(nodes) || fresh(n)
    {
      hide Hashed, Holds;
      assert Chain(chains[slot], buckets[slot]);
      AppendEntry(buckets, contents, key, data);
      mTable[slot] := new Node(key, data);
      mValuesInTable := mValuesInTable + 1;
      chains := chains[slot := [mTable[slot]]];
      nodes := nodes + {mTable[slot]};
      contents := contents[key := data];
      assert buckets[slot] + [(key, data)] == [(key, data)];
      buckets := buckets[slot := [(key, data)]];
      forall i | 0 <= i < mTableSize ensures Chain(chains[i], buckets[i]) {
        assert old(Chain(chains[i], buckets[i]));
      }
    }

    /** True when the key already had a value. */
    method Insert(key: Key, data: V) returns (found: bool)
      requires Valid()
      modifies this, mTable, nodes
      ensures Valid() && contents == old(contents)[key := data] && found == (key in old(contents))
      ensures mValuesInTable == old(mValuesInTable) + if found then 0 else 1
      ensures |old(buckets)| == mTableSize && (!found ==> buckets == Appended(old(buckets), key, data))
      ensures mTable == old(mTable) && forall n :: n in nodes ==> n in old(nodes) || fresh(n)
    {
      hide Hashed, Holds;
      var hindex := Hash(key);
      ghost var c := chains[hindex];
      if mTable[hindex] == null {
        Start(hindex, key, data);
        found := false;
      } else {
        var nodeptr := mTable[hindex];
        ghost var j := 0;
        found := false;
        while true
          invariant 0 <= j < |c| && nodeptr == c[j] && !found
          invariant forall k :: 0 <= k < j ==> c[k].nKey != key
          decreases |c| - j
        {
          if nodeptr.nKey == key {
            found := true;
            break;
          }
          if nodeptr.next == null { break; }
          nodeptr := nodeptr.next;
          j := j + 1;
        }
        if found {
          Replace(hindex, j, nodeptr, data);
        } else {
          Append(hindex, nodeptr, key, data);
        }
      }
    }

    method Lookup(key: Key, d: V) returns (found: bool, out: V)
      requires Valid()
      ensures found == (key in contents)
      ensures out == if found then contents[key] else d
    {
      hide Hashed, Holds, Chain;
      var hindex := Hash(key);
      var nodeptr := mTable[hindex];
      ghost var c, b := chains[hindex], buckets[hindex];
      SlotAt(hindex);
      ghost var j := 0;
      while nodeptr != null
        invariant 0 <= j <= |c| == |b| && nodeptr == At(c, j)
        invariant forall k :: 0 <= k < j ==> b[k].0 != key
        decreases |c| - j
      {
        EntryAt(hindex, j);
        if nodeptr.nKey == key {
          Present(buckets, contents, hindex, j);
          return true, nodeptr.nData;
        }
        nodeptr := nodeptr.next;
        j := j + 1;
      }
      Absent(buckets, contents, key);
      return false, d;
    }

    /** What Remove does on a match: the first node is unlinked from itself and its bucket emptied. */
    method DropChain(slot: nat)
      requires Valid() && slot < mTableSize == mTable.Length && chains[slot] != []
      modifies this`chains, this`buckets, this`contents, mTable, chains[slot][0]
      ensures Valid() && buckets == old(buckets)[slot := []] && contents == old(contents) - Keys(old(buckets)[slot])
    {
      hide Hashed, Holds, Chain;
      OnOneChain(slot, 0);
      EntryAt(slot, 0);
      var nodeptr := mTable[slot];
      nodeptr.next := nodeptr.next;
      DropBucket(buckets, contents, slot);
      mTable[slot] := null;
      contents := contents - Keys(buckets[slot]);
      chains, buckets := chains[slot := []], buckets[slot := []];
      NoNodes<V>();
    }

    /** Every comparison is with the first node of the chain, and a match drops the whole chain. */
    method Remove(key: Key) returns (ok: bool)
      requires Valid()
      modifies this`chains, this`buckets, this`contents, mTable, nodes
      ensures Valid() && contents == Removed(old(buckets), old(contents), key)
      ensures mTableSize == |buckets| && ok == (buckets[HashOf(key, mTableSize)] == [])
    {
      hide Hashed, Holds, Chain, Keys;
      var hindex := Hash(key);
      SlotAt(hindex);
      if mTable[hindex] == null { return true; }
      var nodeptr := mTable[hindex];
      ghost var c, j := chains[hindex], 0;
      EntryAt(hindex, 0);
      forall l | 0 <= l < |c| ensures c[l].next == At(c, l + 1) { EntryAt(hindex, l); }
      ok := false;
      while nodeptr != null
        invariant 0 <= j <= |c| && nodeptr == At(c, j) && (j > 0 ==> c[0].nKey != key) && !ok
        decreases |c| - j
      {
        if mTable[hindex].nKey == key {
          ok := true;
          break;
        }
        nodeptr := nodeptr.next;
        j := j + 1;
      }
      if ok { DropChain(hindex); }
    }
  }

  // ---- iteration ----

  ghost function Flat<V>(bs: seq<seq<(Key, V)>>): seq<(Key, V)> {
    if bs == [] then [] else bs[0] + Flat(bs[1..])
  }

  /** The entries from position j of bucket i on */
  ghost function From<V>(bs: seq<seq<(Key, V)>>, i: nat, j: nat): seq<(Key, V)> {
    if i >= |bs| then [] else (if j <= |bs[i]| then bs[i][j..] else []) + Flat(bs[i + 1..])
  }

  lemma NextBucket<V>(bs: seq<seq<(Key, V)>>, i: nat, j: nat)
    requires i < |bs| && |bs[i]| <= j
    ensures From(bs, i, j) == From(bs, i + 1, 0)
  {
    if i + 1 < |bs| { assert bs[i + 1..][1..] == bs[i + 2..] && bs[i + 1][0..] == bs[i + 1]; }
  }

  class HashTableIter<V> {
    var mCurIndex: int
    var mpCurNode: Node?<V>
    const mHashTable: HashTable<V>
    ghost var pos: nat

    /** On a node of the table, or past the last bucket */
    ghost predicate Valid()
      reads this, mHashTable, mHashTable.mTable, mHashTable.nodes
    {
      && mHashTable.Valid() && 0 <= mCurIndex <= mHashTable.mTableSize
      && mpCurNode == (if mCurIndex == mHashTable.mTableSize then null else At(mHashTable.chains[mCurIndex], pos))
      && (mCurIndex < mHashTable.mTableSize ==> pos < |mHashTable.chains[mCurIndex]| == |mHashTable.buckets[mCurIndex]|)
    }

    /** What is still to be visited */
    ghost function Rest(): seq<(Key, V)>
      requires Valid()
      reads this, mHashTable, mHashTable.mTable, mHashTable.nodes
    {
      From(mHashTable.buckets, mCurIndex, pos)
    }

    constructor (hashTbl: HashTable<V>)
      requires hashTbl.Valid()
      ensures mHashTable == hashTbl && Valid() && Rest() == Flat(hashTbl.buckets)
    {
      mHashTable := hashTbl;
      new;
      SeekBegin();
    }

    method SeekBegin()
      requires mHashTable.Valid()
      modifies this
      ensures Valid() && Rest() == Flat(mHashTable.buckets)
    {
      hide Hashed, Holds, Chain;
      mCurIndex := 0;
      mpCurNode := mHashTable.mTable[0];
      pos := 0;
      mHashTable.SlotAt(0);
      assert mHashTable.buckets[0][0..] == mHashTable.buckets[0];
      if mpCurNode == null { SeekNextValid(); }
    }

    predicate Done()
      requires Valid()
      reads this, mHashTable, mHashTable.mTable, mHashTable.nodes
      ensures Done() <==> Rest() == []
    {
      mCurIndex < 0 || mCurIndex >= mHashTable.mTableSize
    }

    method Next()
      requires Valid()
      modifies this
      ensures Valid() && Rest() == if old(Rest()) == [] then [] else old(Rest())[1..]
    {
      hide Hashed, Holds, Chain;
      SeekNextValid();
    }

    /** Past the current node, if any, and over the empty buckets after it */
    method SeekNextValid()
      requires mHashTable.Valid() && 0 <= mCurIndex <= mHashTable.mTableSize
      requires mpCurNode == (if mCurIndex == mHashTable.mTableSize then null else At(mHashTable.chains[mCurIndex], pos))
      modifies this
      ensures Valid()
      ensures var at := if old(mpCurNode) == null then old(pos) else old(pos) + 1;
              Rest() == From(mHashTable.buckets, old(mCurIndex), at)
    {
      hide Hashed, Holds, Chain, From;
      if mpCurNode != null {
        mHashTable.EntryAt(mCurIndex, pos);
        mpCurNode := mpCurNode.next;
        pos := pos + 1;
      }
      if mCurIndex >= mHashTable.mTableSize { return; }
      ghost var bs, i, j := mHashTable.buckets, mCurIndex, pos;
      mHashTable.SlotAt(mCurIndex);
      while mpCurNode == null && mCurIndex < mHashTable.mTableSize
        invariant 0 <= mCurIndex <= mHashTable.mTableSize
        invariant mpCurNode == (if mCurIndex == mHashTable.mTableSize then null else
                                At(mHashTable.chains[mCurIndex], pos))
        invariant mCurIndex < mHashTable.mTableSize ==> |mHashTable.chains[mCurIndex]| == |bs[mCurIndex]|
        invariant From(bs, mCurIndex, pos) == From(bs, i, j)
      {
        NextBucket(bs, mCurIndex, pos);
        mCurIndex := mCurIndex + 1;
        pos := 0;
        if mCurIndex < mHashTable.mTableSize {
          mpCurNode := mHashTable.mTable[mCurIndex];
          mHashTable.SlotAt(mCurIndex);
        }
      }
    }

    method Key() returns (key: Key)
      requires Valid() && !Done()
      ensures key == Rest()[0].0
    {
      mHashTable.EntryAt(mCurIndex, pos);
      return mpCurNode.nKey;
    }

    method Val() returns (v: V)
      requires Valid() && !Done()
      ensures v == Rest()[0].1
    {
      mHashTable.EntryAt(mCurIndex, pos);
      return mpCurNode.nData;
    }
  }

  ghost predicate DistinctKeys<V>(s: seq<(Key, V)>) {
    forall a, b :: 0 <= a < b < |s| ==> s[a].0 != s[b].0
  }

  lemma Joined<V>(s: seq<(Key, V)>, t: seq<(Key, V)>)
    requires DistinctKeys(s) && DistinctKeys(t) && forall d, e :: d in s && e in t ==> d.0 != e.0
    ensures DistinctKeys(s + t)
  {
    forall a, b | 0 <= a < b < |s + t| ensures (s + t)[a].0 != (s + t)[b].0 {
      if a < |s| <= b { assert s[a] in s && t[b - |s|] in t; }
    }
  }

  lemma {:induction false} MembersFrom<V>(bs: seq<seq<(Key, V)>>, i: nat)
    requires Hashed(bs) && i <= |bs|
    ensures forall e :: e in Flat(bs[i..]) ==> HashOf(e.0, |bs|) >= i && e in bs[HashOf(e.0, |bs|)]
    ensures forall l, e :: i <= l < |bs| && e in bs[l] ==> e in Flat(bs[i..])
    decreases |bs| - i
  {
    hide HashOf;
    if i < |bs| {
      MembersFrom(bs, i + 1);
      assert bs[i..][1..] == bs[i + 1..];
      assert Bucket(bs[i], i, |bs|);
      forall e | e in Flat(bs[i..]) ensures HashOf(e.0, |bs|) >= i && e in bs[HashOf(e.0, |bs|)] {
        if e !in bs[i] { assert e in Flat(bs[i + 1..]); }
      }
    }
  }

  lemma {:induction false} DistinctFrom<V>(bs: seq<seq<(Key, V)>>, i: nat)
    requires Hashed(bs) && i <= |bs|
    ensures DistinctKeys(Flat(bs[i..]))
    decreases |bs| - i
  {
    hide HashOf;
    if i < |bs| {
      DistinctFrom(bs, i + 1);
      MembersFrom(bs, i + 1);
      assert bs[i..][1..] == bs[i + 1..];
      assert Bucket(bs[i], i, |bs|);
      forall d, e | d in bs[i] && e in Flat(bs[i + 1..]) ensures d.0 != e.0 {
        assert HashOf(d.0, |bs|) == i && HashOf(e.0, |bs|) >= i + 1;
      }
      Joined(bs[i], Flat(bs[i + 1..]));
    }
  }

  lemma {:induction false} KeyCount<V>(s: seq<(Key, V)>)
    requires DistinctKeys(s)
    ensures |Keys(s)| == |s|
  {
    if s != [] {
      var t := s[..|s| - 1];
      var e := s[|s| - 1];
      KeyCount(t);
      assert e.0 !in Keys(t);
      assert Keys(s) == Keys(t) + {e.0} by {
        assert s == t + [e];
      }
    }
  }

  /** The iteration order holds every entry of the map, each key once. */
  lemma EachOnce<V>(bs: seq<seq<(Key, V)>>, m: map<Key, V>)
    requires Hashed(bs) && Holds(bs, m)
    ensures DistinctKeys(Flat(bs)) && |Flat(bs)| == |m|
    ensures forall key, v :: (key, v) in Flat(bs) <==> key in m && m[key] == v
  {
    DistinctFrom(bs, 0);
    MembersFrom(bs, 0);
    assert bs[0..] == bs;
    forall key, v ensures (key, v) in Flat(bs) <==> key in m && m[key] == v {
      var i := HashOf(key, |bs|);
      if (key, v) in bs[i] {
        var j :| 0 <= j < |bs[i]| && bs[i][j] == (key, v);
      }
    }
    KeyCount(Flat(bs));
    forall key ensures key in Keys(Flat(bs)) <==> key in m {
      if key in m { assert (key, m[key]) in Flat(bs); }
      if key in Keys(Flat(bs)) {
        var e :| e in Flat(bs) && e.0 == key;
        assert (key, e.1) in Flat(bs);
      }
    }
    assert Keys(Flat(bs)) == m.Keys;
  }

  /** The loop over a table that its clients write */
  method Traverse<V>(table: HashTable<V>) returns (visited: seq<(Key, V)>)
    requires table.Valid()
    ensures DistinctKeys(visited) && |visited| == |table.contents|
    ensures forall key, v :: (key, v) in visited <==> key in table.contents && table.contents[key] == v
  {
    hide Hashed, Holds, Chain, From, HashOf, DistinctKeys, Flat;
    visited := [];
    var iter := new HashTableIter(table);
    while !iter.Done()
      invariant iter.Valid() && iter.mHashTable == table && visited + iter.Rest() == Flat(table.buckets)
      decreases |iter.Rest()|
    {
      var key := iter.Key();
      var v := iter.Val();
      visited := visited + [(key, v)];
      iter.Next();
    }
    assert visited == Flat(table.buckets);
    EachOnce(table.buckets, table.contents);
  }

  // ---- every run of Insert and Lookup ----

  datatype Op<V> = Ins(key: Key, data: V) | Look(key: Key)
  datatype Answer<V> = Inserted(replaced: bool) | Found(value: V) | NotFound

  function MapStep<V>(m: map<Key, V>, op: Op<V>): map<Key, V> {
    if op.Ins? then m[op.key := op.data] else m
  }

  function MapAfter<V>(ops: seq<Op<V>>): map<Key, V> {
    if ops == [] then map[]
    else MapStep(MapAfter(ops[..|ops| - 1]), ops[|ops| - 1])
  }

  function AnswerTo<V>(m: map<Key, V>, op: Op<V>): Answer<V> {
    match op
    case Ins(key, _) => Inserted(key in m)
    case Look(key) => if key in m then Found(m[key]) else NotFound
  }

  method Perform<V>(table: HashTable<V>, op: Op<V>, d: V) returns (answer: Answer<V>)
    requires table.Valid()
    modifies table, table.mTable, table.nodes
    ensures table.Valid() && table.contents == MapStep(old(table.contents), op)
    ensures answer == AnswerTo(old(table.contents), op)
    ensures table.mValuesInTable - |table.contents| == old(table.mValuesInTable - |table.contents|)
    ensures table.mTable == old(table.mTable) && forall n :: n in table.nodes ==> n in old(table.nodes) || fresh(n)
  {
    hide Hashed, Holds, Chain;
    match op {
      case Ins(key, data) =>
        var replaced := table.Insert(key, data);
        answer := Inserted(replaced);
      case Look(key) =>
        var found, value := table.Lookup(key, d);
        answer := if found then Found(value) else NotFound;
    }
  }

  method Run<V>(tblSize: nat, ops: seq<Op<V>>, d: V) returns (table: HashTable<V>, answers: seq<Answer<V>>)
    requires tblSize > 0
    ensures table.Valid() && table.contents == MapAfter(ops) && table.mValuesInTable == |MapAfter(ops)|
    ensures |answers| == |ops| && forall i :: 0 <= i < |ops| ==> answers[i] == AnswerTo(MapAfter(ops[..i]), ops[i])
  {
    hide Hashed, Holds, Chain, MapStep, AnswerTo;
    table := new HashTable(tblSize);
    answers := [];
    for i := 0 to |ops|
      invariant table.Valid() && fresh(table) && fresh(table.mTable) && fresh(table.nodes)
      invariant table.contents == MapAfter(ops[..i]) && table.mValuesInTable == |table.contents|
      invariant |answers| == i && forall j :: 0 <= j < i ==> answers[j] == AnswerTo(MapAfter(ops[..j]), ops[j])
    {
      assert ops[..i + 1][..i] == ops[..i];
      var answer := Perform(table, ops[i], d);
      answers := answers + [answer];
    }
    assert ops[..|ops|] == ops;
  }

  // ---- a chain of two keys ----

  /** The empty key and the key of one NUL byte have slot 0 in every table. */
  lemma BothInSlotZero(size: nat)
    requires size > 0
    ensures HashOf([], size) == HashOf([0], size) == 0
  {
    assert HashFrom(0, [0], size) == HashFrom(Mix(0, 0) % size, [], size);
  }

  /** Removing one of them takes both, and leaves the value count as it was. */
  method LosesAnother<V>(tblSize: nat, v: V, w: V) returns (table: HashTable<V>)
    requires tblSize > 0
    ensures table.Valid() && table.contents == map[] && table.mValuesInTable == 2
  {
    hide Hashed, Holds, Chain, HashOf;
    BothInSlotZero(tblSize);
    table := new HashTable(tblSize);
    var first := table.Insert([], v);
    var second := table.Insert([0], w);
    assert table.buckets[0] == [([], v), ([0], w)];
    assert Keys(table.buckets[0]) == {[], [0]};
    var _ := table.Remove([]);
    assert table.contents == map[];
  }
}
