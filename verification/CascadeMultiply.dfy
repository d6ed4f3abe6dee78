/** AbstractGroup::CascadeIntMultiply (src/cryptlib/algebra.h:361-434): e1 * x + e2 * y with one shared
    run of doublings over a two-dimensional window table, of which only the entries with an odd
    coordinate are filled. */
module CascadeMultiplication {
  import opened Bits
  import opened Groups

  /** p * x + q * y */
  ghost function Combination<T>(g: Group<T>, p: nat, x: T, q: nat, y: T): T {
    g.add(Times(g, p, x), Times(g, q, y))
  }

  ghost predicate StandsFor<T>(g: Group<T>, e: T, p: nat, x: T, q: nat, y: T) {
    g.equal(e, Combination(g, p, x, q, y))
  }

  lemma AddCombinations<T(!new)>(g: Group<T>, a: T, p: nat, q: nat, b: T, p': nat, q': nat, x: T, y: T)
    requires Lawful(g) && Commutative(g)
    requires StandsFor(g, a, p, x, q, y) && StandsFor(g, b, p', x, q', y)
    ensures StandsFor(g, g.add(a, b), p + p', x, q + q', y)
  {
    var px, qy, px', qy' := Times(g, p, x), Times(g, q, y), Times(g, p', x), Times(g, q', y);
    AddE(g, a, g.add(px, qy), b, g.add(px', qy'));
    Interchange(g, px, qy, px', qy');
    TransE(g, g.add(a, b), g.add(g.add(px, qy), g.add(px', qy')), g.add(g.add(px, px'), g.add(qy, qy')));
    TimesAdd(g, p, p', x);
    TimesAdd(g, q, q', y);
    AddE(g, g.add(px, px'), Times(g, p + p', x), g.add(qy, qy'), Times(g, q + q', y));
    TransE(g, g.add(a, b), g.add(g.add(px, px'), g.add(qy, qy')), Combination(g, p + p', x, q + q', y));
  }

  lemma DoubleCombination<T(!new)>(g: Group<T>, a: T, p: nat, q: nat, x: T, y: T)
    requires Lawful(g) && Commutative(g) && StandsFor(g, a, p, x, q, y)
    ensures StandsFor(g, g.double(a), 2 * p, x, 2 * q, y)
  {
    assert Doubles(g, a);
    AddCombinations(g, a, p, q, a, p, q, x, y);
    TransE(g, g.double(a), g.add(a, a), Combination(g, 2 * p, x, 2 * q, y));
  }

  lemma BaseCombinations<T(!new)>(g: Group<T>, x: T, y: T)
    requires Lawful(g) && Commutative(g)
    ensures StandsFor(g, g.zero, 0, x, 0, y) && StandsFor(g, x, 1, x, 0, y) && StandsFor(g, y, 0, x, 1, y)
  {
    assert Neutral(g, g.zero);
    SymmE(g, g.add(g.zero, g.zero), g.zero);
    TimesOne(g, x);
    assert Neutral(g, Times(g, 1, x)) && Neutral(g, Times(g, 1, y));
    SymmE(g, g.add(Times(g, 1, x), g.zero), Times(g, 1, x));
    TransE(g, x, Times(g, 1, x), Combination(g, 1, x, 0, y));
    TimesOne(g, y);
    SymmE(g, g.add(g.zero, Times(g, 1, y)), Times(g, 1, y));
    TransE(g, y, Times(g, 1, y), Combination(g, 0, x, 1, y));
  }

  // ---- the window table: index (q << w) + p holds p * x + q * y ----

  function WindowBits(expLen: nat): (w: nat)
    ensures 1 <= w <= 3
  {
    if expLen <= 46 then 1 else if expLen <= 260 then 2 else 3
  }

  /** 1 << w, for the three widths in use */
  function TableSize(w: nat): (r: nat)
    ensures r > 0 && r % 2 == 0
  { if w == 1 then 2 else if w == 2 then 4 else 8 }

  ghost function Column(w: nat, k: nat): nat { if k < TableSize(w) then k else Column(w, k - TableSize(w)) }

  ghost function Row(w: nat, k: nat): nat { if k < TableSize(w) then 0 else 1 + Row(w, k - TableSize(w)) }

  ghost predicate OddEntry(w: nat, k: nat) { k % 2 == 1 || Row(w, k) % 2 == 1 }

  /** e is what belongs at index k. */
  ghost predicate Entry<T>(g: Group<T>, e: T, w: nat, k: nat, x: T, y: T) {
    StandsFor(g, e, Column(w, k), x, Row(w, k), y)
  }

  ghost predicate Filled<T>(g: Group<T>, table: array<T>, w: nat, x: T, y: T)
    reads table
  {
    table.Length == Shl(TableSize(w), w) &&
    forall k: nat :: k < table.Length && OddEntry(w, k) ==> Entry(g, table[k], w, k, x, y)
  }

  lemma {:induction false} Coordinates(w: nat, k: nat)
    ensures Column(w, k) < TableSize(w) && Column(w, k) % 2 == k % 2
    ensures k < TableSize(w) ==> Column(w, k) == k && Row(w, k) == 0
  {
    if k >= TableSize(w) { Coordinates(w, k - TableSize(w)); }
  }

  /** Going up a row adds y to what the entry stands for. */
  lemma RowAbove(w: nat, k: nat)
    ensures Column(w, k + TableSize(w)) == Column(w, k)
    ensures Row(w, k + TableSize(w)) == Row(w, k) + 1
  {}

  /** Going right from column zero adds x. */
  lemma {:induction false} RowOf(w: nat, i: nat, d: nat)
    requires Column(w, i) == 0 && d < TableSize(w)
    ensures Row(w, i + d) == Row(w, i) && Column(w, i + d) == d
  {
    if i >= TableSize(w) { RowOf(w, i - TableSize(w), d); }
  }

  lemma TableLength(w: nat)
    requires 1 <= w <= 3
    ensures Shl(TableSize(w), w) == if w == 1 then 4 else if w == 2 then 16 else 64
  {
    var t := TableSize(w);
    assert Shl(t, 0) == t;
    assert Shl(t, 1) == 2 * t;
    assert Shl(t, 2) == 2 * Shl(t, 1);
    assert Shl(t, 3) == 2 * Shl(t, 2);
  }

  lemma NextRow(w: nat, q: nat)
    requires 1 <= w <= 3
    ensures Shl(q + 1, w) == Shl(q, w) + TableSize(w)
  {
    ShlAdd(q, 1, w);
    assert Shl(1, 0) == 1;
    assert Shl(1, 1) == 2;
    assert Shl(1, 2) == 2 * Shl(1, 1);
    assert Shl(1, 3) == 2 * Shl(1, 2);
  }

  lemma {:induction false} IndexOf(w: nat, p: nat, q: nat)
    requires 1 <= w <= 3 && p < TableSize(w)
    ensures Column(w, Shl(q, w) + p) == p && Row(w, Shl(q, w) + p) == q
    ensures q < TableSize(w) ==> Shl(q, w) + p < Shl(TableSize(w), w)
  {
    if q > 0 {
      IndexOf(w, p, q - 1);
      NextRow(w, q - 1);
      RowAbove(w, Shl(q - 1, w) + p);
    }
    NextRow(w, q);
    if q < TableSize(w) { ShlMonotone(q + 1, TableSize(w), w); }
  }

  lemma {:induction false} IndexFrom(w: nat, k: nat)
    requires 1 <= w <= 3
    ensures k == Shl(Row(w, k), w) + Column(w, k)
  {
    if k >= TableSize(w) {
      IndexFrom(w, k - TableSize(w));
      NextRow(w, Row(w, k - TableSize(w)));
    }
  }

  lemma {:induction false} SameColumn(w: nat, j: nat, k: nat)
    requires Column(w, j) == Column(w, k) && j <= k < j + TableSize(w)
    ensures j == k
  {
    if j >= TableSize(w) { SameColumn(w, j - TableSize(w), k - TableSize(w)); }
  }

  /** From an odd row, the next two rows hold no other odd row. */
  lemma NextOddRow(w: nat, i: nat, k: nat)
    requires Column(w, i) == 0 && Row(w, i) % 2 == 1
    requires i <= k < i + 2 * TableSize(w) && Row(w, k) % 2 == 1
    ensures k < i + TableSize(w) && (Column(w, k) == 0 ==> k == i)
  {
    RowAbove(w, i);
    if k < i + TableSize(w) {
      RowOf(w, i, k - i);
    } else {
      RowOf(w, i + TableSize(w), k - i - TableSize(w));
    }
  }

  lemma FirstOddRow(w: nat, k: nat)
    requires Row(w, k) % 2 == 1
    ensures k >= TableSize(w) && Column(w, TableSize(w)) == 0 && Row(w, TableSize(w)) == 1
  {}

  /** A row that starts inside the table ends inside it. */
  lemma RowFits(w: nat, i: nat)
    requires 1 <= w <= 3 && Column(w, i) == 0 && i < Shl(TableSize(w), w)
    ensures i + TableSize(w) <= Shl(TableSize(w), w)
  {
    IndexFrom(w, i);
    NextRow(w, Row(w, i));
    if Row(w, i) < TableSize(w) {
      ShlMonotone(Row(w, i) + 1, TableSize(w), w);
    } else {
      ShlMonotone(TableSize(w), Row(w, i), w);
    }
  }

  /** The odd multiples of x in row zero. */
  method FillFirstRow<T(!new)>(g: Group<T>, table: array<T>, w: nat, x: T, y: T)
    requires Lawful(g) && Commutative(g) && 2 <= w <= 3 && table.Length == Shl(TableSize(w), w)
    requires Entry(g, table[1], w, 1, x, y) && Entry(g, table[2], w, 2, x, y)
    modifies table
    ensures forall k: nat :: k < TableSize(w) && k % 2 == 1 ==> Entry(g, table[k], w, k, x, y)
    ensures forall k: nat :: k < table.Length && k % 2 == 0 ==> table[k] == old(table[k])
  {
    hide StandsFor, Column, Row, Lawful, Commutative;
    var i := 3;
    while i < TableSize(w)
      invariant 3 <= i <= TableSize(w) + 1 && i % 2 == 1
      invariant Entry(g, table[2], w, 2, x, y)
      invariant forall k: nat :: k < i && k % 2 == 1 ==> Entry(g, table[k], w, k, x, y)
      invariant forall k: nat :: k < table.Length && k % 2 == 0 ==> table[k] == old(table[k])
    {
      Coordinates(w, 2);
      Coordinates(w, i - 2);
      Coordinates(w, i);
      assert Entry(g, table[i - 2], w, i - 2, x, y);
      AddCombinations(g, table[i - 2], i - 2, 0, table[2], 2, 0, x, y);
      table[i] := g.add(table[i - 2], table[2]);
      assert Entry(g, table[i], w, i, x, y);
      i := i + 2;
    }
  }

  /** Every odd column, upwards from row zero. */
  method FillOddColumns<T(!new)>(g: Group<T>, table: array<T>, w: nat, x: T, y: T)
    requires Lawful(g) && Commutative(g) && 2 <= w <= 3 && table.Length == Shl(TableSize(w), w)
    requires forall k: nat :: k < TableSize(w) && k % 2 == 1 ==> Entry(g, table[k], w, k, x, y)
    modifies table
    ensures forall k: nat :: k < table.Length && k % 2 == 1 ==> Entry(g, table[k], w, k, x, y)
    ensures forall k: nat :: k < table.Length && k % 2 == 0 ==> table[k] == old(table[k])
  {
    hide StandsFor, Column, Row, Lawful, Commutative;
    var size := TableSize(w);
    BaseCombinations(g, x, y);
    forall k: nat | k < table.Length ensures Column(w, k) < size && Column(w, k) % 2 == k % 2 { Coordinates(w, k); }
    var i := 1;
    while i < size
      invariant 1 <= i <= size + 1 && i % 2 == 1
      invariant forall k: nat :: k < table.Length && k % 2 == 1 && (k < size || Column(w, k) < i) ==>
                                   Entry(g, table[k], w, k, x, y)
      invariant forall k: nat :: k < table.Length && k % 2 == 0 ==> table[k] == old(table[k])
    {
      Coordinates(w, i);
      RowAbove(w, i);
      forall k: nat | i <= k < i + size && Column(w, k) == i ensures k == i { SameColumn(w, i, k); }
      var j := i + size;
      while j < table.Length
        invariant j % 2 == 1 && j >= i + size && Column(w, j) == i && Column(w, j - size) == i &&
                  Row(w, j) == Row(w, j - size) + 1
        invariant forall k: nat :: k < table.Length && k % 2 == 1 &&
                                   (k < size || Column(w, k) < i || (Column(w, k) == i && k < j)) ==>
                                     Entry(g, table[k], w, k, x, y)
        invariant forall k: nat :: k < table.Length && k % 2 == 0 ==> table[k] == old(table[k])
      {
        AddCombinations(g, table[j - size], i, Row(w, j - size), y, 0, 1, x, y);
        table[j] := g.add(table[j - size], y);
        forall k: nat | j <= k < j + size && Column(w, k) == i ensures k == j { SameColumn(w, j, k); }
        RowAbove(w, j);
        j := j + size;
      }
      i := i + 2;
    }
  }

  /** The odd multiples of y in column zero. */
  method FillFirstColumn<T(!new)>(g: Group<T>, table: array<T>, w: nat, x: T, y: T)
    requires Lawful(g) && Commutative(g) && 2 <= w <= 3 && table.Length == Shl(TableSize(w), w)
    requires forall k: nat :: k < table.Length && k % 2 == 1 ==> Entry(g, table[k], w, k, x, y)
    requires 2 * TableSize(w) < table.Length
    requires Entry(g, table[TableSize(w)], w, TableSize(w), x, y) &&
             Entry(g, table[2 * TableSize(w)], w, 2 * TableSize(w), x, y)
    modifies table
    ensures forall k: nat :: k < table.Length && (k % 2 == 1 || (Column(w, k) == 0 && Row(w, k) % 2 == 1)) ==>
                               Entry(g, table[k], w, k, x, y)
  {
    hide StandsFor, Column, Row, Lawful, Commutative;
    var size := TableSize(w);
    FirstOddRow(w, 3 * size) by { RowAbove(w, size); RowAbove(w, 2 * size); RowAbove(w, 0); Coordinates(w, 0); }
    RowAbove(w, size);
    RowAbove(w, 2 * size);
    forall k: nat | k < 3 * size && Column(w, k) == 0 && Row(w, k) % 2 == 1 ensures k == size {
      FirstOddRow(w, k);
      NextOddRow(w, size, k);
    }
    var i := 3 * size;
    while i < table.Length
      invariant i >= 3 * size && i % 2 == 0 && Column(w, i) == 0 && Row(w, i) % 2 == 1
      invariant Column(w, i - 2 * size) == 0 && Row(w, i) == Row(w, i - 2 * size) + 2
      invariant Entry(g, table[2 * size], w, 2 * size, x, y) && Column(w, 2 * size) == 0 && Row(w, 2 * size) == 2
      invariant forall k: nat :: k < table.Length &&
                                 (k % 2 == 1 || (Column(w, k) == 0 && Row(w, k) % 2 == 1 && k < i)) ==>
                                   Entry(g, table[k], w, k, x, y)
    {
      AddCombinations(g, table[i - 2 * size], 0, Row(w, i - 2 * size), table[2 * size], 0, 2, x, y);
      table[i] := g.add(table[i - 2 * size], table[2 * size]);
      forall k: nat | i <= k < i + 2 * size && Column(w, k) == 0 && Row(w, k) % 2 == 1 ensures k == i {
        NextOddRow(w, i, k);
      }
      RowAbove(w, i);
      RowAbove(w, i + size);
      i := i + 2 * size;
    }
  }

  /** The even columns of the odd row that starts at i, each from its odd left neighbour. */
  method FillOddRow<T(!new)>(g: Group<T>, table: array<T>, w: nat, x: T, y: T, i: nat)
    requires Lawful(g) && Commutative(g) && 2 <= w <= 3
    requires Column(w, i) == 0 && i % 2 == 0 && i + TableSize(w) <= table.Length
    requires forall k: nat :: i <= k < i + TableSize(w) && (k % 2 == 1 || k == i) ==> Entry(g, table[k], w, k, x, y)
    modifies table
    ensures forall k: nat :: i <= k < i + TableSize(w) ==> Entry(g, table[k], w, k, x, y)
    ensures forall k: nat :: k < table.Length && !(i <= k < i + TableSize(w)) ==> table[k] == old(table[k])
    ensures forall k: nat :: k < table.Length && k % 2 == 1 ==> table[k] == old(table[k])
  {
    hide StandsFor, Column, Row, Lawful, Commutative;
    BaseCombinations(g, x, y);
    var size := TableSize(w);
    var j := i + 2;
    while j < i + size
      invariant i + 2 <= j <= i + size && j % 2 == 0
      invariant forall k: nat :: i <= k < i + size && (k % 2 == 1 || k < j) ==> Entry(g, table[k], w, k, x, y)
      invariant forall k: nat :: k < table.Length && (k % 2 == 1 || !(i <= k < i + size)) ==> table[k] == old(table[k])
    {
      RowOf(w, i, j - 1 - i);
      RowOf(w, i, j - i);
      assert Entry(g, table[j - 1], w, j - 1, x, y);
      AddCombinations(g, table[j - 1], Column(w, j - 1), Row(w, j - 1), x, 1, 0, x, y);
      table[j] := g.add(table[j - 1], x);
      assert Entry(g, table[j], w, j, x, y);
      j := j + 2;
    }
  }

  method FillOddRows<T(!new)>(g: Group<T>, table: array<T>, w: nat, x: T, y: T)
    requires Lawful(g) && Commutative(g) && 2 <= w <= 3 && table.Length == Shl(TableSize(w), w)
    requires forall k: nat :: k < table.Length && (k % 2 == 1 || (Column(w, k) == 0 && Row(w, k) % 2 == 1)) ==>
                                Entry(g, table[k], w, k, x, y)
    modifies table
    ensures Filled(g, table, w, x, y)
  {
    hide StandsFor, Column, Row, Lawful, Commutative;
    var size := TableSize(w);
    forall k: nat | Row(w, k) % 2 == 1 ensures k >= size { FirstOddRow(w, k); }
    RowAbove(w, 0);
    Coordinates(w, 0);
    var i := size;
    while i < table.Length
      invariant i >= size && i % 2 == 0 && Column(w, i) == 0 && Row(w, i) % 2 == 1
      invariant forall k: nat :: k < table.Length &&
                                 (k % 2 == 1 || (Row(w, k) % 2 == 1 && (Column(w, k) == 0 || k < i))) ==>
                                   Entry(g, table[k], w, k, x, y)
    {
      RowFits(w, i);
      FillOddRow(g, table, w, x, y, i);
      forall k: nat | i <= k < i + 2 * size && Row(w, k) % 2 == 1 ensures k < i + size { NextOddRow(w, i, k); }
      RowAbove(w, i);
      RowAbove(w, i + size);
      i := i + 2 * size;
    }
  }

  method WindowTable<T(0, !new)>(g: Group<T>, x: T, y: T, w: nat) returns (powerTable: array<T>)
    requires Lawful(g) && Commutative(g) && 1 <= w <= 3
    ensures fresh(powerTable) && Filled(g, powerTable, w, x, y)
  {
    hide StandsFor, Column, Row, Lawful, Commutative;
    var tableSize := TableSize(w);
    powerTable := new T[Shl(tableSize, w)];
    TableLength(w);
    BaseCombinations(g, x, y);
    Coordinates(w, 0);
    RowAbove(w, 0);
    Coordinates(w, 1);
    powerTable[1] := x;
    powerTable[tableSize] := y;
    if w == 1 {
      powerTable[3] := g.add(x, y);
      AddCombinations(g, x, 1, 0, y, 0, 1, x, y);
      RowAbove(w, 1);
      forall k: nat | k < 2 && OddEntry(w, k) ensures k == 1 { Coordinates(w, k); }
    } else {
      Coordinates(w, 2);
      RowAbove(w, tableSize);
      DoubleCombination(g, x, 1, 0, x, y);
      DoubleCombination(g, y, 0, 1, x, y);
      powerTable[2] := g.double(x);
      powerTable[2 * tableSize] := g.double(y);
      assert Entry(g, powerTable[1], w, 1, x, y) && Entry(g, powerTable[2], w, 2, x, y);
      FillFirstRow(g, powerTable, w, x, y);
      FillOddColumns(g, powerTable, w, x, y);
      FillFirstColumn(g, powerTable, w, x, y);
      FillOddRows(g, powerTable, w, x, y);
    }
  }

  // ---- the scan ----

  /** while (n--) result = Double(result) */
  method Doublings<T(!new)>(g: Group<T>, a: T, n: nat, ghost p: nat, ghost x: T, ghost q: nat, ghost y: T)
    returns (result: T)
    requires Lawful(g) && Commutative(g) && StandsFor(g, a, p, x, q, y)
    ensures StandsFor(g, result, Shl(p, n), x, Shl(q, n), y)
  {
    hide StandsFor, Lawful, Commutative;
    result := a;
    var left := n;
    ghost var p', q' := p, q;
    while left > 0
      invariant StandsFor(g, result, p', x, q', y)
      invariant Shl(p', left) == Shl(p, n) && Shl(q', left) == Shl(q, n)
    {
      DoubleCombination(g, result, p', q', x, y);
      ShlShl(p', 1, left - 1);
      ShlShl(q', 1, left - 1);
      result := g.double(result);
      p', q', left := 2 * p', 2 * q', left - 1;
    }
  }

  /** Moves the common factors of two of both windows behind them; the counter never passes zero. */
  method StripTwos(window1: nat, window2: nat, squares: nat)
    returns (power1: nat, power2: nat, squaresBefore: nat, squaresAfter: nat)
    requires window1 < Pow2(squares + 1) && window2 < Pow2(squares + 1)
    ensures squaresBefore + squaresAfter == squares
    ensures Shl(power1, squaresAfter) == window1 && Shl(power2, squaresAfter) == window2
    ensures power1 <= window1 && power2 <= window2
    ensures (power1 == 0 && power2 == 0) || power1 % 2 == 1 || power2 % 2 == 1
  {
    power1, power2, squaresBefore, squaresAfter := window1, window2, squares, 0;
    while (power1 != 0 || power2 != 0) && power1 % 2 == 0 && power2 % 2 == 0
      invariant squaresBefore + squaresAfter == squares
      invariant power1 < Pow2(squaresBefore + 1) && power2 < Pow2(squaresBefore + 1)
      invariant Shl(power1, squaresAfter) == window1 && Shl(power2, squaresAfter) == window2
      invariant power1 <= window1 && power2 <= window2
      decreases power1 + power2
    {
      ShlShl(power1 / 2, 1, squaresAfter);
      ShlShl(power2 / 2, 1, squaresAfter);
      power1, power2 := power1 / 2, power2 / 2;
      squaresBefore, squaresAfter := squaresBefore - 1, squaresAfter + 1;
    }
  }

  /** The only entries ever read are filled ones. */
  lemma ReadEntry<T(!new)>(g: Group<T>, table: array<T>, w: nat, x: T, y: T, p: nat, q: nat)
    requires Filled(g, table, w, x, y) && 1 <= w <= 3 && p < TableSize(w) && q < TableSize(w)
    requires p % 2 == 1 || q % 2 == 1
    ensures Shl(q, w) + p < table.Length && StandsFor(g, table[Shl(q, w) + p], p, x, q, y)
  {
    hide StandsFor;
    IndexOf(w, p, q);
    Coordinates(w, Shl(q, w) + p);
    assert OddEntry(w, Shl(q, w) + p);
  }

  method FlushWindow<T(!new)>(g: Group<T>, powerTable: array<T>, w: nat, window1: nat, window2: nat, squares: nat,
                              firstTime: bool, result0: T, ghost x: T, ghost prefix1: nat, ghost y: T,
                              ghost prefix2: nat)
    returns (result: T)
    requires Lawful(g) && Commutative(g) && 1 <= w <= 3 && Filled(g, powerTable, w, x, y)
    requires window1 < TableSize(w) && window2 < TableSize(w) && window1 < Pow2(squares + 1) &&
             window2 < Pow2(squares + 1)
    requires if firstTime then (window1 != 0 || window2 != 0) && prefix1 == 0 && prefix2 == 0
             else StandsFor(g, result0, prefix1, x, prefix2, y)
    ensures StandsFor(g, result, Shl(prefix1, squares) + window1, x, Shl(prefix2, squares) + window2, y)
  {
    hide StandsFor, Lawful, Commutative, Filled, TableSize;
    var power1, power2, squaresBefore, squaresAfter := StripTwos(window1, window2, squares);
    ghost var head1, head2 := Shl(prefix1, squaresBefore), Shl(prefix2, squaresBefore);
    ShlAdd(head1, power1, squaresAfter);
    ShlAdd(head2, power2, squaresAfter);
    ShlShl(prefix1, squaresBefore, squaresAfter);
    ShlShl(prefix2, squaresBefore, squaresAfter);
    if firstTime {
      ReadEntry(g, powerTable, w, x, y, power1, power2);
      result := powerTable[Shl(power2, w) + power1];
    } else {
      result := Doublings(g, result0, squaresBefore, prefix1, x, prefix2, y);
      if power1 != 0 || power2 != 0 {
        ReadEntry(g, powerTable, w, x, y, power1, power2);
        AddCombinations(g, powerTable[Shl(power2, w) + power1], power1, power2, result, head1, head2, x, y);
        result := g.add(powerTable[Shl(power2, w) + power1], result);
      }
    }
    result := Doublings(g, result, squaresAfter, head1 + power1, x, head2 + power2, y);
  }

  method CascadeIntMultiply<T(0, !new)>(g: Group<T>, x: T, e1: nat, y: T, e2: nat) returns (result: T)
    requires Lawful(g) && Commutative(g)
    ensures g.equal(result, g.add(Times(g, e1, x), Times(g, e2, y)))
  {
    hide Times, Lawful, Commutative, Shl, Shr, BitCount, GetBit, Pow2, Pending, Filled, StandsFor, WindowBits,
      TableSize;
    var expLen := if BitCount(e1) > BitCount(e2) then BitCount(e1) else BitCount(e2);
    if expLen == 0 {
      BaseCombinations(g, x, y);
      ZeroBits(e1);
      ZeroBits(e2);
      Unfold(g, g.zero, e1, x, e2, y);
      return g.zero;
    }
    var w := WindowBits(expLen);
    var tableSize := TableSize(w);
    var powerTable := WindowTable(g, x, y, w);

    StartWindow(e1, expLen);
    StartWindow(e2, expLen);
    var power1: nat, power2: nat, prevPosition: nat, firstTime := 0, 0, expLen - 1, true;
    ghost var prefix1: nat, prefix2: nat := 0, 0;
    result := x;  // a default-constructed Element in the source; overwritten by the first window
    for i := expLen downto 0
      invariant Filled(g, powerTable, w, x, y)
      invariant Scanning(i, prevPosition, firstTime, expLen) && 2 * power1 < tableSize && 2 * power2 < tableSize
      invariant Pending(e1, i, prevPosition, power1, firstTime, prefix1)
      invariant Pending(e2, i, prevPosition, power2, firstTime, prefix2)
      invariant !firstTime ==> StandsFor(g, result, prefix1, x, prefix2, y)
    {
      NextBit(e1, i, prevPosition, power1, firstTime, prefix1);
      NextBit(e2, i, prevPosition, power2, firstTime, prefix2);
      power1 := 2 * power1 + GetBit(e1, i);
      power2 := 2 * power2 + GetBit(e2, i);
      if i == 0 || 2 * power1 >= tableSize || 2 * power2 >= tableSize {
        if firstTime { FirstWindowNonZero(if BitCount(e1) > BitCount(e2) then e1 else e2, i); }
        result := FlushWindow(g, powerTable, w, power1, power2, prevPosition - i, firstTime, result, x, prefix1, y,
                              prefix2);
        prevPosition, prefix1, prefix2, firstTime := i, Shr(e1, i), Shr(e2, i), false;
        power1, power2 := 0, 0;
      }
    }
    EndWindow(e1, prevPosition, power1, prefix1);
    EndWindow(e2, prevPosition, power2, prefix2);
    Unfold(g, result, e1, x, e2, y);
  }

  lemma Unfold<T>(g: Group<T>, e: T, p: nat, x: T, q: nat, y: T)
    requires StandsFor(g, e, p, x, q, y)
    ensures g.equal(e, g.add(Times(g, p, x), Times(g, q, y)))
  {}

  lemma ZeroBits(e: nat)
    requires BitCount(e) == 0
    ensures e == 0
  {}
}
