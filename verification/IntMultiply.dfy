/** AbstractGroup::IntMultiply and AbstractRing::Exponentiate (src/cryptlib/algebra.h:305-359, 471-474):
    sliding-window multiplication over a table of odd multiples, proved equal to repeated addition. */
module IntMultiplication {
  import opened Bits
  import opened Groups

  /** powerTableSize for an exponent of expLen bits. */
  function WindowTableSize(expLen: nat): nat {
    if expLen <= 17 then 1 else if expLen <= 24 then 2 else if expLen <= 70 then 4 else
    if expLen <= 197 then 8 else if expLen <= 539 then 16 else if expLen <= 1434 then 32 else 64
  }

  /** while (n--) result = Double(result) */
  method Doublings<T(!new)>(g: Group<T>, a: T, n: nat, ghost k: nat, ghost base: T) returns (result: T)
    requires Lawful(g) && g.equal(a, Times(g, k, base))
    ensures g.equal(result, Times(g, Shl(k, n), base))
  {
    result := a;
    var left := n;
    ghost var m := k;
    while left > 0
      invariant g.equal(result, Times(g, m, base))
      invariant Shl(m, left) == Shl(k, n)
    {
      DoubleMultiple(g, result, m, base);
      ShlShl(m, 1, left - 1);
      result := g.double(result);
      m, left := 2 * m, left - 1;
    }
  }

  /** Moves the factors of two of a window behind it.  squaresBefore never passes zero, because a
      window read from n bits has fewer than n trailing zeros unless it is zero. */
  method StripTwos(window: nat, squares: nat) returns (power: nat, squaresBefore: nat, squaresAfter: nat)
    requires window < Pow2(squares + 1)
    ensures squaresBefore + squaresAfter == squares
    ensures Shl(power, squaresAfter) == window
    ensures power == 0 <==> window == 0
    ensures window != 0 ==> power % 2 == 1
    ensures window == 0 ==> squaresAfter == 0
  {
    power, squaresBefore, squaresAfter := window, squares, 0;
    while power != 0 && power % 2 == 0
      invariant squaresBefore + squaresAfter == squares
      invariant power < Pow2(squaresBefore + 1)
      invariant Shl(power, squaresAfter) == window
      invariant power == 0 <==> window == 0
      invariant window == 0 ==> squaresAfter == 0
    {
      ShlShl(power / 2, 1, squaresAfter);
      power := power / 2;
      squaresBefore, squaresAfter := squaresBefore - 1, squaresAfter + 1;
    }
  }

  /** powerTable[k] stands for the odd multiple (2k + 1) * base. */
  ghost predicate OddMultiples<T>(g: Group<T>, table: seq<T>, base: T) {
    forall k :: 0 <= k < |table| ==> g.equal(table[k], Times(g, 2 * k + 1, base))
  }

  method OddMultipleTable<T(0, !new)>(g: Group<T>, base: T, size: nat) returns (powerTable: array<T>)
    requires Lawful(g) && size >= 1
    ensures fresh(powerTable) && powerTable.Length == size && OddMultiples(g, powerTable[..], base)
  {
    hide Times, Lawful;
    powerTable := new T[size];
    powerTable[0] := base;
    TimesOne(g, base);
    if size > 1 {
      var temp := g.double(base);
      DoubleMultiple(g, base, 1, base);
      for i := 1 to size
        invariant OddMultiples(g, powerTable[..i], base)
      {
        var next := g.add(temp, powerTable[i - 1]);
        assert powerTable[..i][i - 1] == powerTable[i - 1];
        AddMultiples(g, temp, 2, powerTable[i - 1], 2 * (i - 1) + 1, base);
        assert g.equal(next, Times(g, 2 * i + 1, base));
        powerTable[i] := next;
        assert powerTable[..i + 1] == powerTable[..i] + [next];
      }
    }
  }

  /** One window: squarings, one addition from the table, squarings.  result0 stands for the
      prefix of the exponent read so far, result for that prefix with the window appended. */
  method FlushWindow<T(!new)>(g: Group<T>, powerTable: array<T>, window: nat, squares: nat, firstTime: bool,
                              result0: T, ghost prefix: nat, ghost base: T) returns (result: T)
    requires Lawful(g) && OddMultiples(g, powerTable[..], base)
    requires window < 2 * powerTable.Length && window < Pow2(squares + 1)
    requires if firstTime then window != 0 && prefix == 0 else g.equal(result0, Times(g, prefix, base))
    ensures g.equal(result, Times(g, Shl(prefix, squares) + window, base))
  {
    hide Times, Shl, Lawful;
    var power, squaresBefore, squaresAfter := StripTwos(window, squares);
    ghost var head := Shl(prefix, squaresBefore);
    ShlAdd(head, power, squaresAfter);
    ShlShl(prefix, squaresBefore, squaresAfter);
    if firstTime {
      TableEntry(g, powerTable[..], power, base);
      result := powerTable[(power - 1) / 2];
    } else {
      result := Doublings(g, result0, squaresBefore, prefix, base);
      if power != 0 {
        TableEntry(g, powerTable[..], power, base);
        AddMultiples(g, powerTable[(power - 1) / 2], power, result, head, base);
        result := g.add(powerTable[(power - 1) / 2], result);
      }
    }
    result := Doublings(g, result, squaresAfter, head + power, base);
  }

  lemma TableEntry<T(!new)>(g: Group<T>, table: seq<T>, power: nat, base: T)
    requires OddMultiples(g, table, base) && power % 2 == 1 && power < 2 * |table|
    ensures (power - 1) / 2 < |table| && g.equal(table[(power - 1) / 2], Times(g, power, base))
  {
    var k := (power - 1) / 2;
    assert 2 * k + 1 == power && g.equal(table[k], Times(g, 2 * k + 1, base));
  }

  method IntMultiply<T(0, !new)>(g: Group<T>, base: T, exponent: nat) returns (result: T)
    requires Lawful(g)
    ensures g.equal(result, Times(g, exponent, base))
  {
    hide Times, Lawful, Shl, Shr, Pending;
    var expLen := BitCount(exponent);
    if expLen == 0 {
      ZeroMultiple(g, base);
      return g.zero;
    }
    var powerTableSize := WindowTableSize(expLen);
    var powerTable := OddMultipleTable(g, base, powerTableSize);

    StartWindow(exponent, expLen);
    var power: nat, prevPosition: nat, firstTime := 0, expLen - 1, true;
    ghost var prefix: nat := 0;  // the leading bits of the exponent that result stands for
    result := base;  // a default-constructed Element in the source; overwritten by the first window
    for i := expLen downto 0
      invariant OddMultiples(g, powerTable[..], base)
      invariant Scanning(i, prevPosition, firstTime, expLen) && power < powerTableSize
      invariant Pending(exponent, i, prevPosition, power, firstTime, prefix)
      invariant !firstTime ==> g.equal(result, Times(g, prefix, base))
    {
      NextBit(exponent, i, prevPosition, power, firstTime, prefix);
      power := 2 * power + GetBit(exponent, i);
      if i == 0 || power >= powerTableSize {
        if firstTime { FirstWindowNonZero(exponent, i); }
        result := FlushWindow(g, powerTable, power, prevPosition - i, firstTime, result, prefix, base);
        prevPosition, prefix, firstTime, power := i, Shr(exponent, i), false, 0;
      }
    }
    EndWindow(exponent, prevPosition, power, prefix);
  }
}
