/** The typed records of src/core/archive.cpp:83-187 on a memory archive: integers most significant byte first
    whatever the host, and strings as a 16-bit length and 16-bit characters. */
module TypedArchive {
  import opened Bytes
  import opened ByteOrder
  import opened CodeConvert
  import opened MemoryArchive
  import opened StringUtil

  const TSS_INT16_MAX: nat := 32767

  /** A value, or how the operation failed.  Eof, TooLong and BadChar are exceptions.  BadSize is a negative length,
      which fails the assertion of Resize; without assertions the source would allocate no characters for -1 and then
      copy past them, which has no defined outcome, and ask for a negative allocation below that. */
  datatype Outcome<T> = Good(value: T) | Eof | TooLong | BadSize | BadChar

  predicate InRange(w: Width, i: int) { 0 <= 2 * i + Limit(w) < 2 * Limit(w) }

  /** Two's complement */
  function Pattern(w: Width, i: int): (u: nat)
    requires InRange(w, i)
    ensures u < Limit(w)
  {
    if i < 0 then i + Limit(w) else i
  }

  function Signed(w: Width, u: nat): (i: int)
    requires u < Limit(w)
    ensures InRange(w, i)
  {
    if 2 * u >= Limit(w) then u - Limit(w) else u
  }

  ghost function WireInt(w: Width, i: int): (s: seq<byte>)
    requires InRange(w, i)
    ensures |s| == Size(w)
  {
    Reverse(Memory(Pattern(w, i), Size(w)))
  }

  ghost function IntOf(w: Width, s: seq<byte>): (i: int)
    requires |s| == Size(w)
    ensures InRange(w, i)
  {
    Unwire(LittleEndian, w, s);
    Signed(w, Value(Reverse(s)))
  }

  /** Integers and their wire form determine each other. */
  lemma IntRoundTrip(w: Width, i: int)
    requires InRange(w, i)
    ensures IntOf(w, WireInt(w, i)) == i
  {
    Limits(w);
    ReverseTwice(Memory(Pattern(w, i), Size(w)));
    ValueOfMemory(Pattern(w, i), Size(w));
  }

  lemma WireRoundTrip(w: Width, s: seq<byte>)
    requires |s| == Size(w)
    ensures WireInt(w, IntOf(w, s)) == s
  {
    Unwire(LittleEndian, w, s);
  }

  method WriteInt(ar: MemoryArchive, host: Host, w: Width, i: int)
    requires ar.Ready() && InRange(w, i) && ar.mReadHead + Size(w) <= LARGEST
    modifies ar, ar.mpMemory
    ensures ar.Ready() && ar.Value() == Written(old(ar.Value()), WireInt(w, i))
    ensures ar.mpMemory == old(ar.mpMemory) || fresh(ar.mpMemory)
  {
    Wire(host, w, Pattern(w, i));
    ar.Write(HostBytes(host, Hton(host, w, Pattern(w, i)), Size(w)));
  }

  /** What reading an integer gives and where it leaves the archive: a short read takes what there is. */
  ghost function TakeInt(s: State, w: Width): (Outcome<int>, State)
    requires Inside(s)
  {
    if s.pos + Size(w) <= |s.bytes| then
      (Good(IntOf(w, s.bytes[s.pos..s.pos + Size(w)])), s.(pos := s.pos + Size(w)))
    else
      (Eof, s.(pos := |s.bytes|))
  }

  method ReadInt(ar: MemoryArchive, host: Host, w: Width) returns (r: Outcome<int>)
    requires ar.Ready()
    modifies ar`mReadHead
    ensures ar.Ready() && (r, ar.Value()) == TakeInt(old(ar.Value()), w)
  {
    var data := ar.Read(Size(w));
    if |data| != Size(w) { return Eof; }
    Unwire(host, w, data);
    r := Good(Signed(w, Hton(host, w, HostValue(host, data))));
  }

  /** The bytes of an integer: the digits of its two's complement to base 256, most significant first */
  lemma WireBytes(w: Width, i: int, k: nat)
    requires InRange(w, i) && k < Size(w)
    ensures WireInt(w, i)[k] == i % Power(Size(w)) / Power(Size(w) - 1 - k) % 0x100
  {
    Limits(w);
    var u := Pattern(w, i);
    assert u == i % Limit(w);
    ReverseAt(Memory(u, Size(w)), k);
    MemoryAt(u, Size(w), Size(w) - 1 - k);
  }

  // ---- strings ----

  ghost function WireChar(c: wchar): (s: seq<byte>)
    ensures |s| == 2
  {
    Reverse(Memory(c, 2))
  }

  ghost function CharOf(s: seq<byte>): wchar
    requires |s| == 2
  {
    Unwire(LittleEndian, Int16, s);
    Value(Reverse(s))
  }

  /** Characters are written and read as signed integers of the same pattern. */
  lemma CharAsInt(c: wchar, s: seq<byte>)
    requires |s| == 2
    ensures WireInt(Int16, Signed(Int16, c)) == WireChar(c) && Pattern(Int16, IntOf(Int16, s)) == CharOf(s)
    ensures CharOf(WireChar(c)) == c
  {
    Limits(Int16);
    Unwire(LittleEndian, Int16, s);
    ReverseTwice(Memory(c, 2));
    ValueOfMemory(c, 2);
  }

  ghost function WireChars(ws: seq<wchar>): (s: seq<byte>)
    ensures |s| == 2 * |ws|
  {
    if ws == [] then [] else WireChars(ws[..|ws| - 1]) + WireChar(ws[|ws| - 1])
  }

  ghost function CharsOf(s: seq<byte>): (ws: seq<wchar>)
    requires |s| % 2 == 0
    ensures |s| == 2 * |ws|
  {
    if s == [] then [] else CharsOf(s[..|s| - 2]) + [CharOf(s[|s| - 2..])]
  }

  lemma {:induction false} CharsRoundTrip(ws: seq<wchar>)
    ensures CharsOf(WireChars(ws)) == ws
  {
    hide WireChar, CharOf;
    if ws != [] {
      var n := |ws| - 1;
      CharsRoundTrip(ws[..n]);
      CharAsInt(ws[n], WireChar(ws[n]));
      assert WireChars(ws)[..2 * n] == WireChars(ws[..n]) && WireChars(ws)[2 * n..] == WireChar(ws[n]);
    }
  }

  ghost function WireString(s: seq<byte>): (r: seq<byte>)
    requires |Widened(s)| <= TSS_INT16_MAX
    ensures |r| == 2 + 2 * |Widened(s)|
  {
    WireInt(Int16, |Widened(s)|) + WireChars(Widened(s))
  }

  lemma {:induction false} WireCharAt(ws: seq<wchar>, k: nat)
    requires k < |ws|
    ensures WireChars(ws)[2 * k..2 * k + 2] == [ws[k] / 0x100, ws[k] % 0x100]
  {
    var n := |ws| - 1;
    if k < n {
      WireCharAt(ws[..n], k);
      assert WireChars(ws)[2 * k..2 * k + 2] == WireChars(ws[..n])[2 * k..2 * k + 2];
    } else {
      TwoBytes(ws[n]);
      assert WireChars(ws)[2 * k..2 * k + 2] == WireChar(ws[n]);
    }
  }

  lemma TwoBytes(c: wchar)
    ensures WireChar(c) == [c / 0x100, c % 0x100]
  {
    var hi: nat := c / 0x100;
    assert Memory(hi, 1) == [hi % 0x100] + Memory(hi / 0x100, 0);
    assert Memory(c, 2) == [c % 0x100] + Memory(hi, 1) == [c % 0x100, hi];
    var s := Memory(c, 2);
    ReverseAt(s, 0);
    ReverseAt(s, 1);
  }

  /** The bytes of a string: the number of its characters, and the characters, each high byte first */
  lemma StringBytes(s: seq<byte>)
    requires |Widened(s)| <= 32767
    ensures var ws := Widened(s);
            && WireString(s)[..2] == [|ws| / 0x100, |ws| % 0x100]
            && forall k :: 0 <= k < |ws| ==> WireString(s)[2 + 2 * k..4 + 2 * k] == [ws[k] / 0x100, ws[k] % 0x100]
  {
    hide Widened, WireInt, WireChar, WireChars;
    var ws := Widened(s);
    var n: wchar := |ws|;
    assert WireInt(Int16, |ws|) == WireChar(n) by { CharAsInt(n, WireChar(n)); }
    TwoBytes(n);
    forall k | 0 <= k < |ws| ensures WireString(s)[2 + 2 * k..4 + 2 * k] == [ws[k] / 0x100, ws[k] % 0x100] {
      WireCharAt(ws, k);
      assert WireString(s)[2 + 2 * k..4 + 2 * k] == WireChars(ws)[2 * k..2 * k + 2];
    }
  }

  /** GetStorageSize counts a four-byte length. */
  function GetStorageSize(s: seq<byte>): nat { 4 + 2 * |s| }

  /** So it is never the number of bytes written: two more, and two more again for each byte from the first NUL on. */
  lemma StorageSizeTooLarge(s: seq<byte>)
    requires |Widened(s)| <= TSS_INT16_MAX
    ensures GetStorageSize(s) == |WireString(s)| + 2 + 2 * (|s| - |CString(s, 0)|)
    ensures GetStorageSize(s) == |WireString(s)| + 2 <==> 0 !in s
  {
    CStringWhole(s, 0);
  }

  method WriteString(ar: MemoryArchive, host: Host, s: seq<byte>) returns (r: Outcome<()>)
    requires ar.Ready() && ar.mReadHead + 2 + 2 * |s| <= LARGEST
    modifies ar, ar.mpMemory
    ensures ar.Ready() && (ar.mpMemory == old(ar.mpMemory) || fresh(ar.mpMemory))
    ensures r == if |Widened(s)| <= 32767 then Good(()) else TooLong
    ensures ar.Value() == if r.Good? then Written(old(ar.Value()), WireString(s)) else old(ar.Value())
  {
    var ws := StringUtil.ToWide(s);
    if |ws| > TSS_INT16_MAX { return TooLong; }
    WriteInt(ar, host, Int16, |ws|);
    WriteChars(ar, host, ws);
    WrittenTwice(old(ar.Value()), WireInt(Int16, |ws|), WireChars(ws));
    return Good(());
  }

  method WriteChars(ar: MemoryArchive, host: Host, ws: seq<wchar>)
    requires ar.Ready() && ar.mReadHead + 2 * |ws| <= LARGEST
    modifies ar, ar.mpMemory
    ensures ar.Ready() && (ar.mpMemory == old(ar.mpMemory) || fresh(ar.mpMemory))
    ensures ar.Value() == Written(old(ar.Value()), WireChars(ws))
  {
    hide Written, WireChar, WireInt, Signed;
    ghost var s := ar.Value();
    WrittenNothing(s);
    for at := 0 to |ws|
      invariant ar.Ready() && (ar.mpMemory == old(ar.mpMemory) || fresh(ar.mpMemory))
      invariant ar.Value() == Written(s, WireChars(ws[..at]))
    {
      // the unsigned character passed as int16
      WriteInt(ar, host, Int16, Signed(Int16, ws[at]));
      CharAsInt(ws[at], WireChar(ws[at]));
      assert ws[..at + 1][..at] == ws[..at];
      WrittenTwice(s, WireChars(ws[..at]), WireChar(ws[at]));
    }
    assert ws[..|ws|] == ws;
  }

  ghost function TakeChars(s: State, n: nat): (r: (Outcome<seq<wchar>>, State))
    requires Inside(s)
    ensures Inside(r.1)
  {
    if s.pos + 2 * n <= |s.bytes| then
      (Good(CharsOf(s.bytes[s.pos..s.pos + 2 * n])), s.(pos := s.pos + 2 * n))
    else
      (Eof, s.(pos := |s.bytes|))
  }

  method ReadChars(ar: MemoryArchive, host: Host, size: nat) returns (r: Outcome<seq<wchar>>)
    requires ar.Ready()
    modifies ar`mReadHead
    ensures ar.Ready() && (r, ar.Value()) == TakeChars(old(ar.Value()), size)
  {
    hide CharsOf, IntOf, Pattern;
    ghost var s := ar.Value();
    var ws: seq<wchar> := [];
    NoChars();
    assert s.bytes[s.pos..s.pos] == [];
    for n := 0 to size
      invariant ar.Ready() && (Good(ws), ar.Value()) == TakeChars(s, n)
    {
      if s.pos + 2 * n + 2 <= |s.bytes| { OneMoreChar(s, n); }
      var i16 := ReadInt(ar, host, Int16);
      if i16.Eof? { return Eof; }
      ws := ws + [Pattern(Int16, i16.value)];
    }
    return Good(ws);
  }

  lemma NoChars()
    ensures CharsOf([]) == []
  {}

  lemma OneMoreChar(s: State, n: nat)
    requires Inside(s) && s.pos + 2 * n + 2 <= |s.bytes|
    ensures var last := s.bytes[s.pos + 2 * n..s.pos + 2 * n + 2];
            CharsOf(s.bytes[s.pos..s.pos + 2 * n + 2]) == CharsOf(s.bytes[s.pos..s.pos + 2 * n]) +
            [Pattern(Int16, IntOf(Int16, last))]
  {
    hide CharOf, IntOf, Pattern;
    var t := s.bytes[s.pos..s.pos + 2 * n + 2];
    var last := s.bytes[s.pos + 2 * n..s.pos + 2 * n + 2];
    CharAsInt(0, last);
    assert t[..2 * n] == s.bytes[s.pos..s.pos + 2 * n] && t[2 * n..] == last;
  }

  ghost function TakeString(s: State): (Outcome<seq<byte>>, State)
    requires Inside(s)
  {
    var (size, s1) := TakeInt(s, Int16);
    if size.Eof? then (Eof, s1)
    else if size.value < 0 then (BadSize, s1)
    else
      var (ws, s2) := TakeChars(s1, size.value);
      if ws.Eof? then (Eof, s2)
      else
        var t := Narrowed(ws.value);
        (if t.Fatal? then BadChar else Good(t.value), s2)
  }

  /** A length with its top bit set is the negative one that fails, and nothing else is. */
  lemma NegativeLength(s: State)
    requires Inside(s) && s.pos + 2 <= |s.bytes|
    ensures TakeString(s).0 == BadSize <==> s.bytes[s.pos] >= 0x80
  {
    hide CharsOf, Narrowed;
    var b := s.bytes[s.pos..s.pos + 2];
    var r := Reverse(b);
    ReverseAt(b, 0);
    ReverseAt(b, 1);
    Value2(r);
    assert IntOf(Int16, b) < 0 <==> 2 * Value(r) >= 0x1_0000 by { Unwire(LittleEndian, Int16, b); }
  }

  method ReadString(ar: MemoryArchive, host: Host, su: StringUtil) returns (r: Outcome<seq<byte>>)
    requires ar.Ready() && su.Valid()
    modifies ar`mReadHead, su.table, su.table.mTable, su.table.nodes
    ensures ar.Ready() && (r, ar.Value()) == TakeString(old(ar.Value()))
    ensures su.Valid() && su.table.mTable == old(su.table.mTable)
    ensures forall n :: n in su.table.nodes ==> n in old(su.table.nodes) || fresh(n)
  {
    hide IntOf, CharsOf, Narrowed;
    var size := ReadInt(ar, host, Int16);
    if size.Eof? { return Eof; }
    if size.value < 0 { return BadSize; }
    var ws := ReadChars(ar, host, size.value);
    if ws.Eof? { return Eof; }
    var ret := su.ToNarrow(ws.value);
    return if ret.Fatal? then BadChar else Good(ret.value);
  }

  // ---- sequences of records ----

  datatype Item = IntItem(w: Width, i: int) | StrItem(s: seq<byte>) | BlobItem(data: seq<byte>)
  datatype Kind = IntKind(w: Width) | StrKind | BlobKind(count: nat)

  ghost predicate Writable(item: Item) {
    match item
    case IntItem(w, i) => InRange(w, i)
    case StrItem(s) => |Widened(s)| <= TSS_INT16_MAX
    case BlobItem(_) => true
  }

  function KindOf(item: Item): Kind {
    match item case IntItem(w, _) => IntKind(w) case StrItem(_) => StrKind case BlobItem(data) => BlobKind(|data|)
  }

  ghost function WireItem(item: Item): (wire: seq<byte>)
    requires Writable(item)
    ensures |wire| <= MaxSize(item)
  {
    match item case IntItem(w, i) => WireInt(w, i) case StrItem(s) => WireString(s) case BlobItem(data) => data
  }

  /** What comes back: a string is cut at its first NUL. */
  ghost function Kept(item: Item): (r: Item)
    ensures r == item <==> (item.StrItem? ==> 0 !in item.s)
  {
    match item
    case StrItem(s) => CStringWhole(s, 0); StrItem(CString(s, 0))
    case _ => item
  }

  ghost function TakeItem(s: State, kind: Kind): (Outcome<Item>, State)
    requires Inside(s)
  {
    match kind
    case IntKind(w) => var (r, t) := TakeInt(s, w); (if r.Good? then Good(IntItem(w, r.value)) else Eof, t)
    case StrKind => var (r, t) := TakeString(s); (Renamed(r), t)
    case BlobKind(count) =>
      var n := Available(s, count);
      (Good(BlobItem(s.bytes[s.pos..s.pos + n])), s.(pos := s.pos + n))
  }

  function Renamed(r: Outcome<seq<byte>>): Outcome<Item> {
    match r
    case Good(s) => Good(StrItem(s))
    case Eof => Eof
    case TooLong => TooLong
    case BadSize => BadSize
    case BadChar => BadChar
  }

  ghost predicate Starts(s: State, wire: seq<byte>) {
    Inside(s) && s.pos + |wire| <= |s.bytes| && s.bytes[s.pos..s.pos + |wire|] == wire
  }

  lemma TakeWireString(s: State, text: seq<byte>)
    requires |Widened(text)| <= TSS_INT16_MAX && Starts(s, WireString(text))
    ensures TakeString(s) == (Good(CString(text, 0)), s.(pos := s.pos + |WireString(text)|))
  {
    hide IntOf, WireInt, CharsOf, WireChars, Widened, Narrowed;
    var ws := Widened(text);
    var wire := WireString(text);
    assert wire[..2] == WireInt(Int16, |ws|) && wire[2..] == WireChars(ws);
    Slices(s.bytes, s.pos, s.pos + 2, s.pos + |wire|);
    IntRoundTrip(Int16, |ws|);
    CharsRoundTrip(ws);
    NarrowWide(text);
  }

  /** A record that is cut short is the end of the archive, or a shorter blob. */
  lemma TakeCutShort(s: State, item: Item, m: nat)
    requires Writable(item) && Inside(s) && m < |WireItem(item)| && s.bytes[s.pos..] == WireItem(item)[..m]
    ensures match item
            case BlobItem(data) => TakeItem(s, KindOf(item)).0 == Good(BlobItem(data[..m]))
            case _ => TakeItem(s, KindOf(item)).0 == Eof
  {
    hide IntOf, WireInt, CharsOf, WireChars, Widened, Narrowed;
    assert |s.bytes| == s.pos + m by { assert |s.bytes[s.pos..]| == m; }
    match item {
      case IntItem(_, _) =>
      case BlobItem(data) => assert s.bytes[s.pos..s.pos + m] == s.bytes[s.pos..];
      case StrItem(text) =>
        if m >= 2 {
          var n := |Widened(text)|;
          assert s.bytes[s.pos..s.pos + 2] == s.bytes[s.pos..][..2] == WireString(text)[..2] == WireInt(Int16, n);
          IntRoundTrip(Int16, n);
        }
    }
  }

  /** A reader that asks for the kind of record that was written gets the record back, wherever it stands. */
  lemma TakeWire(s: State, item: Item)
    requires Writable(item) && Starts(s, WireItem(item))
    ensures TakeItem(s, KindOf(item)) == (Good(Kept(item)), s.(pos := s.pos + |WireItem(item)|))
  {
    hide IntOf, WireInt, CString, TakeString, WireString, Widened;
    match item {
      case IntItem(w, i) => IntRoundTrip(w, i);
      case StrItem(text) => TakeWireString(s, text);
      case BlobItem(_) =>
    }
  }

  method WriteItem(ar: MemoryArchive, host: Host, item: Item) returns (r: Outcome<()>)
    requires ar.Ready() && (item.IntItem? ==> InRange(item.w, item.i)) && ar.mReadHead + MaxSize(item) <= LARGEST
    modifies ar, ar.mpMemory
    ensures ar.Ready() && (ar.mpMemory == old(ar.mpMemory) || fresh(ar.mpMemory))
    ensures r == if Writable(item) then Good(()) else TooLong
    ensures ar.Value() == if r.Good? then Written(old(ar.Value()), WireItem(item)) else old(ar.Value())
  {
    hide Written, WireInt, WireString, Widened;
    r := Good(());
    match item {
      case IntItem(w, i) => WriteInt(ar, host, w, i);
      case StrItem(s) => r := WriteString(ar, host, s);
      case BlobItem(data) => ar.Write(data);
    }
  }

  function MaxSize(item: Item): nat {
    match item case IntItem(w, _) => Size(w) case StrItem(s) => 2 + 2 * |s| case BlobItem(data) => |data|
  }

  method ReadItem(ar: MemoryArchive, host: Host, su: StringUtil, kind: Kind) returns (r: Outcome<Item>)
    requires ar.Ready() && su.Valid() && (kind.BlobKind? ==> ar.mReadHead + kind.count < INT_LIMIT)
    modifies ar`mReadHead, su.table, su.table.mTable, su.table.nodes
    ensures ar.Ready() && (r, ar.Value()) == TakeItem(old(ar.Value()), kind)
    ensures su.Valid() && su.table.mTable == old(su.table.mTable)
    ensures forall n :: n in su.table.nodes ==> n in old(su.table.nodes) || fresh(n)
  {
    hide IntOf, TakeString;
    match kind {
      case IntKind(w) =>
        var i := ReadInt(ar, host, w);
        r := if i.Good? then Good(IntItem(w, i.value)) else Eof;
      case StrKind =>
        var s := ReadString(ar, host, su);
        r := Renamed(s);
      case BlobKind(count) =>
        var data := ar.Read(count);
        r := Good(BlobItem(data));
    }
  }

  ghost function WireAll(items: seq<Item>): seq<byte>
    requires forall item :: item in items ==> Writable(item)
  {
    if items == [] then [] else WireItem(items[0]) + WireAll(items[1..])
  }

  function MaxTotal(items: seq<Item>): nat { if items == [] then 0 else MaxSize(items[0]) + MaxTotal(items[1..]) }

  method WriteAll(ar: MemoryArchive, host: Host, items: seq<Item>)
    requires ar.Ready() && (forall item :: item in items ==> Writable(item)) &&
             ar.mReadHead + MaxTotal(items) <= LARGEST
    modifies ar, ar.mpMemory
    ensures ar.Ready() && (ar.mpMemory == old(ar.mpMemory) || fresh(ar.mpMemory))
    ensures ar.Value() == Written(old(ar.Value()), WireAll(items))
    decreases |items|
  {
    hide Written, WireItem;
    ghost var s := ar.Value();
    if |items| == 0 {
      WrittenNothing(s);
    } else {
      assert items[0] in items && Writable(items[0]);
      var _ := WriteItem(ar, host, items[0]);
      WriteAll(ar, host, items[1..]);
      WrittenTwice(s, WireItem(items[0]), WireAll(items[1..]));
    }
  }

  method ReadAll(ar: MemoryArchive, host: Host, su: StringUtil, kinds: seq<Kind>, ghost items: seq<Item>)
    returns (back: seq<Item>)
    requires ar.Ready() && su.Valid() && |kinds| == |items|
    requires forall i :: 0 <= i < |items| ==> Writable(items[i]) && kinds[i] == KindOf(items[i])
    requires Starts(ar.Value(), WireAll(items))
    modifies ar`mReadHead, su.table, su.table.mTable, su.table.nodes
    ensures ar.Ready() && |back| == |items| && forall i :: 0 <= i < |items| ==> back[i] == Kept(items[i])
    decreases |kinds|
  {
    hide Written, WireItem, TakeItem, Kept, KindOf;
    if |kinds| == 0 { return []; }
    ghost var s := ar.Value();
    SplitWire(s, WireItem(items[0]), WireAll(items[1..]));
    TakeWire(s, items[0]);
    BlobFits(items[0]);
    var first := ReadItem(ar, host, su, kinds[0]);
    var rest := ReadAll(ar, host, su, kinds[1..], items[1..]);
    back := [first.value] + rest;
  }

  lemma BlobFits(item: Item)
    requires Writable(item)
    ensures KindOf(item).BlobKind? ==> KindOf(item).count == |WireItem(item)|
  {}

  lemma SplitWire(s: State, a: seq<byte>, b: seq<byte>)
    requires Starts(s, a + b)
    ensures Starts(s, a) && Starts(s.(pos := s.pos + |a|), b)
  {
    assert (a + b)[..|a|] == a && (a + b)[|a|..] == b;
    Slices(s.bytes, s.pos, s.pos + |a|, s.pos + |a + b|);
  }

  lemma Slices(s: seq<byte>, i: nat, j: nat, k: nat)
    requires i <= j <= k <= |s|
    ensures s[i..j] == s[i..k][..j - i] && s[j..k] == s[i..k][j - i..]
  {}

  /** Any records written on one host and read back on another, after a seek to the start. */
  method RoundTrip(writer: Host, reader: Host, items: seq<Item>) returns (back: seq<Item>)
    requires (forall item :: item in items ==> Writable(item)) && MaxTotal(items) <= LARGEST
    ensures |back| == |items| && forall i :: 0 <= i < |items| ==> back[i] == Kept(items[i])
    ensures back == items <==> forall i :: 0 <= i < |items| && items[i].StrItem? ==> 0 !in items[i].s
  {
    hide Writable, Kept, KindOf, WireAll, Written;
    var ar := new MemoryArchive();
    WriteAll(ar, writer, items);
    WrittenFirst(WireAll(items));
    var _ := ar.Seek(0, Beginning);
    var su := new StringUtil();
    var kinds := seq(|items|, i requires 0 <= i < |items| => KindOf(items[i]));
    back := ReadAll(ar, reader, su, kinds, items);
  }

  lemma WrittenFirst(data: seq<byte>)
    ensures Written(State([], 0), data) == State(data, |data|)
    ensures Starts(State(data, 0), data)
  {}
}
