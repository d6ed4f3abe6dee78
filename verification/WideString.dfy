/** The copy-on-write string of src/core/wchar16.cpp:63-127, 188-330: handles share a counted buffer
    until one of them is written through. */
module WideString {
  import opened Bytes
  import ByteOrder

  function Swapped(s: seq<wchar>): seq<wchar> { seq(|s|, i requires 0 <= i < |s| => ByteOrder.SwapBytes16(s[i])) }

  /** Each character has its two bytes exchanged. */
  ghost predicate Exchanged(s: seq<wchar>, t: seq<wchar>) {
    |t| == |s| && forall i :: 0 <= i < |s| ==> t[i] == s[i] % 0x100 * 0x100 + s[i] / 0x100
  }

  lemma SwappedAt(s: seq<wchar>)
    ensures Exchanged(s, Swapped(s))
    ensures forall i :: 0 <= i < |s| ==>
                          ByteOrder.Memory(Swapped(s)[i], 2) == [s[i] / 0x100, s[i] % 0x100]
  {
    forall i | 0 <= i < |s| ensures ByteOrder.Memory(Swapped(s)[i], 2) == [s[i] / 0x100, s[i] % 0x100] {
      var hi: nat, lo: nat := s[i] / 0x100, s[i] % 0x100;
      assert Swapped(s)[i] == lo * 0x100 + hi;
      TwoDigits(lo * 0x100 + hi, hi, lo);
    }
  }

  lemma TwoDigits(x: nat, low: nat, high: nat)
    requires x == high * 0x100 + low && low < 0x100 && high < 0x100
    ensures ByteOrder.Memory(x, 2) == [low, high]
  {
    assert x / 0x100 == high;
    assert ByteOrder.Memory(x / 0x100, 1) == [high] + ByteOrder.Memory(x / 0x100 / 0x100, 0);
  }

  /** resize: cut, or extend with NUL characters */
  function Resized(s: seq<wchar>, n: nat): (r: seq<wchar>)
    ensures |r| == n && forall i :: 0 <= i < n ==> r[i] == if i < |s| then s[i] else 0
  {
    if n <= |s| then s[..n] else s + seq(n - |s|, _ => 0)
  }

  /** swapbytes undoes itself. */
  lemma SwappedTwice(s: seq<wchar>)
    ensures Swapped(Swapped(s)) == s
  {
    forall i | 0 <= i < |s| ensures Swapped(Swapped(s))[i] == s[i] { ByteOrder.SwapTwice(ByteOrder.Int16, s[i]); }
  }

  class Impl {
    var length: nat
    var pString: array<wchar>
    var refCount: int
    var deleted: bool

    ghost predicate Valid()
      reads this
    {
      !deleted && pString.Length == length + 1
    }

    ghost function Text(): seq<wchar>
      requires Valid()
      reads this, pString
    {
      pString[..length]
    }

    constructor ()
      ensures Valid() && fresh(pString) && Text() == [] && refCount == 1
    {
      length, pString, refCount, deleted := 0, new wchar[1](_ => 0), 1, false;
    }

    /** The copying constructor */
    constructor Copy(rhs: Impl)
      requires rhs.Valid()
      ensures Valid() && fresh(pString) && Text() == rhs.Text() && refCount == 1
    {
      var n := rhs.length;
      var chars := new wchar[n + 1](_ => 0);
      forall i | 0 <= i < n { chars[i] := rhs.pString[i]; }
      length, pString, refCount, deleted := n, chars, 1, false;
    }

    method AddRef()
      requires !deleted
      modifies this`refCount
      ensures refCount == old(refCount) + 1
    {
      refCount := refCount + 1;
    }

    /** At zero the object deletes itself. */
    method Release()
      requires !deleted && refCount > 0
      modifies this`refCount, this`deleted
      ensures refCount == old(refCount) - 1 && (deleted <==> refCount == 0)
    {
      refCount := refCount - 1;
      if refCount == 0 { deleted := true; }
    }

    method Store(chars: seq<wchar>)
      requires Valid() && |chars| == length
      modifies pString
      ensures Text() == chars
    {
      forall i | 0 <= i < |chars| { pString[i] := chars[i]; }
    }

    method SwapAll()
      requires Valid()
      modifies pString
      ensures Text() == Swapped(old(Text())) && Exchanged(old(Text()), Text())
    {
      SwappedAt(Text());
      for i := 0 to length
        invariant forall j :: 0 <= j < i ==> pString[j] == ByteOrder.SwapBytes16(old(pString[j]))
        invariant forall j :: i <= j < length ==> pString[j] == old(pString[j])
      {
        pString[i] := ByteOrder.SwapBytes16(pString[i]);
      }
    }

    method Resize(newlen: nat)
      requires Valid()
      modifies this`length, this`pString
      ensures Valid() && Text() == Resized(old(Text()), newlen) && (pString == old(pString) || fresh(pString))
    {
      if newlen == length { return; }
      var newString := new wchar[newlen + 1](_ => 0);
      var kept := if newlen < length then newlen else length;
      forall i | 0 <= i < kept { newString[i] := pString[i]; }
      pString, length := newString, newlen;
    }
  }

  class Handle {
    var mpData: Impl?

    ghost function Text(): seq<wchar>
      requires mpData != null ==> mpData.Valid()
      reads this, mpData, if mpData == null then {} else {mpData.pString}
    {
      if mpData == null then [] else mpData.Text()
    }

    constructor Raw(d: Impl?)
      ensures mpData == d
    {
      mpData := d;
    }

    /** if (mpData) mpData->Release(); */
    method ReleaseData()
      requires mpData != null ==> !mpData.deleted && mpData.refCount > 0
      modifies mpData
      ensures mpData != null ==>
                mpData.refCount == old(mpData.refCount) - 1 && (mpData.deleted <==> mpData.refCount == 0)
                && mpData.length == old(mpData.length) && mpData.pString == old(mpData.pString)
    {
      if mpData != null { mpData.Release(); }
    }

    /** if (mpData) mpData->AddRef(); */
    method CountData()
      requires mpData != null ==> !mpData.deleted
      modifies mpData
      ensures mpData != null ==>
                mpData.refCount == old(mpData.refCount) + 1 && !mpData.deleted
                && mpData.length == old(mpData.length) && mpData.pString == old(mpData.pString)
    {
      if mpData != null { mpData.AddRef(); }
    }
  }

  /** Which buffer each live handle is on. */
  ghost function Owners(H: set<Handle>): map<Handle, Impl?>
    reads H
  {
    map h | h in H :: h.mpData
  }

  ghost function Sharers(m: map<Handle, Impl?>, d: Impl?): set<Handle> {
    set h | h in m && m[h] == d
  }

  ghost function Impls(H: set<Handle>): set<Impl>
    reads H
  {
    set h | h in H && h.mpData != null :: h.mpData
  }

  /** Every buffer in use is alive, counts exactly the live handles on it, and has characters of its own. */
  ghost predicate World(H: set<Handle>)
    reads H, Impls(H)
  {
    var m := Owners(H);
    && (forall h :: h in H && h.mpData != null ==> h.mpData.Valid() && h.mpData.refCount == |Sharers(m, h.mpData)|)
    && SeparateBuffers(H)
  }

  ghost predicate SeparateBuffers(H: set<Handle>)
    reads H, Impls(H)
  {
    forall h, h' :: h in H && h' in H && h.mpData != null && h'.mpData != null && h.mpData != h'.mpData ==>
      h.mpData.pString != h'.mpData.pString
  }

  ghost function Buffers(H: set<Handle>): set<array<wchar>>
    reads H, Impls(H)
  {
    set d | d in Impls(H) :: d.pString
  }

  /** Handle x is on memory that the live handles used before, or on new memory. */
  twostate predicate InFootprint(H: set<Handle>, new x: Handle)
    reads x, x.mpData
  {
    x.mpData != null ==>
      (x.mpData in old(Impls(H)) || fresh(x.mpData)) && (x.mpData.pString in old(Buffers(H)) || fresh(x.mpData.pString))
  }

  /** Repointing one handle moves it from the sharers of its old buffer to those of its new one. */
  lemma Repoint(m: map<Handle, Impl?>, h: Handle, e: Impl?, d: Impl?)
    requires h in m
    ensures |Sharers(m[h := e], d)| == |Sharers(m, d)| +
            (if d == e && m[h] != d then 1 else 0) - (if d != e && m[h] == d then 1 else 0)
  {
    assert Sharers(m[h := e], d) == if d == e then Sharers(m, d) + {h} else Sharers(m, d) - {h};
  }

  lemma Join(m: map<Handle, Impl?>, h: Handle, e: Impl?, d: Impl?)
    requires h !in m
    ensures |Sharers(m[h := e], d)| == |Sharers(m, d)| + if d == e then 1 else 0
  {
    assert Sharers(m[h := e], d) == if d == e then Sharers(m, d) + {h} else Sharers(m, d);
  }

  lemma Leave(m: map<Handle, Impl?>, h: Handle, d: Impl?)
    requires h in m
    ensures |Sharers(m - {h}, d)| == |Sharers(m, d)| - if m[h] == d then 1 else 0
  {
    assert Sharers(m - {h}, d) == Sharers(m, d) - {h};
  }

  lemma Shares(m: map<Handle, Impl?>, h: Handle)
    requires h in m
    ensures |Sharers(m, m[h])| >= 1
    ensures forall h' :: h' in m && h' != h && m[h'] == m[h] ==> |Sharers(m, m[h])| >= 2
  {
    var s := Sharers(m, m[h]);
    assert h in s;
    forall h' | h' in m && h' != h && m[h'] == m[h] ensures |s| >= 2 {
      assert |s - {h}| == |s| - 1 && h' in s - {h};
    }
  }

  lemma Unused(m: map<Handle, Impl?>, d: Impl?)
    ensures |Sharers(m, d)| == 0 <==> forall h :: h in m ==> m[h] != d
  {
    if |Sharers(m, d)| == 0 {
      forall h | h in m ensures m[h] != d {
        if m[h] == d { Shares(m, h); }
      }
    }
    if forall h :: h in m ==> m[h] != d {
      assert forall h :: h in m ==> h !in Sharers(m, d);
    }
  }

  /** wc16_string(): no buffer at all */
  method Empty(ghost H: set<Handle>) returns (h: Handle)
    requires World(H)
    ensures fresh(h) && World(H + {h}) && h.Text() == [] && h.mpData == null
    ensures forall x :: x in H + {h} ==> InFootprint(H, x)
  {
    h := new Handle.Raw(null);
    hide Sharers;
    ghost var m := Owners(H);
    assert Owners(H + {h}) == m[h := null];
    forall x | x in H && x.mpData != null ensures |Sharers(m[h := null], x.mpData)| == |Sharers(m, x.mpData)| {
      Join(m, h, null, x.mpData);
    }
  }

  /** wc16_string(const_iterator): a buffer of its own */
  method FromChars(ghost H: set<Handle>, chars: seq<wchar>) returns (h: Handle)
    requires World(H)
    ensures fresh(h) && World(H + {h}) && h.Text() == chars && h.mpData != null && fresh(h.mpData)
    ensures forall x :: x in H ==> x.Text() == old(x.Text())
    ensures forall x :: x in H + {h} ==> InFootprint(H, x)
  {
    hide World, Sharers, SeparateBuffers;
    var d := NewBuffer(chars);
    h := new Handle.Raw(d);
    StillWorld(H);
    OwnBuffer(H, h);
  }

  method NewBuffer(chars: seq<wchar>) returns (d: Impl)
    ensures fresh(d) && fresh(d.pString) && d.Valid() && d.Text() == chars && d.refCount == 1
  {
    d := new Impl();
    d.Resize(|chars|);
    d.Store(chars);
  }

  twostate lemma StillWorld(H: set<Handle>)
    requires old(World(H)) && forall x :: x in H ==> unchanged(x) && (x.mpData != null ==> unchanged(x.mpData))
    ensures World(H)
  {}

  /** A new handle on a new buffer disturbs nothing. */
  lemma OwnBuffer(H: set<Handle>, h: Handle)
    requires World(H) && h !in H && h.mpData != null && h.mpData.Valid() && h.mpData.refCount == 1
    requires forall x :: x in H && x.mpData != null ==> x.mpData != h.mpData && x.mpData.pString != h.mpData.pString
    ensures World(H + {h})
  {
    hide Sharers;
    var m, d := Owners(H), h.mpData;
    assert Owners(H + {h}) == m[h := d];
    Unused(m, d);
    Join(m, h, d, d);
    forall x | x in H && x.mpData != null ensures |Sharers(m[h := d], x.mpData)| == |Sharers(m, x.mpData)| {
      Join(m, h, d, x.mpData);
    }
  }

  /** wc16_string(const wc16_string&): shares the buffer */
  method Copy(ghost H: set<Handle>, rhs: Handle) returns (h: Handle)
    requires World(H) && rhs in H
    modifies rhs.mpData
    ensures fresh(h) && World(H + {h}) && h.Text() == old(rhs.Text()) && h.mpData == rhs.mpData
    ensures forall x :: x in H ==> x.Text() == old(x.Text())
    ensures forall x :: x in H + {h} ==> InFootprint(H, x)
  {
    ghost var m := Owners(H);
    h := new Handle.Raw(rhs.mpData);
    h.CountData();
    Joined(H, m, h, rhs);
  }

  lemma Joined(H: set<Handle>, m: map<Handle, Impl?>, h: Handle, rhs: Handle)
    requires m == Owners(H) && rhs in H && h !in H && h.mpData == rhs.mpData
    requires forall x :: x in H && x.mpData != null ==>
               x.mpData.Valid() && x.mpData.refCount == |Sharers(m, x.mpData)| + if x.mpData == rhs.mpData then 1 else 0
    requires SeparateBuffers(H)
    ensures World(H + {h})
  {
    hide Sharers;
    assert Owners(H + {h}) == m[h := rhs.mpData];
    forall x | x in H && x.mpData != null ensures x.mpData.refCount == |Sharers(m[h := rhs.mpData], x.mpData)| {
      Join(m, h, rhs.mpData, x.mpData);
    }
  }

  /** ~wc16_string: the last handle takes the buffer with it. */
  method Destroy(ghost H: set<Handle>, h: Handle)
    requires World(H) && h in H
    modifies h.mpData
    ensures World(H - {h}) && forall x :: x in H - {h} ==> x.Text() == old(x.Text())
    ensures h.mpData != null ==> (h.mpData.deleted <==> forall x :: x in H - {h} ==> x.mpData != h.mpData)
    ensures forall x :: x in H - {h} ==> InFootprint(H, x)
  {
    hide Sharers;
    ghost var m := Owners(H);
    Shares(m, h);
    h.ReleaseData();
    assert Owners(H - {h}) == m - {h};
    Leave(m, h, h.mpData);
    Unused(m - {h}, h.mpData);
    assert forall x :: x in H - {h} ==> x in m - {h} && (m - {h})[x] == x.mpData;
    forall x | x in H - {h} && x.mpData != null
      ensures x.mpData.Valid() && x.mpData.refCount == |Sharers(m - {h}, x.mpData)|
    {
      Leave(m, h, x.mpData);
      Shares(m - {h}, x);
    }
  }

  /** One handle has given up its buffer but still points to it. */
  ghost predicate Released(H: set<Handle>, h: Handle)
    requires h in H
    reads H, Impls(H)
  {
    && SeparateBuffers(H)
    && (forall x :: x in H && x != h && x.mpData != null ==> x.mpData.Valid())
    && (forall x :: x in H && x.mpData != null ==>
                      x.mpData.refCount == |Sharers(Owners(H), x.mpData)| - if x.mpData == h.mpData then 1 else 0)
  }

  method LetGo(ghost H: set<Handle>, h: Handle)
    requires World(H) && h in H
    modifies h.mpData
    ensures Released(H, h)
    ensures h.mpData != null ==> (h.mpData.deleted <==> old(h.mpData.refCount) == 1)
    ensures forall x :: x in H && (x.mpData == null || !x.mpData.deleted) ==>
                          (x.mpData != null ==> x.mpData.Valid()) && x.Text() == old(x.Text())
    ensures forall x :: x in H && x.mpData != null ==>
                          x.mpData.length == old(x.mpData.length) && x.mpData.pString == old(x.mpData.pString)
  {
    hide Sharers;
    ghost var m := Owners(H);
    Shares(m, h);
    assert forall x :: x in H ==> x in m && m[x] == x.mpData;
    h.ReleaseData();
  }

  method TakeUp(ghost H: set<Handle>, h: Handle, rhs: Handle)
    requires h in H && rhs in H && Released(H, h) && (rhs.mpData != null ==> rhs.mpData.Valid())
    modifies h, rhs.mpData
    ensures World(H) && h.Text() == old(rhs.Text()) && h.mpData == old(rhs.mpData)
    ensures forall x :: x in H && x != h ==> x.Text() == old(x.Text())
    ensures forall x :: x in H ==> InFootprint(H, x)
  {
    hide Sharers;
    ghost var m := Owners(H);
    h.mpData := rhs.mpData;
    h.CountData();
    Moved(H, m, h);
  }

  /** operator=.  True stands for counting a buffer that the release before has just deleted: exactly the handle
      that is alone on its buffer does that, assigned to itself. */
  method Assign(ghost H: set<Handle>, h: Handle, rhs: Handle) returns (dangling: bool)
    requires World(H) && h in H && rhs in H
    modifies h, h.mpData, rhs.mpData
    ensures dangling <==> h == rhs && old(h.mpData) != null && old(h.mpData.refCount) == 1
    ensures dangling ==> h.mpData == old(h.mpData) && h.mpData.deleted
    ensures !dangling ==> World(H) && h.Text() == old(rhs.Text()) && h.mpData == old(rhs.mpData)
    ensures !dangling ==> forall x :: x in H && x != h ==> x.Text() == old(x.Text())
    ensures forall x :: x in H ==> InFootprint(H, x)
  {
    hide Sharers, SeparateBuffers, Impl.Text, Handle.Text;
    LetGo(H, h);
    dangling := rhs.mpData != null && rhs.mpData.deleted;
    if !dangling { TakeUp(H, h, rhs); }
  }

  /** After a handle moved from one buffer to another, with the counts adjusted. */
  lemma Moved(H: set<Handle>, m: map<Handle, Impl?>, h: Handle)
    requires h in H && m.Keys == H && forall x :: x in H && x != h ==> m[x] == x.mpData
    requires forall x :: x in H && x.mpData != null ==>
               x.mpData.Valid() &&
               x.mpData.refCount == |Sharers(m, x.mpData)| +
                 (if x.mpData == h.mpData then 1 else 0) - (if x.mpData == m[h] then 1 else 0)
    requires SeparateBuffers(H)
    ensures World(H)
  {
    hide Sharers;
    assert Owners(H) == m[h := h.mpData];
    forall x | x in H && x.mpData != null ensures x.mpData.refCount == |Sharers(m[h := h.mpData], x.mpData)| {
      Repoint(m, h, h.mpData, x.mpData);
    }
  }

  /** A handle that gave up its buffer moves to one of its own. */
  method Adopt(ghost H: set<Handle>, h: Handle, d: Impl)
    requires h in H && h.mpData != null && Released(H, h) && h.mpData.Valid() && d.Valid() && d.refCount == 1
    requires forall x :: x in H && x.mpData != null ==> x.mpData != d && x.mpData.pString != d.pString
    modifies h
    ensures World(H) && h.mpData == d
  {
    hide Sharers;
    ghost var m := Owners(H);
    h.mpData := d;
    Unused(m, d);
    assert forall x :: x in m ==> m[x] != d;
    Moved(H, m, h);
  }

  /** No other live handle is on its buffer. */
  ghost predicate OwnsAlone(H: set<Handle>, h: Handle)
    reads H, h
  {
    h.mpData != null && forall x :: x in H && x != h ==> x.mpData != h.mpData
  }

  /** The copy before a write: afterwards h owns its buffer alone. */
  method Unshare(ghost H: set<Handle>, h: Handle)
    requires World(H) && h in H && h.mpData != null
    modifies h, h.mpData
    ensures World(H) && h.mpData != null && (forall x :: x in H && x != h ==> x.mpData != h.mpData)
    ensures h.mpData == old(h.mpData) || (fresh(h.mpData) && fresh(h.mpData.pString))
    ensures h.mpData.pString == old(h.mpData.pString) || fresh(h.mpData.pString)
    ensures forall x :: x in H ==> x.Text() == old(x.Text())
    ensures forall x :: x in H && x != h ==> x.mpData == old(x.mpData)
    ensures forall x :: x in H ==> InFootprint(H, x)
  {
    hide Sharers;
    if h.mpData.refCount > 1 {
      var newImpl := new Impl.Copy(h.mpData);
      LetGo(H, h);
      Adopt(H, h, newImpl);
    } else {
      Shares(Owners(H), h);
      assert forall x :: x in H ==> x in Owners(H) && Owners(H)[x] == x.mpData;
    }
  }

  ghost function Chars(h: Handle): set<object>
    reads h, h.mpData
  {
    if h.mpData == null then {} else {h.mpData.pString}
  }

  /** operator[](i) and a store through the reference it returns; false stands for std::out_of_range. */
  method Write(ghost H: set<Handle>, h: Handle, i: int, c: wchar) returns (ok: bool)
    requires World(H) && h in H
    modifies h, h.mpData, Chars(h)
    ensures World(H) && ok == (0 <= i < |old(h.Text())|)
    ensures if ok then OwnsAlone(H, h) else h.mpData == old(h.mpData)
    ensures h.Text() == if ok then old(h.Text())[i := c] else old(h.Text())
    ensures forall x :: x in H && x != h ==> x.Text() == old(x.Text())
    ensures forall x :: x in H ==> InFootprint(H, x)
  {
    if h.mpData == null || i >= h.mpData.length || i < 0 { return false; }
    Unshare(H, h);
    WriteOwn(H, h, i, c);
    return true;
  }

  method WriteOwn(ghost H: set<Handle>, h: Handle, i: nat, c: wchar)
    requires World(H) && h in H && h.mpData != null && forall x :: x in H && x != h ==> x.mpData != h.mpData
    requires i < h.mpData.length
    modifies h.mpData.pString
    ensures World(H) && h.Text() == old(h.Text())[i := c]
    ensures forall x :: x in H && x != h ==> x.Text() == old(x.Text())
    ensures forall x :: x in H ==> InFootprint(H, x)
  {
    hide Sharers;
    h.mpData.pString[i] := c;
  }

  method SwapOwn(ghost H: set<Handle>, h: Handle)
    requires World(H) && h in H && h.mpData != null && forall x :: x in H && x != h ==> x.mpData != h.mpData
    modifies h.mpData.pString
    ensures World(H) && h.Text() == Swapped(old(h.Text()))
    ensures forall x :: x in H && x != h ==> x.Text() == old(x.Text())
    ensures forall x :: x in H ==> InFootprint(H, x)
  {
    hide Sharers, Swapped;
    h.mpData.SwapAll();
  }

  /** A buffer for a handle that has none. */
  method Attach(ghost H: set<Handle>, h: Handle)
    requires World(H) && h in H && h.mpData == null
    modifies h
    ensures World(H) && h.mpData != null && fresh(h.mpData) && h.Text() == []
    ensures (forall x :: x in H && x != h ==> x.mpData != h.mpData && x.mpData == old(x.mpData))
    ensures forall x :: x in H ==> InFootprint(H, x)
  {
    hide Sharers;
    ghost var m := Owners(H);
    var d := new Impl();
    h.mpData := d;
    assert Owners(H) == m[h := d];
    Unused(m, d);
    forall x | x in H && x.mpData != null ensures x.mpData.refCount == |Sharers(m[h := d], x.mpData)| {
      Repoint(m, h, d, x.mpData);
    }
  }

  method Resize(ghost H: set<Handle>, h: Handle, n: nat)
    requires World(H) && h in H
    modifies h, h.mpData
    ensures World(H) && h.Text() == Resized(old(h.Text()), n) && OwnsAlone(H, h)
    ensures forall x :: x in H && x != h ==> x.Text() == old(x.Text())
    ensures forall x :: x in H ==> InFootprint(H, x)
  {
    hide Sharers, SeparateBuffers, Resized, Impl.Text;
    if h.mpData == null {
      Attach(H, h);
    } else {
      Unshare(H, h);
    }
    ResizeOwn(H, h, n);
  }

  method ResizeOwn(ghost H: set<Handle>, h: Handle, n: nat)
    requires World(H) && h in H && h.mpData != null && forall x :: x in H && x != h ==> x.mpData != h.mpData
    modifies h.mpData
    ensures World(H) && h.Text() == Resized(old(h.Text()), n)
    ensures forall x :: x in H && x != h ==> x.Text() == old(x.Text())
    ensures forall x :: x in H ==> InFootprint(H, x)
  {
    hide Sharers, Resized;
    ghost var m := Owners(H);
    h.mpData.Resize(n);
    assert Owners(H) == m;
  }

  method SwapBytes(ghost H: set<Handle>, h: Handle)
    requires World(H) && h in H
    modifies h, h.mpData, Chars(h)
    ensures World(H) && h.Text() == Swapped(old(h.Text())) && Exchanged(old(h.Text()), h.Text())
    ensures if old(h.mpData) == null then h.mpData == null else OwnsAlone(H, h)
    ensures forall x :: x in H && x != h ==> x.Text() == old(x.Text())
    ensures forall x :: x in H ==> InFootprint(H, x)
  {
    SwappedAt(h.Text());
    assert h.mpData == null ==> Swapped(h.Text()) == h.Text();
    hide Swapped, Exchanged, Sharers, SeparateBuffers;
    if h.mpData != null {
      Unshare(H, h);
      SwapOwn(H, h);
    }
  }

  // ---- every run ----

  datatype Op =
    | NewEmpty(dst: nat) | NewChars(dst: nat, chars: seq<wchar>) | NewCopy(dst: nat, src: nat) | Drop(dst: nat)
    | Set(dst: nat, src: nat) | Put(dst: nat, i: int, c: wchar) | SetLength(dst: nat, n: nat) | Swap(dst: nat)

  /** The program names live handles only, and new ones under free names. */
  predicate Legal(names: set<nat>, op: Op) {
    match op
    case NewEmpty(d) => d !in names
    case NewChars(d, _) => d !in names
    case NewCopy(d, s) => d !in names && s in names
    case Drop(d) => d in names
    case Set(d, s) => d in names && s in names
    case Put(d, _, _) => d in names
    case SetLength(d, _) => d in names
    case Swap(d) => d in names
  }

  /** What a write makes of a text */
  function Changed(text: seq<wchar>, op: Op): seq<wchar> {
    match op
    case Put(_, i, c) => if 0 <= i < |text| then text[i := c] else text
    case SetLength(_, n) => Resized(text, n)
    case Swap(_) => Swapped(text)
    case _ => text
  }

  /** Independent values: an operation on one name changes that name only. */
  function Apply(values: map<nat, seq<wchar>>, op: Op): map<nat, seq<wchar>>
    requires Legal(values.Keys, op)
  {
    match op
    case NewEmpty(d) => values[d := []]
    case NewChars(d, chars) => values[d := chars]
    case NewCopy(d, s) => values[d := values[s]]
    case Drop(d) => values - {d}
    case Set(d, s) => values[d := values[s]]
    case Put(d, _, _) => values[d := Changed(values[d], op)]
    case SetLength(d, _) => values[d := Changed(values[d], op)]
    case Swap(d) => values[d := Changed(values[d], op)]
  }

  /** Which names are on one buffer: the same number, 0 for none; next is above all numbers. */
  datatype Sharing = Sharing(group: map<nat, nat>, next: nat)

  const NO_SHARING: Sharing := Sharing(map[], 1)

  function Own(g: Sharing, d: nat): Sharing { Sharing(g.group[d := g.next], g.next + 1) }

  /** A copy shares, and a write ends it for the name that writes. */
  function Regroup(g: Sharing, values: map<nat, seq<wchar>>, op: Op): (r: Sharing)
    requires Legal(values.Keys, op) && g.group.Keys == values.Keys
    ensures r.group.Keys == Apply(values, op).Keys
  {
    match op
    case NewEmpty(d) => g.(group := g.group[d := 0])
    case NewChars(d, _) => Own(g, d)
    case NewCopy(d, s) => g.(group := g.group[d := g.group[s]])
    case Drop(d) => g.(group := g.group - {d})
    case Set(d, s) => g.(group := g.group[d := g.group[s]])
    case Put(d, i, _) => if 0 <= i < |values[d]| then Own(g, d) else g
    case SetLength(d, _) => Own(g, d)
    case Swap(d) => if g.group[d] == 0 then g else Own(g, d)
  }

  /** A name alone on a buffer is not assigned to itself. */
  predicate Safe(g: Sharing, op: Op) {
    op.Set? && op.dst == op.src && op.dst in g.group ==>
      g.group[op.dst] == 0 || exists k :: k in g.group && k != op.dst && g.group[k] == g.group[op.dst]
  }

  ghost predicate LegalRun(values: map<nat, seq<wchar>>, g: Sharing, ops: seq<Op>)
    requires g.group.Keys == values.Keys
    decreases |ops|
  {
    ops == [] || (Legal(values.Keys, ops[0]) && Safe(g, ops[0])
                  && LegalRun(Apply(values, ops[0]), Regroup(g, values, ops[0]), ops[1..]))
  }

  ghost predicate LegalNames(values: map<nat, seq<wchar>>, ops: seq<Op>)
    decreases |ops|
  {
    ops == [] || (Legal(values.Keys, ops[0]) && LegalNames(Apply(values, ops[0]), ops[1..]))
  }

  ghost function ApplyAll(values: map<nat, seq<wchar>>, ops: seq<Op>): map<nat, seq<wchar>>
    requires LegalNames(values, ops)
    decreases |ops|
  {
    if ops == [] then values else ApplyAll(Apply(values, ops[0]), ops[1..])
  }

  ghost function RegroupAll(values: map<nat, seq<wchar>>, g: Sharing, ops: seq<Op>): Sharing
    requires g.group.Keys == values.Keys && LegalNames(values, ops)
    decreases |ops|
  {
    if ops == [] then g else RegroupAll(Apply(values, ops[0]), Regroup(g, values, ops[0]), ops[1..])
  }

  lemma {:induction false} NamesOfRun(values: map<nat, seq<wchar>>, g: Sharing, ops: seq<Op>)
    requires g.group.Keys == values.Keys && LegalRun(values, g, ops)
    ensures LegalNames(values, ops)
    decreases |ops|
  {
    if ops != [] { NamesOfRun(Apply(values, ops[0]), Regroup(g, values, ops[0]), ops[1..]); }
  }

  // ---- buffers by name ----

  ghost function Data(handles: map<nat, Handle>): map<nat, Impl?>
    reads handles.Values
  {
    map k | k in handles :: handles[k].mpData
  }

  /** The names are on one buffer exactly when their numbers are equal. */
  ghost predicate Grouped(data: map<nat, Impl?>, g: Sharing) {
    && data.Keys == g.group.Keys && g.next > 0
    && (forall k :: k in data ==> g.group[k] < g.next && (data[k] == null <==> g.group[k] == 0))
    && (forall k, l :: k in data && l in data ==> (data[k] == data[l] <==> g.group[k] == g.group[l]))
  }

  /** The buffers of the other names are the same. */
  ghost predicate OnlyAt(before: map<nat, Impl?>, after: map<nat, Impl?>, d: nat) {
    d in after && after == before[d := after[d]]
  }

  /** The operation writes to a buffer. */
  predicate Writes(data: Impl?, text: seq<wchar>, op: Op) {
    match op
    case Put(_, i, _) => 0 <= i < |text|
    case SetLength(_, _) => true
    case Swap(_) => data != null
    case _ => false
  }

  /** One name is on a buffer of its own. */
  ghost predicate OnOwn(before: map<nat, Impl?>, after: map<nat, Impl?>, d: nat) {
    OnlyAt(before, after, d) && after[d] != null && forall k :: k in after && k != d ==> after[k] != after[d]
  }

  /** What an operation does to the buffers */
  ghost predicate DataAfter(before: map<nat, Impl?>, after: map<nat, Impl?>, values: map<nat, seq<wchar>>, op: Op)
    requires Legal(values.Keys, op) && before.Keys == values.Keys
  {
    match op
    case NewEmpty(d) => after == before[d := null]
    case NewChars(d, _) => OnOwn(before, after, d)
    case NewCopy(d, s) => after == before[d := before[s]]
    case Drop(d) => after == before - {d}
    case Set(d, s) => after == before[d := before[s]]
    case Put(d, i, _) => if 0 <= i < |values[d]| then OnOwn(before, after, d) else after == before
    case SetLength(d, _) => OnOwn(before, after, d)
    case Swap(d) => if before[d] == null then after == before else OnOwn(before, after, d)
  }

  lemma GroupedOwn(before: map<nat, Impl?>, after: map<nat, Impl?>, g: Sharing, d: nat)
    requires Grouped(before, g) && OnOwn(before, after, d)
    ensures Grouped(after, Own(g, d))
  {}

  lemma GroupedAs(before: map<nat, Impl?>, g: Sharing, d: nat, s: nat)
    requires Grouped(before, g) && s in before
    ensures Grouped(before[d := before[s]], g.(group := g.group[d := g.group[s]]))
  {}

  lemma GroupedNone(before: map<nat, Impl?>, g: Sharing, d: nat)
    requires Grouped(before, g)
    ensures Grouped(before[d := null], g.(group := g.group[d := 0]))
    ensures Grouped(before - {d}, g.(group := g.group - {d}))
  {}

  lemma GroupedAfter(before: map<nat, Impl?>, after: map<nat, Impl?>, values: map<nat, seq<wchar>>, g: Sharing, op: Op)
    requires Legal(values.Keys, op) && before.Keys == values.Keys && Grouped(before, g)
    requires DataAfter(before, after, values, op)
    ensures Grouped(after, Regroup(g, values, op))
  {
    assert before.Keys == g.group.Keys && forall k :: k in before ==> (before[k] == null <==> g.group[k] == 0);
    hide Grouped, OnOwn, Own, Apply;
    GroupedNone(before, g, op.dst);
    if op.NewCopy? || op.Set? {
      GroupedAs(before, g, op.dst, op.src);
    } else if !op.NewEmpty? && !op.Drop? && after != before {
      GroupedOwn(before, after, g, op.dst);
    } else if after == before && (op.NewChars? || op.Put? || op.SetLength? || op.Swap?) {
      if OnOwn(before, after, op.dst) { GroupedOwn(before, after, g, op.dst); }
    }
  }

  /** Handles by name. */
  ghost predicate Represents(handles: map<nat, Handle>, values: map<nat, seq<wchar>>)
    reads handles.Values, Impls(handles.Values), Buffers(handles.Values)
  {
    && World(handles.Values) && handles.Keys == values.Keys
    && SeparateHandles(handles)
    && (forall k :: k in handles ==> handles[k].Text() == values[k])
  }

  /** A new name, with a new handle. */
  lemma Created(handles: map<nat, Handle>, values: map<nat, seq<wchar>>, d: nat, h: Handle)
    requires World(handles.Values + {h}) && handles.Keys == values.Keys && d !in handles && h !in handles.Values
    requires forall k, l :: k in handles && l in handles && k != l ==> handles[k] != handles[l]
    requires forall k :: k in handles ==> handles[k] in handles.Values + {h} && handles[k].Text() == values[k]
    ensures Represents(handles[d := h], values[d := h.Text()])
  {
    hide Sharers, SeparateBuffers;
    ValuesWith(handles, d, h);
    assert handles[d := h].Values == handles.Values + {h};
    assert forall k :: k in handles ==> handles[k] in handles.Values;
  }

  method Make(handles: map<nat, Handle>, ghost values: map<nat, seq<wchar>>, op: Op) returns (after: map<nat, Handle>)
    requires Represents(handles, values) && Legal(values.Keys, op) && (op.NewEmpty? || op.NewChars? || op.NewCopy?)
    modifies Impls(handles.Values)
    ensures Represents(after, Apply(values, op)) && op.dst in after && after == handles[op.dst := after[op.dst]]
    ensures op.NewEmpty? ==> after[op.dst].mpData == null
    ensures op.NewChars? ==> after[op.dst].mpData != null && fresh(after[op.dst].mpData)
    ensures op.NewCopy? ==> after[op.dst].mpData == handles[op.src].mpData
    ensures forall h :: h in after.Values ==> (h in handles.Values || fresh(h)) && InFootprint(handles.Values, h)
  {
    hide Sharers, SeparateBuffers, InFootprint;
    ghost var H := handles.Values;
    var h: Handle;
    match op {
      case NewEmpty(_) => h := Empty(H);
      case NewChars(_, chars) => h := FromChars(H, chars);
      case NewCopy(_, s) => h := Copy(H, handles[s]);
      case _ =>
    }
    forall k | k in handles ensures handles[k].Text() == values[k] { assert handles[k] in H; }
    ValuesWith(handles, op.dst, h);
    Created(handles, values, op.dst, h);
    after := handles[op.dst := h];
  }

  method Remove(handles: map<nat, Handle>, ghost values: map<nat, seq<wchar>>, d: nat) returns (after: map<nat, Handle>)
    requires Represents(handles, values) && d in handles
    modifies Impls(handles.Values)
    ensures Represents(after, values - {d}) && after == handles - {d}
    ensures forall h :: h in after.Values ==> h in handles.Values && InFootprint(handles.Values, h)
  {
    hide Sharers, SeparateBuffers, InFootprint;
    ghost var H := handles.Values;
    Destroy(H, handles[d]);
    ValuesWithout(handles, d);
    after := handles - {d};
    forall k | k in after ensures after[k].Text() == values[k] { assert after[k] in H - {handles[d]}; }
  }

  /** True stands for counting a deleted buffer, exactly when the assignment is not safe. */
  method Reassign(handles: map<nat, Handle>, ghost values: map<nat, seq<wchar>>, ghost g: Sharing, d: nat, s: nat)
    returns (dangling: bool)
    requires Represents(handles, values) && Grouped(Data(handles), g) && d in handles && s in handles
    modifies handles.Values, Impls(handles.Values)
    ensures dangling <==> !Safe(g, Set(d, s))
    ensures !dangling ==> Represents(handles, values[d := values[s]]) && handles[d].mpData == old(handles[s].mpData)
    ensures forall k :: k in handles && k != d ==> handles[k].mpData == old(handles[k].mpData)
    ensures forall h :: h in handles.Values ==> InFootprint(handles.Values, h)
  {
    hide Sharers, SeparateBuffers, InFootprint;
    ghost var H := handles.Values;
    SoleOwner(handles, values, g, d);
    dangling := Assign(H, handles[d], handles[s]);
    if !dangling {
      forall k | k in handles && k != d ensures handles[k].Text() == values[k] { assert handles[k] in H; }
    }
  }

  /** The count is one exactly when no other name is on the buffer. */
  lemma SoleOwner(handles: map<nat, Handle>, values: map<nat, seq<wchar>>, g: Sharing, d: nat)
    requires Represents(handles, values) && Grouped(Data(handles), g) && d in handles
    ensures handles[d].mpData != null && handles[d].mpData.refCount == 1 <==> !Safe(g, Set(d, d))
  {
    hide Sharers, SeparateBuffers;
    var H, h := handles.Values, handles[d];
    var m := Owners(H);
    if h.mpData != null {
      Shares(m, h);
      OnlySharer(m, h);
      if exists k :: k in g.group && k != d && g.group[k] == g.group[d] {
        var k :| k in g.group && k != d && g.group[k] == g.group[d];
        assert handles[k] in m && m[handles[k]] == h.mpData && handles[k] != h;
      } else {
        forall x | x in m && x != h ensures m[x] != h.mpData {
          var k :| k in handles && handles[k] == x;
          assert Data(handles)[k] == x.mpData;
        }
      }
    }
  }

  lemma OnlySharer(m: map<Handle, Impl?>, h: Handle)
    requires h in m
    ensures (forall x :: x in m && x != h ==> m[x] != m[h]) ==> |Sharers(m, m[h])| == 1
  {
    if forall x :: x in m && x != h ==> m[x] != m[h] {
      assert Sharers(m, m[h]) == {h};
    }
  }

  method ChangeOne(ghost H: set<Handle>, h: Handle, op: Op)
    requires World(H) && h in H && (op.Put? || op.SetLength? || op.Swap?)
    modifies h, h.mpData, Chars(h)
    ensures World(H) && h.Text() == Changed(old(h.Text()), op)
    ensures if Writes(old(h.mpData), old(h.Text()), op) then OwnsAlone(H, h) else h.mpData == old(h.mpData)
    ensures forall x :: x in H && x != h ==> x.Text() == old(x.Text())
    ensures forall x :: x in H ==> InFootprint(H, x)
  {
    hide World, SeparateBuffers, InFootprint, Resized, Swapped, OwnsAlone;
    match op {
      case Put(_, i, c) => var _ := Write(H, h, i, c);
      case SetLength(_, n) => Resize(H, h, n);
      case Swap(_) => SwapBytes(H, h);
      case _ =>
    }
  }

  method Change(handles: map<nat, Handle>, ghost values: map<nat, seq<wchar>>, op: Op)
    requires Represents(handles, values) && Legal(values.Keys, op) && (op.Put? || op.SetLength? || op.Swap?)
    modifies handles.Values, Impls(handles.Values), Buffers(handles.Values)
    ensures Represents(handles, Apply(values, op))
    ensures if Writes(old(handles[op.dst].mpData), values[op.dst], op) then OwnsAlone(handles.Values, handles[op.dst])
            else handles[op.dst].mpData == old(handles[op.dst].mpData)
    ensures forall k :: k in handles && k != op.dst ==> handles[k].mpData == old(handles[k].mpData)
    ensures forall h :: h in handles.Values ==> InFootprint(handles.Values, h)
  {
    hide Sharers, SeparateBuffers, InFootprint, Changed, OwnsAlone, Impl.Text, Handle.Text, Writes;
    ghost var H := handles.Values;
    ChangeOne(H, handles[op.dst], op);
    forall k | k in handles && k != op.dst ensures handles[k].Text() == values[k] { assert handles[k] in H; }
  }

  method Step(handles: map<nat, Handle>, ghost values: map<nat, seq<wchar>>, ghost g: Sharing, op: Op)
    returns (after: map<nat, Handle>)
    requires Represents(handles, values) && Grouped(Data(handles), g) && Legal(values.Keys, op) && Safe(g, op)
    modifies handles.Values, Impls(handles.Values), Buffers(handles.Values)
    ensures Represents(after, Apply(values, op)) && Grouped(Data(after), Regroup(g, values, op))
    ensures forall h :: h in after.Values ==> (h in handles.Values || fresh(h)) && InFootprint(handles.Values, h)
  {
    hide World, SeparateBuffers, InFootprint, Grouped, OnOwn, Apply, Regroup, Represents, Safe, Data, DataAfter;
    ghost var before := Data(handles);
    assert values.Keys == before.Keys by { Named(handles, values); }
    if op.NewEmpty? || op.NewChars? || op.NewCopy? {
      after := StepMake(handles, values, op);
    } else if op.Drop? || op.Set? {
      after := StepMove(handles, values, g, op);
    } else {
      StepChange(handles, values, op);
      after := handles;
    }
    GroupedAfter(before, Data(after), values, g, op);
  }

  method StepMake(handles: map<nat, Handle>, ghost values: map<nat, seq<wchar>>, op: Op)
    returns (after: map<nat, Handle>)
    requires Represents(handles, values) && Legal(values.Keys, op) && (op.NewEmpty? || op.NewChars? || op.NewCopy?)
    requires values.Keys == Data(handles).Keys
    modifies Impls(handles.Values)
    ensures Represents(after, Apply(values, op)) && DataAfter(old(Data(handles)), Data(after), values, op)
    ensures forall h :: h in after.Values ==> (h in handles.Values || fresh(h)) && InFootprint(handles.Values, h)
  {
    hide World, SeparateBuffers, InFootprint, Apply, Represents;
    ghost var before := Data(handles);
    after := Make(handles, values, op);
    MadeData(before, Data(after), values, op);
  }

  method StepMove(handles: map<nat, Handle>, ghost values: map<nat, seq<wchar>>, ghost g: Sharing, op: Op)
    returns (after: map<nat, Handle>)
    requires Represents(handles, values) && Grouped(Data(handles), g) && Legal(values.Keys, op) && Safe(g, op)
    requires (op.Drop? || op.Set?) && values.Keys == Data(handles).Keys
    modifies handles.Values, Impls(handles.Values)
    ensures Represents(after, Apply(values, op)) && DataAfter(old(Data(handles)), Data(after), values, op)
    ensures forall h :: h in after.Values ==> h in handles.Values && InFootprint(handles.Values, h)
  {
    hide World, SeparateBuffers, InFootprint, Grouped, Represents, Safe;
    if op.Drop? {
      after := Remove(handles, values, op.dst);
    } else {
      var _ := Reassign(handles, values, g, op.dst, op.src);
      after := handles;
    }
  }

  method StepChange(handles: map<nat, Handle>, ghost values: map<nat, seq<wchar>>, op: Op)
    requires Represents(handles, values) && Legal(values.Keys, op) && (op.Put? || op.SetLength? || op.Swap?)
    requires values.Keys == Data(handles).Keys
    modifies handles.Values, Impls(handles.Values), Buffers(handles.Values)
    ensures Represents(handles, Apply(values, op)) && DataAfter(old(Data(handles)), Data(handles), values, op)
    ensures forall h :: h in handles.Values ==> InFootprint(handles.Values, h)
  {
    hide World, SeparateBuffers, InFootprint, Apply, Represents, DataAfter, Changed, OwnsAlone, Writes, Handle.Text;
    ghost var before := Data(handles);
    assert SeparateHandles(handles) by { Named(handles, values); }
    Change(handles, values, op);
    ChangedData(before, handles, values, op);
  }

  ghost predicate SeparateHandles(handles: map<nat, Handle>) {
    forall k, l :: k in handles && l in handles && k != l ==> handles[k] != handles[l]
  }

  lemma Named(handles: map<nat, Handle>, values: map<nat, seq<wchar>>)
    requires Represents(handles, values)
    ensures values.Keys == handles.Keys == Data(handles).Keys && SeparateHandles(handles)
  {}

  lemma MadeData(before: map<nat, Impl?>, after: map<nat, Impl?>, values: map<nat, seq<wchar>>, op: Op)
    requires Legal(values.Keys, op) && (op.NewEmpty? || op.NewChars? || op.NewCopy?) && before.Keys == values.Keys
    requires OnlyAt(before, after, op.dst)
    requires op.NewEmpty? ==> after[op.dst] == null
    requires op.NewChars? ==> after[op.dst] != null && forall k :: k in before ==> before[k] != after[op.dst]
    requires op.NewCopy? ==> after[op.dst] == before[op.src]
    ensures DataAfter(before, after, values, op)
  {}

  lemma ChangedData(before: map<nat, Impl?>, handles: map<nat, Handle>, values: map<nat, seq<wchar>>, op: Op)
    requires Legal(values.Keys, op) && (op.Put? || op.SetLength? || op.Swap?)
    requires before.Keys == values.Keys == handles.Keys && OnlyAt(before, Data(handles), op.dst)
    requires SeparateHandles(handles)
    requires if Writes(before[op.dst], values[op.dst], op) then OwnsAlone(handles.Values, handles[op.dst])
             else handles[op.dst].mpData == before[op.dst]
    ensures DataAfter(before, Data(handles), values, op)
  {
    if Writes(before[op.dst], values[op.dst], op) {
      forall k | k in handles && k != op.dst ensures handles[k].mpData != handles[op.dst].mpData {
        assert handles[k] in handles.Values;
      }
    }
  }

  lemma ValuesWith(m: map<nat, Handle>, k: nat, h: Handle)
    requires k !in m
    ensures m[k := h].Values == m.Values + {h}
  {
    forall x ensures x in m[k := h].Values <==> x in m.Values + {h} {
      if x in m.Values {
        var l :| l in m && m[l] == x;
        assert m[k := h][l] == x;
      }
      if x == h { assert m[k := h][k] == h; }
    }
  }

  lemma ValuesWithout(m: map<nat, Handle>, k: nat)
    requires k in m && forall i, j :: i in m && j in m && i != j ==> m[i] != m[j]
    ensures (m - {k}).Values == m.Values - {m[k]}
  {
    forall x ensures x in (m - {k}).Values <==> x in m.Values - {m[k]} {
      if x in m.Values - {m[k]} {
        var l :| l in m && m[l] == x;
        assert (m - {k})[l] == x;
      }
    }
  }

  /** Every run from no strings at all that does not assign a name alone on its buffer to itself ends with the texts
      that independent values would have, and with the buffers shared as copying and writing leave them. */
  method Run(ops: seq<Op>) returns (handles: map<nat, Handle>, ghost g: Sharing)
    requires LegalRun(map[], NO_SHARING, ops)
    ensures LegalNames(map[], ops) && Represents(handles, ApplyAll(map[], ops))
    ensures g == RegroupAll(map[], NO_SHARING, ops) && Grouped(Data(handles), g)
  {
    hide World, SeparateBuffers, Apply, Legal, Regroup, Safe, Grouped;
    handles, g := map[], NO_SHARING;
    ghost var values: map<nat, seq<wchar>> := map[];
    NoHandles(handles);
    NamesOfRun(values, g, ops);
    for i := 0 to |ops|
      invariant g.group.Keys == values.Keys && LegalRun(values, g, ops[i..])
      invariant LegalNames(values, ops[i..]) && ApplyAll(values, ops[i..]) == ApplyAll(map[], ops)
      invariant RegroupAll(values, g, ops[i..]) == RegroupAll(map[], NO_SHARING, ops)
      invariant Represents(handles, values) && Grouped(Data(handles), g)
      invariant forall h :: h in handles.Values ==>
                  fresh(h) && (h.mpData != null ==> fresh(h.mpData) && fresh(h.mpData.pString))
    {
      assert ops[i..][0] == ops[i] && ops[i..][1..] == ops[i + 1..];
      handles := Step(handles, values, g, ops[i]);
      values, g := Apply(values, ops[i]), Regroup(g, values, ops[i]);
      NamesOfRun(values, g, ops[i + 1..]);
    }
  }

  lemma NoHandles(handles: map<nat, Handle>)
    requires handles == map[]
    ensures Represents(handles, map[]) && Grouped(Data(handles), NO_SHARING)
  {
    assert handles.Values == {};
  }

  /** A string of its own, assigned to itself, is counted after it was deleted. */
  method SelfAssigned(chars: seq<wchar>) returns (h: Handle, dangling: bool)
    ensures dangling && h.mpData != null && h.mpData.deleted
  {
    ghost var none: set<Handle> := {};
    h := FromChars(none, chars);
    assert none + {h} == {h};
    OnlySharer(Owners({h}), h);
    dangling := Assign({h}, h, h);
  }
}
