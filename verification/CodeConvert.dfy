/** The locale-independent converter of src/core/codeconvert.cpp:1386-1492 between 8-bit and 16-bit strings. */
module CodeConvert {
  import opened Bytes

  const TSS_UCS2_RESERVED_START: wchar := 0xE800
  const TSS_UCS2_RESERVED_END: wchar := 0xE8FF
  const TSS_HIGH_ASCII_START: byte := 0x80

  /** The result of a conversion, or its eConverterFatal */
  datatype Converted<T> = Text(value: T) | Fatal

  predicate InReservedRange(w: wchar) { TSS_UCS2_RESERVED_START <= w <= TSS_UCS2_RESERVED_END }

  /** cConvertUtil::ConvertNonChar, in both directions */
  function NonCharToWide(c: byte): Converted<wchar> {
    if c < TSS_HIGH_ASCII_START then Fatal else Text(c + TSS_UCS2_RESERVED_START)
  }

  function NonCharToNarrow(w: wchar): Converted<byte> {
    if InReservedRange(w) then Text(w - TSS_UCS2_RESERVED_START) else Fatal
  }

  /** A C string ends at the first NUL. */
  function CString<T(==)>(s: seq<T>, nul: T): (r: seq<T>)
    ensures r <= s && nul !in r && (|r| == |s| || s[|r|] == nul)
  {
    if s == [] || s[0] == nul then [] else [s[0]] + CString(s[1..], nul)
  }

  lemma {:induction false} CStringWhole<T>(s: seq<T>, nul: T)
    ensures CString(s, nul) == s <==> nul !in s
  {
    if s != [] && s[0] != nul {
      CStringWhole(s[1..], nul);
      assert s == [s[0]] + s[1..];
      assert [s[0]] + CString(s[1..], nul) == [s[0]] + s[1..] <==> CString(s[1..], nul) == s[1..] by {
        assert ([s[0]] + CString(s[1..], nul))[1..] == CString(s[1..], nul);
      }
    }
  }

  // ---- the two directions, character by character ----

  function WideOf(c: byte): wchar { if c > 0x7F then c + TSS_UCS2_RESERVED_START else c }

  /** ASCII stays as it is; the other bytes go in order to the 128 characters from 0xE880 on. */
  lemma WideOrder(c: byte, d: byte)
    ensures WideOf(c) == c <==> c < 0x80
    ensures 0x80 <= c ==> 0xE880 <= WideOf(c) <= 0xE8FF
    ensures c < d <==> WideOf(c) < WideOf(d)
  {}

  predicate Narrowable(w: wchar) { w <= 0xFF || InReservedRange(w) }

  function NarrowOf(w: wchar): byte
    requires Narrowable(w)
  {
    if w > 0xFF then w - TSS_UCS2_RESERVED_START else w
  }

  ghost function Widened(s: seq<byte>): (r: seq<wchar>)
    ensures |r| == |CString(s, 0)| && forall i :: 0 <= i < |r| ==> r[i] == WideOf(CString(s, 0)[i])
  {
    var c := CString(s, 0);
    seq(|c|, i requires 0 <= i < |c| => WideOf(c[i]))
  }

  ghost function Narrowed(w: seq<wchar>): Converted<seq<byte>> {
    var c := CString(w, 0);
    if forall i :: 0 <= i < |c| ==> Narrowable(c[i]) then
      Text(seq(|c|, i requires 0 <= i < |c| && Narrowable(c[i]) => NarrowOf(c[i])))
    else Fatal
  }

  /** To 8 bits: exactly for characters up to 0xFF and from 0xE800 to 0xE8FF, each becoming its low byte */
  lemma NarrowedIs(w: seq<wchar>)
    ensures var c, r := CString(w, 0), Narrowed(w);
            && (r.Text? <==> forall i :: 0 <= i < |c| ==> c[i] <= 0xFF || 0xE800 <= c[i] <= 0xE8FF)
            && (r.Text? ==> |r.value| == |c| && forall i :: 0 <= i < |c| ==> r.value[i] == c[i] % 0x100)
  {
    hide CString;
    var c, r := CString(w, 0), Narrowed(w);
    forall i | 0 <= i < |c| ensures Narrowable(c[i]) <==> c[i] <= 0xFF || 0xE800 <= c[i] <= 0xE8FF {}
    if r.Text? {
      forall i | 0 <= i < |c| ensures r.value[i] == c[i] % 0x100 { assert Narrowable(c[i]); }
    }
  }

  lemma WidenedIsPlain(s: seq<byte>)
    ensures CString(Widened(s), 0) == Widened(s)
    ensures forall i :: 0 <= i < |Widened(s)| ==>
                          Narrowable(Widened(s)[i]) && NarrowOf(Widened(s)[i]) == CString(s, 0)[i]
  {
    var c, w := CString(s, 0), Widened(s);
    forall i | 0 <= i < |w| ensures w[i] != 0 { assert c[i] in c; }
    CStringWhole(w, 0);
  }

  /** Into 16 bits and back: what is before the first NUL, so everything exactly when there is none. */
  lemma NarrowWide(s: seq<byte>)
    ensures Narrowed(Widened(s)) == Text(CString(s, 0))
    ensures Narrowed(Widened(s)) == Text(s) <==> 0 !in s
  {
    hide CString, Widened;
    CStringWhole(s, 0);
    WidenedIsPlain(s);
    assert Narrowed(Widened(s)).Text? && Narrowed(Widened(s)).value == CString(s, 0);
  }

  /** The characters that a single byte can produce, other than NUL */
  predicate Canonical(w: wchar) { 0 < w <= 0x7F || TSS_UCS2_RESERVED_START + 0x80 <= w <= TSS_UCS2_RESERVED_END }

  lemma CanonicalNarrows(w: seq<wchar>)
    requires forall i :: 0 <= i < |w| ==> Canonical(w[i])
    ensures Narrowed(w).Text? && Widened(Narrowed(w).value) == w
  {
    assert 0 !in w;
    CStringWhole(w, 0);
    var t := Narrowed(w).value;
    assert |t| == |w|;
    forall i | 0 <= i < |t| ensures t[i] != 0 && WideOf(t[i]) == w[i] {}
    CStringWhole(t, 0);
    assert Widened(t) == w;
  }

  /** Into 8 bits and back. */
  lemma WideNarrow(w: seq<wchar>)
    ensures Narrowed(w).Text? && Widened(Narrowed(w).value) == w <==>
            forall i :: 0 <= i < |w| ==> 0 < w[i] <= 0x7F || 0xE880 <= w[i] <= 0xE8FF
  {
    if Narrowed(w).Text? && Widened(Narrowed(w).value) == w {
      var c := CString(Narrowed(w).value, 0);
      forall i | 0 <= i < |w| ensures Canonical(w[i]) {
        assert w[i] == WideOf(c[i]) && c[i] in c;
      }
    }
    if forall i :: 0 <= i < |w| ==> Canonical(w[i]) { CanonicalNarrows(w); }
  }

  // ---- the loops ----

  /** To 8 bits: the count written before the NUL, or Fatal at the first character that does not fit. */
  method ConvertToNarrow(pbz: array<byte>, pwz: seq<wchar>) returns (written: Converted<nat>)
    requires pbz.Length > |pwz|
    modifies pbz
    ensures written.Text? == Narrowed(pwz).Text?
    ensures written.Text? ==>
              && written.value <= |pwz|
              && pbz[..written.value] == Narrowed(pwz).value && pbz[written.value] == 0
  {
    var dat := 0;
    ghost var c := CString(pwz, 0);
    while dat < |pwz| && pwz[dat] != 0
      invariant dat <= |c| && forall i :: 0 <= i < dat ==> Narrowable(c[i]) && pbz[i] == NarrowOf(c[i])
    {
      assert pwz[dat] == c[dat];
      if pwz[dat] > 0xFF {
        var ch := NonCharToNarrow(pwz[dat]);
        if ch.Fatal? { return Fatal; }
        pbz[dat] := ch.value;
      } else {
        pbz[dat] := pwz[dat];
      }
      dat := dat + 1;
    }
    pbz[dat] := 0;
    return Text(dat);
  }

  /** To 16 bits: no byte is refused. */
  method ConvertToWide(pwz: array<wchar>, pbz: seq<byte>) returns (written: Converted<nat>)
    requires pwz.Length > |pbz|
    modifies pwz
    ensures written.Text? && written.value <= |pbz| && pwz[..written.value] == Widened(pbz) && pwz[written.value] == 0
  {
    var at := 0;
    ghost var c := CString(pbz, 0);
    while at < |pbz| && pbz[at] != 0
      invariant at <= |c| && forall i :: 0 <= i < at ==> pwz[i] == WideOf(c[i])
    {
      assert pbz[at] == c[at];
      if pbz[at] > 0x7F {
        var w := NonCharToWide(pbz[at]);
        if w.Fatal? { return Fatal; }
        pwz[at] := w.value;
      } else {
        pwz[at] := pbz[at];
      }
      at := at + 1;
    }
    pwz[at] := 0;
    return Text(at);
  }
}

/** cStringUtil of src/core/stringutil.cpp:72-223: conversion with a cache in a hash table. */
module StringUtil {
  import opened Bytes
  import opened CodeConvert
  import HashTable

  /** A string as the bytes that the hash reads */
  function KeyOf(w: seq<wchar>): (key: HashTable.Key)
    ensures |key| == 2 * |w|
  {
    if w == [] then [] else [w[0] % 0x100, w[0] / 0x100] + KeyOf(w[1..])
  }

  lemma {:induction false} KeyInjective(v: seq<wchar>, w: seq<wchar>)
    requires KeyOf(v) == KeyOf(w)
    ensures v == w
  {
    if v != [] {
      assert KeyOf(v)[0] == KeyOf(w)[0] && KeyOf(v)[1] == KeyOf(w)[1];
      assert KeyOf(v)[2..] == KeyOf(v[1..]) && KeyOf(w)[2..] == KeyOf(w[1..]);
      KeyInjective(v[1..], w[1..]);
      assert v == [v[0]] + v[1..] && w == [w[0]] + w[1..];
    }
  }

  lemma NothingNarrowed()
    ensures Narrowed([]) == Text([])
  {
    assert CString<wchar>([], 0) == [];
    assert Narrowed([]).value == [];
  }

  class StringUtil {
    const table: HashTable.HashTable<seq<byte>>

    /** What is cached is what the converter returns. */
    ghost predicate Valid()
      reads this, table, table.mTable, table.nodes
    {
      && table.Valid()
      && forall w {:trigger KeyOf(w)} :: KeyOf(w) in table.contents ==> Narrowed(w) == Text(table.contents[KeyOf(w)])
    }

    constructor ()
      ensures Valid() && fresh(table) && fresh(table.mTable) && fresh(table.nodes)
    {
      table := new HashTable.HashTable(6007);
    }

    /** Convert(std::string&, const wc16_string&); Fatal stands for the exception. */
    method ToNarrow(dbs: seq<wchar>) returns (nbs: Converted<seq<byte>>)
      requires Valid()
      modifies table, table.mTable, table.nodes
      ensures Valid() && nbs == Narrowed(dbs)
      ensures table.mTable == old(table.mTable)
      ensures forall n :: n in table.nodes ==> n in old(table.nodes) || fresh(n)
    {
      hide HashTable.Hashed, HashTable.Holds, HashTable.Chain, HashTable.At, KeyOf, Narrowed;
      NothingNarrowed();
      if dbs == [] { return Text([]); }
      var found, cached := table.Lookup(KeyOf(dbs), []);
      if found { return Text(cached); }
      var buffer := new byte[|dbs| + 1];
      var nWrote := ConvertToNarrow(buffer, dbs);
      if nWrote.Fatal? { return Fatal; }
      nbs := Text(buffer[..nWrote.value]);
      var _ := table.Insert(KeyOf(dbs), nbs.value);
      forall w | KeyOf(w) == KeyOf(dbs) ensures w == dbs { KeyInjective(w, dbs); }
    }

    /** Convert(wc16_string&, const std::string&) */
    static method ToWide(nbs: seq<byte>) returns (dbs: seq<wchar>)
      ensures dbs == Widened(nbs)
    {
      if |nbs| == 0 { return []; }
      var buffer := new wchar[|nbs| + 1];
      var nWrote := ConvertToWide(buffer, nbs);
      dbs := buffer[..nWrote.value];
    }

    /** Any sequence of conversions answers as the converter alone would. */
    method ConvertAll(inputs: seq<seq<wchar>>) returns (outputs: seq<Converted<seq<byte>>>)
      requires Valid()
      modifies table, table.mTable, table.nodes
      ensures Valid() && |outputs| == |inputs| && forall i :: 0 <= i < |inputs| ==> outputs[i] == Narrowed(inputs[i])
    {
      outputs := [];
      for i := 0 to |inputs|
        invariant Valid() && |outputs| == i && forall j :: 0 <= j < i ==> outputs[j] == Narrowed(inputs[j])
        invariant table.mTable == old(table.mTable)
        invariant forall n :: n in table.nodes ==> n in old(table.nodes) || fresh(n)
      {
        var nbs := ToNarrow(inputs[i]);
        outputs := outputs + [nbs];
      }
    }
  }
}
