/** Byte order (src/core/types.h:151-192): how integers lie in memory, and the swaps between the two orders. */
module ByteOrder {
  import opened Bytes
  import opened Modular

  datatype Host = LittleEndian | BigEndian
  datatype Width = Int16 | Int32 | Int64

  function Size(w: Width): nat { match w case Int16 => 2 case Int32 => 4 case Int64 => 8 }

  function Limit(w: Width): nat {
    match w case Int16 => 0x1_0000 case Int32 => 0x1_0000_0000 case Int64 => 0x1_0000_0000_0000_0000
  }

  /** The low n bytes of x, least significant first */
  function Memory(x: nat, n: nat): (s: seq<byte>)
    ensures |s| == n
  {
    if n == 0 then [] else [x % 0x100] + Memory(x / 0x100, n - 1)
  }

  function Power(n: nat): (p: nat)
    ensures p > 0
  {
    if n == 0 then 1 else 0x100 * Power(n - 1)
  }

  /** Byte i in memory is digit i of the number to base 256. */
  lemma {:induction false} MemoryAt(x: nat, n: nat, i: nat)
    requires i < n
    ensures Memory(x, n)[i] == x / Power(i) % 0x100
    decreases n
  {
    if i > 0 {
      MemoryAt(x / 0x100, n - 1, i - 1);
      QuotientTwice(x, 0x100, Power(i - 1));
    } else {
      assert x / 1 == x;
    }
  }

  lemma QuotientTwice(x: nat, a: nat, b: nat)
    requires a > 0 && b > 0
    ensures a * b > 0 && x / a / b == x / (a * b)
  {
    var q, r := x / a, x % a;
    var u, v := q / b, q % b;
    assert x == a * q + r && q == b * u + v;
    assert a * (b * u + v) == a * b * u + a * v by { Distributes(a, b, u, v); }
    Below(a, b, v, r);
    Quotient(x, a * b, u, a * v + r);
  }

  lemma Distributes(a: nat, b: nat, u: nat, v: nat)
    ensures a * (b * u + v) == a * b * u + a * v
  {}

  lemma Below(a: nat, b: nat, v: nat, r: nat)
    requires v < b && r < a
    ensures a * v + r < a * b
  {
    assert a * v + a == a * (v + 1);
    assert a * (v + 1) <= a * b;
  }

  function Value(s: seq<byte>): nat { if s == [] then 0 else s[0] + 0x100 * Value(s[1..]) }

  function Reverse(s: seq<byte>): (r: seq<byte>)
    ensures |r| == |s|
  {
    if s == [] then [] else Reverse(s[1..]) + [s[0]]
  }

  lemma {:induction false} ReverseAt(s: seq<byte>, i: nat)
    requires i < |s|
    ensures Reverse(s)[i] == s[|s| - 1 - i]
  {
    if i < |s| - 1 { ReverseAt(s[1..], i); }
  }

  lemma ReverseTwice(s: seq<byte>)
    ensures Reverse(Reverse(s)) == s
  {
    forall i | 0 <= i < |s| ensures Reverse(Reverse(s))[i] == s[i] {
      ReverseAt(Reverse(s), i);
      ReverseAt(s, |s| - 1 - i);
    }
  }

  lemma {:induction false} MemoryOfValue(s: seq<byte>)
    ensures Memory(Value(s), |s|) == s
  {
    if s != [] {
      MemoryOfValue(s[1..]);
      assert Value(s) % 0x100 == s[0] && Value(s) / 0x100 == Value(s[1..]);
    }
  }

  // ---- SWAPBYTES16/32/64: shifts and masks as division and remainder, the disjoint words added ----

  function SwapBytes16(i: nat): nat { i / 0x100 + i % 0x100 * 0x100 }

  function SwapBytes32(i: nat): nat {
    i / 0x100_0000 + i / 0x1_0000 % 0x100 * 0x100 + i / 0x100 % 0x100 * 0x1_0000 + i % 0x100 * 0x100_0000
  }

  function SwapBytes64(i: nat): nat {
    i / 0x100_0000_0000_0000 + i / 0x1_0000_0000_0000 % 0x100 * 0x100
    + i / 0x100_0000_0000 % 0x100 * 0x1_0000 + i / 0x1_0000_0000 % 0x100 * 0x100_0000
    + i / 0x100_0000 % 0x100 * 0x1_0000_0000 + i / 0x1_0000 % 0x100 * 0x100_0000_0000
    + i / 0x100 % 0x100 * 0x1_0000_0000_0000 + i % 0x100 * 0x100_0000_0000_0000
  }

  function SwapBytes(w: Width, x: nat): nat {
    match w case Int16 => SwapBytes16(x) case Int32 => SwapBytes32(x) case Int64 => SwapBytes64(x)
  }

  /** The byte d of a word, with r below it and q above it */
  lemma Digit(x: nat, k: nat, r: nat, d: byte, q: nat)
    requires x == k * (0x100 * q + d) + r && r < k
    ensures x / k % 0x100 == d
  {
    Quotient(x, k, 0x100 * q + d, r);
    Quotient(0x100 * q + d, 0x100, q, d);
  }

  lemma Swap16(a: byte, b: byte)
    ensures SwapBytes16(a + 0x100 * b) == b + 0x100 * a
  {
    Quotient(a + 0x100 * b, 0x100, b, a);
  }

  lemma Swap32(a: byte, b: byte, c: byte, d: byte)
    ensures SwapBytes32(Four(a, b, c, d)) == Four(d, c, b, a)
  {
    var x := a + 0x100 * b + 0x1_0000 * c + 0x100_0000 * d;
    Quotient(x, 0x100_0000, d, a + 0x100 * b + 0x1_0000 * c);
    Digit(x, 0x1_0000, a + 0x100 * b, c, d);
    Digit(x, 0x100, a, b, c + 0x100 * d);
    Quotient(x, 0x100, b + 0x100 * c + 0x1_0000 * d, a);
  }

  function Join(l: nat, h: nat): nat { l + 0x1_0000_0000 * h }

  function Four(a: byte, b: byte, c: byte, d: byte): nat { a + 0x100 * b + 0x1_0000 * c + 0x100_0000 * d }

  lemma Swap64(a: byte, b: byte, c: byte, d: byte, e: byte, f: byte, g: byte, h: byte)
    ensures SwapBytes64(Join(Four(a, b, c, d), Four(e, f, g, h))) == Join(Four(h, g, f, e), Four(d, c, b, a))
  {
    var x := Join(Four(a, b, c, d), Four(e, f, g, h));
    var l := Four(a, b, c, d);
    Quotient(x, 0x100_0000_0000_0000, h, l + 0x1_0000_0000 * e + 0x100_0000_0000 * f + 0x1_0000_0000_0000 * g);
    Digit(x, 0x1_0000_0000_0000, l + 0x1_0000_0000 * e + 0x100_0000_0000 * f, g, h);
    Digit(x, 0x100_0000_0000, l + 0x1_0000_0000 * e, f, g + 0x100 * h);
    Digit(x, 0x1_0000_0000, l, e, f + 0x100 * g + 0x1_0000 * h);
    var u := Four(e, f, g, h);
    Digit(x, 0x100_0000, a + 0x100 * b + 0x1_0000 * c, d, u);
    Digit(x, 0x1_0000, a + 0x100 * b, c, d + 0x100 * u);
    Digit(x, 0x100, a, b, c + 0x100 * d + 0x1_0000 * u);
    Quotient(x, 0x100, b + 0x100 * c + 0x1_0000 * d + 0x100_0000 * u, a);
  }

  /** Each swap reverses the bytes of its word. */
  lemma SwapReverses(w: Width, s: seq<byte>)
    requires |s| == Size(w)
    ensures SwapBytes(w, Value(s)) == Value(Reverse(s))
  {
    match w case Int16 => Reverses16(s); case Int32 => Reverses32(s); case Int64 => Reverses64(s);
  }

  lemma Reverses16(s: seq<byte>)
    requires |s| == 2
    ensures SwapBytes16(Value(s)) == Value(Reverse(s))
  {
    hide SwapBytes16, Reverse, Value;
    ReverseAt(s, 0); ReverseAt(s, 1);
    Value2(s);
    Value2(Reverse(s));
    Swap16(s[0], s[1]);
  }

  lemma Reverses32(s: seq<byte>)
    requires |s| == 4
    ensures SwapBytes32(Value(s)) == Value(Reverse(s))
  {
    hide SwapBytes32, Reverse, Value;
    ReverseAt(s, 0); ReverseAt(s, 1); ReverseAt(s, 2); ReverseAt(s, 3);
    Value4(s);
    Value4(Reverse(s));
    Swap32(s[0], s[1], s[2], s[3]);
  }

  lemma Reverses64(s: seq<byte>)
    requires |s| == 8
    ensures SwapBytes64(Value(s)) == Value(Reverse(s))
  {
    hide SwapBytes64, Reverse, Value;
    ReverseAt(s, 0); ReverseAt(s, 1); ReverseAt(s, 2); ReverseAt(s, 3);
    ReverseAt(s, 4); ReverseAt(s, 5); ReverseAt(s, 6); ReverseAt(s, 7);
    Value8(s);
    Value8(Reverse(s));
    Swap64(s[0], s[1], s[2], s[3], s[4], s[5], s[6], s[7]);
  }

  lemma Value2(s: seq<byte>)
    requires |s| == 2
    ensures Value(s) == 0x100 * s[1] as nat + s[0] as nat
  {
    assert Value(s[1..]) == s[1] + 0x100 * Value(s[1..][1..]);
  }

  lemma Value4(s: seq<byte>)
    requires |s| == 4
    ensures Value(s) == Four(s[0], s[1], s[2], s[3])
  {
    Value2(s[2..]);
    assert s[1..][1..] == s[2..];
  }

  lemma Value8(s: seq<byte>)
    requires |s| == 8
    ensures Value(s) == Join(Four(s[0], s[1], s[2], s[3]), Four(s[4], s[5], s[6], s[7]))
  {
    Value4(s[4..]);
    assert s[1..][1..] == s[2..] && s[2..][1..] == s[3..] && s[3..][1..] == s[4..];
    assert Value(s[2..]) == s[2] + 0x100 * Value(s[3..]) && Value(s[3..]) == s[3] + 0x100 * Value(s[4..]);
  }

  lemma {:induction false} ValueOfMemory(x: nat, n: nat)
    ensures Value(Memory(x, n)) <= x
    ensures Value(Memory(x, n)) == x <==> x < Power(n)
  {
    if n > 0 {
      ValueOfMemory(x / 0x100, n - 1);
      assert Memory(x, n)[1..] == Memory(x / 0x100, n - 1);
    }
  }

  lemma {:induction false} ValueBound(s: seq<byte>)
    ensures Value(s) < Power(|s|)
  {
    if s != [] { ValueBound(s[1..]); }
  }

  lemma Limits(w: Width)
    ensures Power(Size(w)) == Limit(w)
  {
    assert Power(2) == 0x1_0000;
    assert Power(4) == 0x1_0000_0000;
    if w.Int64? {
      assert Power(6) == 0x1_0000 * Power(4);
      assert Power(8) == 0x1_0000 * Power(6);
    }
  }

  /** Swapping twice changes no word. */
  lemma SwapTwice(w: Width, x: nat)
    requires x < Limit(w)
    ensures SwapBytes(w, x) < Limit(w) && SwapBytes(w, SwapBytes(w, x)) == x
  {
    Limits(w);
    var s := Memory(x, Size(w));
    ValueOfMemory(x, Size(w));
    SwapReverses(w, s);
    SwapReverses(w, Reverse(s));
    ReverseTwice(s);
    ValueBound(Reverse(s));
  }

  // ---- hosts ----

  /** The bytes of a word in the memory of a host, and back */
  function HostBytes(host: Host, x: nat, n: nat): (s: seq<byte>)
    ensures |s| == n
  {
    if host.LittleEndian? then Memory(x, n) else Reverse(Memory(x, n))
  }

  function HostValue(host: Host, s: seq<byte>): nat { if host.LittleEndian? then Value(s) else Value(Reverse(s)) }

  /** tw_hton and tw_ntoh */
  function Hton(host: Host, w: Width, x: nat): nat { if host.LittleEndian? then SwapBytes(w, x) else x }

  /** What is written does not depend on the host: most significant byte first. */
  lemma Wire(host: Host, w: Width, x: nat)
    requires x < Limit(w)
    ensures HostBytes(host, Hton(host, w, x), Size(w)) == Reverse(Memory(x, Size(w)))
  {
    Limits(w);
    var s := Memory(x, Size(w));
    ValueOfMemory(x, Size(w));
    SwapReverses(w, s);
    MemoryOfValue(Reverse(s));
  }

  /** Nor does what is read. */
  lemma Unwire(host: Host, w: Width, s: seq<byte>)
    requires |s| == Size(w)
    ensures Hton(host, w, HostValue(host, s)) == Value(Reverse(s)) < Limit(w)
    ensures Reverse(Memory(Value(Reverse(s)), Size(w))) == s
  {
    Limits(w);
    SwapReverses(w, s);
    ValueBound(Reverse(s));
    MemoryOfValue(Reverse(s));
    ReverseTwice(s);
  }
}
