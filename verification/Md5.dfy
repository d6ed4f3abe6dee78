/** MD5 without its compression function (src/core/md5.cpp:110-201): buffering, the two-word bit counter
    and the padding of RFC 1321, sections 3.1 and 3.2.  Transform is a parameter. */
module Md5 {
  import opened BlockHash
  import ByteOrder
  import opened Bytes

  const INITIAL: seq<word> := [0x67452301, 0xefcdab89, 0x98badcfe, 0x10325476]

  type Transform = (seq<word>, seq<word>) -> seq<word>

  ghost predicate KeepsLength(transform: Transform) {
    forall s: seq<word>, w: seq<word> :: |s| == 4 ==> |transform(s, w)| == 4
  }

  ghost function Md5Hash(transform: Transform): (h: Hash)
    ensures ValidHash(h)
  {
    Hash(64, (s: seq<word>, b: seq<byte>) => transform(s, WordsLE(b)))
  }

  /** PADDING */
  function PaddingBytes(): (p: seq<byte>)
    ensures |p| == 64 && p[0] == 0x80 && forall i :: 0 < i < 64 ==> p[i] == 0
  {
    [0x80] + seq(63, _ => 0)
  }

  /** RFC 1321: a one bit, then the fewest zero bits that reach 448 modulo 512, then the bit length in
      64 bits, low-order word and low-order byte first. */
  ghost function Padded(message: seq<byte>): seq<byte> {
    var n := |message|;
    message + PaddingTo56(n) + (BytesLE(8 * n % WORD) + BytesLE(8 * n / WORD % WORD))
  }

  /** Whole blocks, and at their end the bit length modulo 2^64, low byte first */
  lemma PaddedIs(message: seq<byte>)
    ensures var p := Padded(message);
            PaddedTo(p, message, 64, 8)
            && ByteOrder.Value(p[|p| - 8..]) == 8 * |message| % 0x1_0000_0000_0000_0000
  {
    var n := |message|;
    PaddingReaches56(n);
    LengthValue(8 * n);
    hide BytesLE;
    var tail := BytesLE(8 * n % WORD) + BytesLE(8 * n / WORD % WORD);
    var front := message + PaddingTo56(n);
    Mod64(|front| + 8, |front| / 64 + 1, 0);
    assert (front + tail)[|front|..] == tail;
  }

  /** One block: Transform gets its sixteen words, low byte first. */
  lemma OneBlock(transform: Transform, s: seq<word>, block: seq<byte>)
    requires |block| == 64
    ensures exists words :: ReadLE(words, block) && Fold(Md5Hash(transform), s, block) == transform(s, words)
  {
    WordsAreRead(block);
    hide WordsLE, ReadLE;
    assert block[..64] == block && block[64..] == [];
    var h := Md5Hash(transform);
    assert h.compress(s, block) == transform(s, WordsLE(block));
    assert Fold(h, h.compress(s, block), []) == h.compress(s, block);
  }

  ghost function Digest(transform: Transform, message: seq<byte>): seq<word> {
    Fold(Md5Hash(transform), INITIAL, Padded(message))
  }

  /** The fold of Transform over the message padded as RFC 1321 asks, sections 3.1 to 3.4 */
  ghost predicate IsDigest(transform: Transform, message: seq<byte>, d: seq<word>) {
    exists p ::
      && PaddedTo(p, message, 64, 8)
      && ByteOrder.Value(p[|p| - 8..]) == 8 * |message| % 0x1_0000_0000_0000_0000
      && d == Fold(Md5Hash(transform), [0x67452301, 0xefcdab89, 0x98badcfe, 0x10325476], p)
  }

  lemma DigestIs(transform: Transform, message: seq<byte>)
    ensures IsDigest(transform, message, Digest(transform, message))
  {
    PaddedIs(message);
    hide Padded, PaddedTo, Fold, Md5Hash;
  }

  class Md5Context {
    var lo: word           // i[0]
    var hi: word           // i[1]
    var buf: seq<word>
    const input: array<byte>  // in[64]
    const digest: array<byte>
    const transform: Transform
    ghost var fed: seq<byte>  // every byte since MD5Init

    ghost predicate Valid()
      reads this, input
    {
      && input.Length == 64 && digest.Length == 16 && digest != input
      && KeepsLength(transform)
      && Absorbed(fed) && Counts(lo, hi, |fed|)
    }

    /** The buffers hold exactly what the bytes fed so far determine. */
    ghost predicate Absorbed(message: seq<byte>)
      requires input.Length == 64
      reads this`buf, input
    {
      var h := Md5Hash(transform);
      |buf| == 4 && buf == Fold(h, INITIAL, message) && input[..|message| % 64] == Rest(h, message)
    }

    /** MD5Init */
    constructor (transform: Transform)
      requires KeepsLength(transform)
      ensures Valid() && fed == [] && fresh(input) && fresh(digest) && this.transform == transform
      ensures buf == [0x67452301, 0xefcdab89, 0x98badcfe, 0x10325476] && lo == hi == 0
    {
      this.transform := transform;
      input, digest := new byte[64](_ => 0), new byte[16](_ => 0);
      lo, hi, buf, fed := 0, 0, INITIAL, [];
    }

    /** The decoding loop before each Transform: the first n words of the buffer. */
    method DecodeWords(n: nat) returns (words: seq<word>)
      requires input.Length == 64 && n <= 16
      ensures |words| == n && forall i :: 0 <= i < n ==> words[i] == WordLE(input[4 * i..4 * i + 4])
    {
      words := [];
      for i := 0 to n
        invariant |words| == i && forall j :: 0 <= j < i ==> words[j] == WordLE(input[4 * j..4 * j + 4])
      {
        words := words + [WordLE(input[4 * i..4 * i + 4])];
      }
    }

    /** One pass of the byte loop. */
    method PutByte(c: byte, ghost message: seq<byte>, mdi: nat) returns (next: nat)
      requires input.Length == 64 && mdi == |message| % 64 && Absorbed(message)
      requires KeepsLength(transform)
      modifies this`buf, input
      ensures Absorbed(message + [c]) && next == |message + [c]| % 64
    {
      hide Fold, Rest, WordsLE, WordLE;
      ghost var h := Md5Hash(transform);
      ghost var pending := input[..mdi];
      input[mdi] := c;
      assert input[..mdi + 1] == pending + [c];
      next := mdi + 1;
      if next == 64 {
        AppendFull(h, INITIAL, message, [c]);
        var words := DecodeWords(16);
        assert words == WordsLE(input[..]) && input[..64] == input[..];
        buf := transform(buf, words);
        next := 0;
      } else {
        AppendShort(h, INITIAL, message, [c]);
      }
      NextPosition(|message|);
    }

    /** MD5Update */
    method Update(data: seq<byte>)
      requires Valid() && |data| < WORD
      modifies this, input
      ensures Valid() && fed == old(fed) + data
    {
      hide Absorbed, Counts, Md5Hash, KeepsLength;
      CounterPosition(lo, hi, |fed|);
      var mdi := lo / 8 % 64;
      AddBits(|data|);
      Feed(data, mdi);
      fed := fed + data;
    }

    method AddBits(len: nat)
      requires Counts(lo, hi, |fed|) && len < WORD
      modifies this`lo, this`hi
      ensures Counts(lo, hi, |fed| + len)
    {
      hide Counts, AddLow, Incremented;
      CounterStep(lo, hi, |fed|, len);
      var sum := AddLow(lo, len);
      hi := Incremented(hi, sum < lo);
      lo := sum;
      hi := (hi + len / 0x2000_0000) % WORD;
    }

    method Feed(data: seq<byte>, position: nat)
      requires input.Length == 64 && position == |fed| % 64 && Absorbed(fed) && KeepsLength(transform)
      modifies this`buf, input
      ensures Absorbed(fed + data)
    {
      hide *;
      var mdi := position;
      assert fed + data[..0] == fed;
      for k := 0 to |data|
        invariant mdi == |fed + data[..k]| % 64 && Absorbed(fed + data[..k])
      {
        mdi := PutByte(data[k], fed + data[..k], mdi);
        assert fed + data[..k] + [data[k]] == fed + data[..k + 1];
      }
      assert data[..|data|] == data;
    }

    /** MD5Final */
    method Final()
      requires Valid()
      modifies this, input, digest
      ensures buf == Digest(transform, old(fed)) && |buf| == 4 && IsDigest(transform, old(fed), buf)
      ensures forall i :: 0 <= i < 4 ==> digest[4 * i..4 * i + 4] == BytesLE(buf[i])
    {
      DigestIs(transform, fed);
      hide Absorbed, Counts, Md5Hash, KeepsLength, Fold, Padded, PaddingTo56, BytesLE, IsDigest, Digest;
      ghost var message := fed;
      var low, high := lo, hi;
      CounterPosition(lo, hi, |fed|);
      var mdi := lo / 8 % 64;
      var padLen := if mdi < 56 then 56 - mdi else 120 - mdi;
      PaddingTaken(|fed|, padLen);
      CountedBits(low, high, |fed|);
      Update(PaddingBytes()[..padLen]);
      Compress(message, low, high);
      StoreDigest();
    }

    /** The last block: fourteen words from the buffer, then the saved counter. */
    method Compress(ghost message: seq<byte>, low: word, high: word)
      requires input.Length == 64 && KeepsLength(transform) && Absorbed(message + PaddingTo56(|message|))
      requires low == 8 * |message| % WORD && high == 8 * |message| / WORD % WORD
      modifies this`buf
      ensures buf == Digest(transform, message) && |buf| == 4
    {
      hide Fold, PaddingTo56, BytesLE, WordLE;
      ghost var h := Md5Hash(transform);
      ghost var padded, tail := message + PaddingTo56(|message|), BytesLE(low) + BytesLE(high);
      PaddingReaches56(|message|);
      var words := DecodeWords(14);
      words := words + [low, high];
      forall i | 0 <= i < 14 ensures input[..56][4 * i..4 * i + 4] == input[4 * i..4 * i + 4] {}
      BlockWords(input[..56], words, low, high);
      AppendFull(h, INITIAL, padded, tail);
      assert Padded(message) == padded + tail;
      buf := transform(buf, words);
    }

    method StoreDigest()
      requires digest.Length == 16 && |buf| == 4
      modifies digest
      ensures forall i :: 0 <= i < 4 ==> digest[4 * i..4 * i + 4] == BytesLE(buf[i])
    {
      for i := 0 to 4
        invariant forall j :: 0 <= j < i ==> digest[4 * j..4 * j + 4] == BytesLE(buf[j])
      {
        var w := buf[i];
        digest[4 * i], digest[4 * i + 1], digest[4 * i + 2], digest[4 * i + 3] :=
          w % 0x100, w / 0x100 % 0x100, w / 0x1_0000 % 0x100, w / 0x100_0000;
      }
    }
  }

  /** The code's padLen bytes of PADDING are the padding of RFC 1321. */
  lemma PaddingTaken(n: nat, padLen: nat)
    requires padLen == if n % 64 < 56 then 56 - n % 64 else 120 - n % 64
    ensures padLen <= 64 && PaddingBytes()[..padLen] == PaddingTo56(n)
  {}

  lemma BlockWords(b: seq<byte>, words: seq<word>, low: word, high: word)
    requires |b| == 56 && |words| == 16 && words[14] == low && words[15] == high
    requires forall i :: 0 <= i < 14 ==> words[i] == WordLE(b[4 * i..4 * i + 4])
    ensures words == WordsLE(b + (BytesLE(low) + BytesLE(high)))
  {
    hide WordLE, BytesLE;
    var block := b + (BytesLE(low) + BytesLE(high));
    WordOfBytes(low);
    WordOfBytes(high);
    forall i | 0 <= i < 14 ensures block[4 * i..4 * i + 4] == b[4 * i..4 * i + 4] {}
    assert block[56..60] == BytesLE(low) && block[60..64] == BytesLE(high);
    forall i | 0 <= i < 16 ensures words[i] == WordsLE(block)[i] {
      if i < 14 {
        assert words[i] == WordLE(block[4 * i..4 * i + 4]);
      } else if i == 14 {
        assert words[i] == WordLE(block[4 * 14..4 * 14 + 4]);
      } else {
        assert words[i] == WordLE(block[4 * 15..4 * 15 + 4]);
      }
    }
  }

  lemma NextPosition(n: nat)
    ensures (n + 1) % 64 == if n % 64 == 63 then 0 else n % 64 + 1
  {}

  /** MD5 of a message fed in any pieces: the result depends on the whole message only. */
  method DigestOf(transform: Transform, chunks: seq<seq<byte>>) returns (digest: seq<byte>)
    requires KeepsLength(transform) && forall i :: 0 <= i < |chunks| ==> |chunks[i]| < WORD
    ensures var d := Digest(transform, Concat(chunks));
            |digest| == 16 && |d| == 4 && forall i :: 0 <= i < 4 ==> digest[4 * i..4 * i + 4] == BytesLE(d[i])
  {
    hide KeepsLength, Digest, BytesLE;
    var context := new Md5Context(transform);
    for i := 0 to |chunks|
      invariant fresh(context) && fresh(context.input) && fresh(context.digest) && context.transform == transform
      invariant context.Valid() && context.fed == Concat(chunks[..i])
    {
      ConcatOne(chunks, i);
      context.Update(chunks[i]);
    }
    assert chunks[..|chunks|] == chunks;
    context.Final();
    digest := context.digest[..];
    forall i | 0 <= i < 4 ensures digest[4 * i..4 * i + 4] == BytesLE(context.buf[i]) {
      assert digest[4 * i..4 * i + 4] == context.digest[4 * i..4 * i + 4];
    }
  }
}
