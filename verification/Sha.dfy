/** SHA without its compression function (src/core/sha.cpp:157-168, 243-327), on a little-endian machine:
    the data buffer is used as bytes, as native words, and byte-reversed in place. */
module Sha {
  import opened BlockHash
  import ByteOrder
  import opened Bytes

  const INITIAL: seq<word> := [0x67452301, 0xEFCDAB89, 0x98BADCFE, 0x10325476, 0xC3D2E1F0]

  /** shsTransform: digest and sixteen data words to digest */
  type Transform = (seq<word>, seq<word>) -> seq<word>

  /** Most significant byte first, as FIPS 180-1 reads a message. */
  function WordBE(b: seq<byte>): word
    requires |b| == 4
  {
    WordLE([b[3], b[2], b[1], b[0]])
  }

  ghost function BytesBE(w: word): (b: seq<byte>)
    ensures |b| == 4
  {
    var b := BytesLE(w);
    [b[3], b[2], b[1], b[0]]
  }

  ghost function WordsBE(b: seq<byte>): (w: seq<word>)
    ensures |w| == |b| / 4
    ensures forall i :: 0 <= i < |w| ==> w[i] == WordBE(b[4 * i..4 * i + 4])
  {
    seq(|b| / 4, i requires 0 <= i < |b| / 4 => WordBE(b[4 * i..4 * i + 4]))
  }

  ghost function ShaHash(transform: Transform): (h: Hash)
    ensures ValidHash(h) && h.size == 64
  {
    Hash(64, (s: seq<word>, b: seq<byte>) => transform(s, WordsBE(b)))
  }

  /** FIPS 180-1, section 4: a one bit, zeros to 448 modulo 512, then the bit length as two big-endian words. */
  ghost function Padded(message: seq<byte>): seq<byte> {
    var n := |message|;
    message + PaddingTo56(n) + (BytesBE(8 * n / WORD % WORD) + BytesBE(8 * n % WORD))
  }

  /** Whole blocks, and at their end the bit length modulo 2^64, high byte first */
  lemma PaddedIs(message: seq<byte>)
    ensures var p := Padded(message);
            PaddedTo(p, message, 64, 8)
            && ByteOrder.Value(ByteOrder.Reverse(p[|p| - 8..])) == 8 * |message| % 0x1_0000_0000_0000_0000
  {
    var n := |message|;
    PaddingReaches56(n);
    LengthValue(8 * n);
    var hi, lo := 8 * n / WORD % WORD, 8 * n % WORD;
    BytesReversed(hi, lo);
    hide BytesBE, BytesLE;
    var tail := BytesBE(hi) + BytesBE(lo);
    var front := message + PaddingTo56(n);
    Mod64(|front| + 8, |front| / 64 + 1, 0);
    assert (front + tail)[|front|..] == tail;
  }

  lemma BytesReversed(hi: word, lo: word)
    ensures ByteOrder.Reverse(BytesBE(hi) + BytesBE(lo)) == BytesLE(lo) + BytesLE(hi)
  {
    hide BytesLE, ByteOrder.Reverse;
    var s := BytesBE(hi) + BytesBE(lo);
    forall i | 0 <= i < 8 ensures ByteOrder.Reverse(s)[i] == s[7 - i] { ByteOrder.ReverseAt(s, i); }
    assert forall i :: 0 <= i < 8 ==> ByteOrder.Reverse(s)[i] == (BytesLE(lo) + BytesLE(hi))[i];
  }

  lemma FourReversed(b: seq<byte>)
    requires |b| == 4
    ensures ByteOrder.Reverse(b) == [b[3], b[2], b[1], b[0]]
  {
    hide ByteOrder.Reverse;
    forall i | 0 <= i < 4 ensures ByteOrder.Reverse(b)[i] == b[3 - i] { ByteOrder.ReverseAt(b, i); }
  }

  lemma WordIsValueBE(b: seq<byte>)
    requires |b| == 4
    ensures WordBE(b) == ByteOrder.Value(ByteOrder.Reverse(b))
  {
    FourReversed(b);
    WordIsValue([b[3], b[2], b[1], b[0]]);
    hide WordLE, ByteOrder.Value, ByteOrder.Reverse;
  }

  /** The words are the numbers of the bytes of the block, four at a time, high byte first. */
  ghost predicate ReadBE(w: seq<word>, b: seq<byte>) {
    |b| == 4 * |w| && forall i :: 0 <= i < |w| ==> w[i] == ByteOrder.Value(ByteOrder.Reverse(b[4 * i..4 * i + 4]))
  }

  lemma WordsAreReadBE(b: seq<byte>)
    requires |b| % 4 == 0
    ensures ReadBE(WordsBE(b), b)
  {
    hide WordBE, ByteOrder.Value, ByteOrder.Reverse;
    var w := WordsBE(b);
    forall i | 0 <= i < |w| ensures w[i] == ByteOrder.Value(ByteOrder.Reverse(b[4 * i..4 * i + 4])) {
      WordIsValueBE(b[4 * i..4 * i + 4]);
    }
  }

  /** One block: shsTransform gets its sixteen words, high byte first. */
  lemma OneBlockRead(transform: Transform, s: seq<word>, block: seq<byte>)
    requires |block| == 64
    ensures exists words :: ReadBE(words, block) && Fold(ShaHash(transform), s, block) == transform(s, words)
  {
    WordsAreReadBE(block);
    hide WordsBE, ReadBE;
    assert block[..64] == block && block[64..] == [];
    var h := ShaHash(transform);
    assert h.compress(s, block) == transform(s, WordsBE(block));
    assert Fold(h, h.compress(s, block), []) == h.compress(s, block);
  }

  ghost function Digest(transform: Transform, message: seq<byte>): seq<word> {
    Fold(ShaHash(transform), INITIAL, Padded(message))
  }

  /** The two rotate-and-mask lines of byteReverse, on one word. */
  function ReverseWord(w: word): word {
    var value: nat := w % 0x1_0000 * 0x1_0000 + w / 0x1_0000;       // (w << 16) | (w >> 16)
    var v0, v1, v2, v3 := value % 0x100, value / 0x100 % 0x100, value / 0x1_0000 % 0x100, value / 0x100_0000;
    var high: nat := v3 * 0x1_0000 + v1;                            // (value & 0xFF00FF00) >> 8
    var low: nat := v2 * 0x100_0000 + v0 * 0x100;                   // (value & 0x00FF00FF) << 8
    high + low
  }

  lemma ReverseWordIs(b: seq<byte>)
    requires |b| == 4
    ensures ReverseWord(WordLE(b)) == WordBE(b)
  {
    var b0: nat, b1: nat, b2: nat, b3: nat := b[0], b[1], b[2], b[3];
    var w: nat := WordLE(b);
    assert w == 0x1_0000 * (b2 + 0x100 * b3) + (b0 + 0x100 * b1);
    Halves(w, b2 + 0x100 * b3, b0 + 0x100 * b1);
    var value := w % 0x1_0000 * 0x1_0000 + w / 0x1_0000;
    assert value == 0x100_0000 * b1 + 0x1_0000 * b0 + 0x100 * b3 + b2;
    FourDigits(value, b2, b3, b0, b1);
  }

  lemma Halves(w: nat, high: nat, low: nat)
    requires w == 0x1_0000 * high + low && low < 0x1_0000
    ensures w / 0x1_0000 == high && w % 0x1_0000 == low
  {}

  lemma FourDigits(v: nat, d0: nat, d1: nat, d2: nat, d3: nat)
    requires d0 < 0x100 && d1 < 0x100 && d2 < 0x100 && d3 < 0x100
    requires v == 0x100_0000 * d3 + 0x1_0000 * d2 + 0x100 * d1 + d0
    ensures v % 0x100 == d0 && v / 0x100 % 0x100 == d1 && v / 0x1_0000 % 0x100 == d2 && v / 0x100_0000 == d3
  {
    assert v / 0x100 == 0x1_0000 * d3 + 0x100 * d2 + d1;
    assert v / 0x1_0000 == 0x100 * d3 + d2;
  }

  /** The fold of shsTransform over the message padded as FIPS 180-1 asks, sections 4 and 7 */
  ghost predicate IsDigest(transform: Transform, message: seq<byte>, d: seq<word>) {
    exists p ::
      && PaddedTo(p, message, 64, 8)
      && ByteOrder.Value(ByteOrder.Reverse(p[|p| - 8..])) == 8 * |message| % 0x1_0000_0000_0000_0000
      && d == Fold(ShaHash(transform), [0x67452301, 0xefcdab89, 0x98badcfe, 0x10325476, 0xc3d2e1f0], p)
  }

  lemma DigestIs(transform: Transform, message: seq<byte>)
    ensures IsDigest(transform, message, Digest(transform, message))
  {
    PaddedIs(message);
    hide Padded, PaddedTo, Fold, ShaHash;
  }

  class ShsInfo {
    var digest: seq<word>
    var countLo: word
    var countHi: word
    const data: array<byte>  // the memory of data[16]
    const transform: Transform
    ghost var fed: seq<byte>

    /** The digest covers the whole blocks; the buffer starts with the bytes after them. */
    ghost predicate Valid()
      reads this, data
    {
      && data.Length == 64 && Counts(countLo, countHi, |fed|)
      && digest == Fold(ShaHash(transform), INITIAL, fed)
      && data[..|fed| % 64] == Rest(ShaHash(transform), fed)
    }

    /** shsInit */
    constructor (transform: Transform)
      ensures Valid() && fed == [] && fresh(data) && this.transform == transform
      ensures digest == [0x67452301, 0xefcdab89, 0x98badcfe, 0x10325476, 0xc3d2e1f0] && countLo == countHi == 0
    {
      this.transform, data := transform, new byte[64](_ => 0);
      digest, countLo, countHi, fed := INITIAL, 0, 0, [];
    }

    /** memcpy into the buffer */
    method CopyData(at: nat, src: seq<byte>)
      requires at + |src| <= data.Length
      modifies data
      ensures data[..] == old(data[..at]) + src + old(data[at + |src|..])
    {
      forall i | 0 <= i < |src| { data[at + i] := src[i]; }
    }

    /** Native (little-endian) load and store of data[i] */
    function Load(i: nat): word
      requires data.Length == 64 && i < 16
      reads data
    {
      WordLE(data[4 * i..4 * i + 4])
    }

    method Store(i: nat, w: word)
      requires data.Length == 64 && i < 16
      modifies data
      ensures Load(i) == w && data[4 * i + 4..] == old(data[4 * i + 4..])
      ensures forall j :: 0 <= j < 16 && j != i ==> Load(j) == old(Load(j))
    {
      hide WordLE, BytesLE;
      WordOfBytes(w);
      CopyData(4 * i, BytesLE(w));
      assert data[4 * i..4 * i + 4] == data[..][4 * i..4 * i + 4] == BytesLE(w);
      assert data[4 * i + 4..] == data[..][4 * i + 4..];
      forall j | 0 <= j < 16 && j != i ensures data[4 * j..4 * j + 4] == old(data[4 * j..4 * j + 4]) {
        assert data[4 * j..4 * j + 4] == data[..][4 * j..4 * j + 4] == old(data[..])[4 * j..4 * j + 4];
      }
    }

    /** byteReverse over the first `words` words: native loads then see the big-endian words. */
    method ByteReverse(words: nat)
      requires data.Length == 64 && words <= 16
      modifies data
      ensures forall i :: 0 <= i < words ==> Load(i) == WordBE(old(data[..])[4 * i..4 * i + 4])
      ensures data[4 * words..] == old(data[4 * words..])
    {
      hide WordLE, WordBE, BytesLE, ReverseWord;
      ghost var before := data[..];
      for count := 0 to words
        invariant forall i :: 0 <= i < count ==> Load(i) == WordBE(before[4 * i..4 * i + 4])
        invariant data[4 * count..] == before[4 * count..]
      {
        ReverseWordIs(data[4 * count..4 * count + 4]);
        assert data[4 * count..4 * count + 4] == data[4 * count..][..4] == before[4 * count..4 * count + 4];
        Store(count, ReverseWord(Load(count)));
        assert Load(count) == WordBE(before[4 * count..4 * count + 4]);
      }
    }

    /** shsTransform on the native words of the buffer */
    method RunTransform(ghost words: seq<word>)
      requires data.Length == 64 && |words| == 16 && forall i :: 0 <= i < 16 ==> Load(i) == words[i]
      modifies this`digest
      ensures digest == transform(old(digest), words)
    {
      hide WordLE;
      var memory := data[..];
      var view := seq(16, i requires 0 <= i < 16 => WordLE(memory[4 * i..4 * i + 4]));
      forall i | 0 <= i < 16 ensures view[i] == words[i] {
        assert memory[4 * i..4 * i + 4] == data[4 * i..4 * i + 4];
      }
      assert view == words;
      digest := transform(digest, view);
    }

    /** Byte-reverse the buffer and transform: one compression of its bytes. */
    method ReverseAndTransform()
      requires data.Length == 64
      modifies this`digest, data
      ensures digest == ShaHash(transform).compress(old(digest), old(data[..]))
    {
      hide WordLE, WordBE;
      ghost var words := WordsBE(data[..]);
      ByteReverse(16);
      RunTransform(words);
    }

    method AddBits(len: nat)
      requires Counts(countLo, countHi, |fed|) && len < WORD
      modifies this`countLo, this`countHi
      ensures Counts(countLo, countHi, |fed| + len)
    {
      hide Counts, AddLow, Incremented;
      CounterStep(countLo, countHi, |fed|, len);
      var sum := AddLow(countLo, len);
      countHi := Incremented(countHi, sum < countLo);
      countLo := sum;
      countHi := (countHi + len / 0x2000_0000) % WORD;
    }

    /** shsUpdate.  The source handles a partial block only in the last call, so all earlier calls must
        have added up to whole blocks. */
    method Update(buffer: seq<byte>)
      requires Valid() && |fed| % 64 == 0 && |buffer| < 0x8000_0000
      modifies this, data
      ensures Valid() && fed == old(fed) + buffer
    {
      hide Counts, Fold, Rest, ShaHash;
      AddBits(|buffer|);
      var i := UpdateBlocks(buffer);
      WholeBlocks(|fed| + i, |buffer| - i);
      AppendShort(ShaHash(transform), INITIAL, fed + buffer[..i], buffer[i..]);
      assert fed + buffer[..i] + buffer[i..] == fed + buffer;
      CopyData(0, buffer[i..]);
      assert data[..|buffer| - i] == data[..][..|buffer| - i] == buffer[i..];
      fed := fed + buffer;
    }

    /** The whole blocks of the buffer */
    method UpdateBlocks(buffer: seq<byte>) returns (i: nat)
      requires data.Length == 64 && |fed| % 64 == 0 && digest == Fold(ShaHash(transform), INITIAL, fed)
      modifies this`digest, data
      ensures i <= |buffer| < i + 64 && (|fed| + i) % 64 == 0
      ensures digest == Fold(ShaHash(transform), INITIAL, fed + buffer[..i])
    {
      hide Fold, ShaHash;
      i := 0;
      assert fed + buffer[..0] == fed;
      while |buffer| - i >= 64
        invariant i <= |buffer| && (|fed| + i) % 64 == 0 &&
                  digest == Fold(ShaHash(transform), INITIAL, fed + buffer[..i])
      {
        CompressBlock(fed + buffer[..i], buffer[i..i + 64]);
        assert fed + buffer[..i] + buffer[i..i + 64] == fed + buffer[..i + 64];
        WholeMore(|fed| + i, 64);
        i := i + 64;
      }
    }

    method CompressBlock(ghost message: seq<byte>, block: seq<byte>)
      requires data.Length == 64 && |block| == 64 && |message| % 64 == 0
      requires digest == Fold(ShaHash(transform), INITIAL, message)
      modifies this`digest, data
      ensures digest == Fold(ShaHash(transform), INITIAL, message + block)
    {
      hide Fold;
      AppendFull(ShaHash(transform), INITIAL, message, block);
      assert Rest(ShaHash(transform), message) + block == block;
      CopyData(0, block);
      assert data[..] == block;
      ReverseAndTransform();
    }

    /** memset(data + from, 0, to - from) */
    method Clear(from: nat, to: nat)
      requires from <= to <= data.Length
      modifies data
      ensures data[..] == old(data[..from]) + Zeros(to - from) + old(data[to..])
    {
      forall i | from <= i < to { data[i] := 0; }
    }

    /** shsFinal */
    method Final()
      requires Valid()
      modifies this, data
      ensures digest == Digest(transform, old(fed)) && IsDigest(transform, old(fed), digest)
    {
      DigestIs(transform, fed);
      hide IsDigest;
      hide Counts, Fold, Rest, ShaHash, BytesBE, Zeros, Padded;
      ghost var n, h, message := |fed|, ShaHash(transform), fed;
      ghost var rest := Rest(h, message);
      var lowBitcount, highBitcount := countLo, countHi;
      CounterPosition(countLo, countHi, n);
      CountedBits(countLo, countHi, n);
      var count := countLo / 8 % 64;
      CopyData(count, [0x80]);
      count := count + 1;
      PaddingReaches56(n);
      ghost var lengths := BytesBE(highBitcount) + BytesBE(lowBitcount);
      assert data[..count] == data[..][..count] == rest + [0x80];
      if count > 56 {
        ghost var first := [0x80] + Zeros(64 - count);
        Clear(count, 64);
        assert data[..] == rest + first;
        AppendFull(h, INITIAL, message, first);
        ReverseAndTransform();
        Clear(0, 56);
        assert data[..56] == data[..][..56] == Zeros(56);
        AppendFull(h, INITIAL, message + first, Zeros(56) + lengths);
        TwoBlocks(message, first, lengths);
        assert Rest(h, message + first) + (Zeros(56) + lengths) == Zeros(56) + lengths;
        LastBlock(Zeros(56), highBitcount, lowBitcount);
      } else {
        ghost var padding := [0x80] + Zeros(56 - count);
        Clear(count, 56);
        assert data[..56] == data[..][..56] == rest + padding;
        AppendFull(h, INITIAL, message, padding + lengths);
        OneBlock(message, padding, lengths);
        assert rest + (padding + lengths) == rest + padding + lengths;
        LastBlock(rest + padding, highBitcount, lowBitcount);
      }
      ByteReverse(5);  // the source reverses the data buffer here, not the digest
    }

    /** Fifty-six bytes and the two counter words. */
    method LastBlock(ghost bytes: seq<byte>, high: word, low: word)
      requires data.Length == 64 && |bytes| == 56 && data[..56] == bytes
      modifies this`digest, data
      ensures digest == ShaHash(transform).compress(old(digest), bytes + (BytesBE(high) + BytesBE(low)))
    {
      hide WordLE, WordBE, BytesLE, BytesBE;
      ghost var block := bytes + (BytesBE(high) + BytesBE(low));
      ghost var memory := data[..];
      ByteReverse(16);
      Store(14, high);
      Store(15, low);
      LastWords(bytes, high, low);
      forall i | 0 <= i < 14 ensures memory[4 * i..4 * i + 4] == block[4 * i..4 * i + 4] {
        assert memory[4 * i..4 * i + 4] == memory[..56][4 * i..4 * i + 4];
      }
      RunTransform(WordsBE(block));
    }
  }

  lemma WordOfBytesBE(w: word)
    ensures WordBE(BytesBE(w)) == w
  {
    hide WordLE, BytesLE;
    WordOfBytes(w);
    var b := BytesLE(w);
    assert [b[0], b[1], b[2], b[3]] == b;
  }

  lemma LastWords(bytes: seq<byte>, high: word, low: word)
    requires |bytes| == 56
    ensures var w := WordsBE(bytes + (BytesBE(high) + BytesBE(low))); w[14] == high && w[15] == low
  {
    hide WordBE, BytesBE;
    var block := bytes + (BytesBE(high) + BytesBE(low));
    WordOfBytesBE(high);
    WordOfBytesBE(low);
    assert block[4 * 14..4 * 14 + 4] == BytesBE(high) && block[4 * 15..4 * 15 + 4] == BytesBE(low);
  }

  /** A short rest after whole blocks is the position in the pending block. */
  lemma WholeBlocks(whole: nat, rest: nat)
    requires whole % 64 == 0 && rest < 64
    ensures (whole + rest) % 64 == rest
  {
    Mod64(whole + rest, whole / 64, rest);
  }

  lemma OneBlock(message: seq<byte>, padding: seq<byte>, lengths: seq<byte>)
    requires |message| % 64 < 56 && padding == [0x80] + Zeros(55 - |message| % 64)
    requires lengths == BytesBE(8 * |message| / WORD % WORD) + BytesBE(8 * |message| % WORD)
    ensures Padded(message) == message + (padding + lengths)
  {
    assert PaddingTo56(|message|) == padding;
    assert message + (padding + lengths) == message + padding + lengths;
  }

  lemma TwoBlocks(message: seq<byte>, first: seq<byte>, lengths: seq<byte>)
    requires |message| % 64 >= 56 && first == [0x80] + Zeros(63 - |message| % 64)
    requires lengths == BytesBE(8 * |message| / WORD % WORD) + BytesBE(8 * |message| % WORD)
    ensures Padded(message) == message + first + (Zeros(56) + lengths)
  {
    assert PaddingTo56(|message|) == first + Zeros(56);
    assert message + first + (Zeros(56) + lengths) == message + (first + Zeros(56)) + lengths;
  }

  lemma WholeMore(n: nat, m: nat)
    requires n % 64 == 0 && m % 64 == 0
    ensures (n + m) % 64 == 0
  {}

  /** SHA of a message fed in whole blocks and then in one piece of any length: the result depends on the whole
      message only. */
  method DigestOf(transform: Transform, blocks: seq<seq<byte>>, last: seq<byte>) returns (digest: seq<word>)
    requires forall i :: 0 <= i < |blocks| ==> |blocks[i]| % 64 == 0 && |blocks[i]| < 0x8000_0000
    requires |last| < 0x8000_0000
    ensures digest == Digest(transform, Concat(blocks) + last)
  {
    hide Digest;
    var info := new ShsInfo(transform);
    for i := 0 to |blocks|
      invariant fresh(info) && fresh(info.data) && info.transform == transform
      invariant info.Valid() && info.fed == Concat(blocks[..i]) && |info.fed| % 64 == 0
    {
      ConcatOne(blocks, i);
      WholeMore(|info.fed|, |blocks[i]|);
      info.Update(blocks[i]);
    }
    assert blocks[..|blocks|] == blocks;
    info.Update(last);
    info.Final();
    digest := info.digest;
  }
}
