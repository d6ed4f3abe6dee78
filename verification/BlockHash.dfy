/** What the three streaming digests share: a compression function folded over whole blocks, a pending
    partial block, and a bit counter kept in two 32-bit words. */
module BlockHash {
  import ByteOrder
  import opened Bytes
  import opened Modular

  const WORD: nat := 0x1_0000_0000

  /** A digest: block size in bytes and the compression of one block into the chaining value. */
  datatype Hash = Hash(size: nat, compress: (seq<word>, seq<byte>) -> seq<word>)

  ghost predicate ValidHash(h: Hash) { h.size == 64 || h.size == 128 }

  /** The chaining value after all whole blocks of a message. */
  ghost function Fold(h: Hash, s: seq<word>, message: seq<byte>): seq<word>
    requires ValidHash(h)
    decreases |message|
  {
    if |message| < h.size then s else Fold(h, h.compress(s, message[..h.size]), message[h.size..])
  }

  lemma OneBlockLess(n: nat, size: nat)
    requires (size == 64 || size == 128) && n >= size
    ensures (n - size) % size == n % size
  {
    if size == 64 { Quotient(n - 64, 64, n / 64 - 1, n % 64); } else { Quotient(n - 128, 128, n / 128 - 1, n % 128); }
  }

  /** The bytes after the last whole block. */
  ghost function Rest(h: Hash, message: seq<byte>): (r: seq<byte>)
    requires ValidHash(h)
    ensures |r| < h.size && |r| == |message| % h.size
    decreases |message|
  {
    if |message| < h.size then message
    else
      OneBlockLess(|message|, h.size);
      Rest(h, message[h.size..])
  }

  /** The message that a sequence of pieces is */
  function Concat(chunks: seq<seq<byte>>): seq<byte> {
    if chunks == [] then [] else Concat(chunks[..|chunks| - 1]) + chunks[|chunks| - 1]
  }

  lemma ConcatOne(chunks: seq<seq<byte>>, i: nat)
    requires i < |chunks|
    ensures Concat(chunks[..i + 1]) == Concat(chunks[..i]) + chunks[i]
  {
    assert chunks[..i + 1][..i] == chunks[..i];
  }

  /** Feeding a and then b is feeding a + b: only the pending bytes of a matter to what follows. */
  lemma {:induction false} FoldConcat(h: Hash, s: seq<word>, a: seq<byte>, b: seq<byte>)
    requires ValidHash(h)
    ensures Fold(h, s, a + b) == Fold(h, Fold(h, s, a), Rest(h, a) + b)
    ensures Rest(h, a + b) == Rest(h, Rest(h, a) + b)
    decreases |a|
  {
    if |a| >= h.size {
      assert (a + b)[..h.size] == a[..h.size] && (a + b)[h.size..] == a[h.size..] + b;
      FoldConcat(h, h.compress(s, a[..h.size]), a[h.size..], b);
    }
  }

  /** A chunk that does not fill the pending block is only appended to it. */
  lemma AppendShort(h: Hash, s: seq<word>, a: seq<byte>, b: seq<byte>)
    requires ValidHash(h) && |Rest(h, a)| + |b| < h.size
    ensures Fold(h, s, a + b) == Fold(h, s, a) && Rest(h, a + b) == Rest(h, a) + b
  {
    FoldConcat(h, s, a, b);
  }

  /** A chunk that fills the pending block exactly compresses it. */
  lemma AppendFull(h: Hash, s: seq<word>, a: seq<byte>, b: seq<byte>)
    requires ValidHash(h) && |Rest(h, a)| + |b| == h.size
    ensures Fold(h, s, a + b) == h.compress(Fold(h, s, a), Rest(h, a) + b) && Rest(h, a + b) == []
  {
    FoldConcat(h, s, a, b);
    var block := Rest(h, a) + b;
    assert block[..h.size] == block;
  }

  // ---- words and bytes ----

  /** Four bytes, least significant first. */
  function WordLE(b: seq<byte>): word
    requires |b| == 4
  {
    var b0: int, b1: int, b2: int, b3: int := b[0], b[1], b[2], b[3];
    b0 + 0x100 * b1 + 0x1_0000 * b2 + 0x100_0000 * b3
  }

  function BytesLE(w: word): (b: seq<byte>)
    ensures |b| == 4
  {
    [w % 0x100, w / 0x100 % 0x100, w / 0x1_0000 % 0x100, w / 0x100_0000]
  }

  lemma WordOfBytes(w: word)
    ensures WordLE(BytesLE(w)) == w
  {
    var q1 := w / 0x100;
    var q2 := w / 0x1_0000;
    var q3 := w / 0x100_0000;
    assert w == 0x100 * q1 + w % 0x100 && q1 == 0x100 * q2 + q1 % 0x100 && q2 == 0x100 * q3 + q2 % 0x100;
  }

  /** The number that the bytes of a word are to base 256, and the bytes of the number */
  lemma WordIsValue(b: seq<byte>)
    requires |b| == 4
    ensures WordLE(b) == ByteOrder.Value(b) < 0x1_0000_0000
  {
    ByteOrder.Value4(b);
  }

  lemma BytesAreMemory(w: word)
    ensures BytesLE(w) == ByteOrder.Memory(w, 4)
  {
    WordOfBytes(w);
    WordIsValue(BytesLE(w));
    ByteOrder.MemoryOfValue(BytesLE(w));
  }

  ghost function WordsLE(b: seq<byte>): (w: seq<word>)
    ensures |w| == |b| / 4
    ensures forall i :: 0 <= i < |w| ==> w[i] == WordLE(b[4 * i..4 * i + 4])
  {
    seq(|b| / 4, i requires 0 <= i < |b| / 4 => WordLE(b[4 * i..4 * i + 4]))
  }

  /** The words are the numbers of the bytes of the block, four at a time, low byte first. */
  ghost predicate ReadLE(w: seq<word>, b: seq<byte>) {
    |b| == 4 * |w| && forall i :: 0 <= i < |w| ==> w[i] == ByteOrder.Value(b[4 * i..4 * i + 4])
  }

  lemma WordsAreRead(b: seq<byte>)
    requires |b| % 4 == 0
    ensures ReadLE(WordsLE(b), b)
  {
    hide WordLE;
    var w := WordsLE(b);
    forall i | 0 <= i < |w| ensures w[i] == ByteOrder.Value(b[4 * i..4 * i + 4]) { WordIsValue(b[4 * i..4 * i + 4]); }
  }

  ghost function Zeros(n: nat): (z: seq<byte>)
    ensures |z| == n && forall i :: 0 <= i < n ==> z[i] == 0
  {
    seq(n, _ => 0)
  }

  /** A one bit, then the fewest zero bits that reach 448 modulo 512: the padding of MD5 and of SHA. */
  ghost function PaddingTo56(n: nat): seq<byte> { [0x80] + Zeros((119 - n % 64) % 64) }

  lemma PaddingReaches56(n: nat)
    ensures (n + |PaddingTo56(n)|) % 64 == 56 && 1 <= |PaddingTo56(n)| <= 64
    ensures |PaddingTo56(n)| == if n % 64 < 56 then 56 - n % 64 else 120 - n % 64
  {
    var q, r := n / 64, n % 64;
    var m := if r < 56 then 56 - r else 120 - r;
    assert |PaddingTo56(n)| == m;
    Mod64(n + m, if r < 56 then q else q + 1, 56);
  }

  /** The two counter words as bytes, low word and low byte first: the number of bits modulo 2^64 */
  lemma LengthValue(bits: nat)
    ensures ByteOrder.Value(BytesLE(bits % WORD) + BytesLE(bits / WORD % WORD)) == bits % 0x1_0000_0000_0000_0000
  {
    var lo, hi := bits % WORD, bits / WORD % WORD;
    var b := BytesLE(lo) + BytesLE(hi);
    ByteOrder.Value8(b);
    WordOfBytes(lo);
    WordOfBytes(hi);
    var top := bits / WORD / WORD;
    assert bits / WORD == WORD * top + hi;
    TwoWords(bits, lo, hi, top);
  }

  lemma TwoWords(x: nat, lo: nat, hi: nat, top: nat)
    requires x == WORD * (WORD * top + hi) + lo && lo < WORD && hi < WORD
    ensures x % 0x1_0000_0000_0000_0000 == lo + WORD * hi
  {
    assert x == 0x1_0000_0000_0000_0000 * top + (lo + WORD * hi);
  }

  /** A message padded to whole blocks: a one bit, as few zeros as fit before a tail of the given length, the tail */
  ghost predicate PaddedTo(p: seq<byte>, message: seq<byte>, size: nat, tail: nat)
    requires size > tail
  {
    var n := |message|;
    && |p| % size == 0 && n + 1 + tail <= |p| < n + 1 + tail + size
    && p[..n] == message && p[n] == 0x80 && forall i :: n < i < |p| - tail ==> p[i] == 0
  }

  // ---- the bit counter ----

  /** The two counter words hold the number of bits fed, modulo 2^64. */
  ghost predicate Counts(lo: word, hi: word, bytes: nat) {
    lo == 8 * bytes % WORD && hi == 8 * bytes / WORD % WORD
  }

  lemma CountedBits(lo: word, hi: word, n: nat)
    requires Counts(lo, hi, n)
    ensures lo == 8 * n % WORD && hi == 8 * n / WORD % WORD
  {}

  /** (uint32)len << 3 */
  function BitsLow(len: nat): (r: nat)
    ensures r < WORD
  {
    8 * len % WORD
  }

  /** The counter update of MD5Update and shsUpdate: a sum below the old value means a carry. */
  function AddLow(lo: word, len: nat): word { (lo + BitsLow(len)) % WORD }

  function Incremented(hi: word, carry: bool): word { if carry then (hi + 1) % WORD else hi }

  function AddHigh(lo: word, hi: word, len: nat): word
    requires len < WORD
  {
    (Incremented(hi, AddLow(lo, len) < lo) + len / 0x2000_0000) % WORD
  }

  /** haval_hash compares the sum with the addend instead; the carry is the same. */
  lemma CarryTests(lo: word, len: nat)
    ensures AddLow(lo, len) < lo <==> AddLow(lo, len) < BitsLow(len)
  {}

  lemma DivUnique(x: nat, q: nat, r: nat)
    requires x == WORD * q + r && r < WORD
    ensures x / WORD == q && x % WORD == r
  {}

  lemma CounterStep(lo: word, hi: word, bytes: nat, len: nat)
    requires Counts(lo, hi, bytes) && len < WORD
    ensures Counts(AddLow(lo, len), AddHigh(lo, hi, len), bytes + len)
  {
    var carry: nat := if AddLow(lo, len) < lo then 1 else 0;
    var q, p := 8 * bytes / WORD, 8 * len / WORD;
    AddCarry(lo, len);
    LengthHigh(len);
    assert 8 * bytes == WORD * q + lo && 8 * len == WORD * p + BitsLow(len);
    DivUnique(8 * (bytes + len), q + p + carry, AddLow(lo, len));
    var high: nat := hi + carry + p;
    assert q == WORD * (q / WORD) + hi && high == WORD * (high / WORD) + high % WORD;
    DivUnique(q + p + carry, q / WORD + high / WORD, high % WORD);
    IncrementFirst(hi, AddLow(lo, len) < lo, p);
  }

  lemma IncrementFirst(hi: word, carry: bool, p: nat)
    ensures (Incremented(hi, carry) + p) % WORD == (hi + (if carry then 1 else 0) + p) % WORD
  {
    if carry && hi == WORD - 1 {
      DivUnique(WORD + p, 1 + p / WORD, p % WORD);
    }
  }

  lemma AddCarry(lo: word, len: nat)
    ensures lo + BitsLow(len) == AddLow(lo, len) + if AddLow(lo, len) < lo then WORD else 0
  {}

  /** The bits shifted out of the low word are len >> 29. */
  lemma LengthHigh(len: nat)
    ensures 8 * len / WORD == len / 0x2000_0000
  {
    assert len == 0x2000_0000 * (len / 0x2000_0000) + len % 0x2000_0000;
    DivUnique(8 * len, len / 0x2000_0000, 8 * (len % 0x2000_0000));
  }

  /** The position in the pending block is recovered from the counter. */
  lemma CounterPosition(lo: word, hi: word, bytes: nat)
    requires Counts(lo, hi, bytes)
    ensures lo / 8 % 64 == bytes % 64 && lo / 8 % 128 == bytes % 128
  {
    var q, low := 8 * bytes / WORD, lo / 8;
    assert 8 * bytes == WORD * q + lo;
    assert bytes == 0x2000_0000 * q + low;
    Mod64(bytes, 0x80_0000 * q + low / 64, low % 64);
    Mod128(bytes, 0x40_0000 * q + low / 128, low % 128);
  }

  lemma Mod64(x: nat, q: nat, r: nat)
    requires x == 64 * q + r && r < 64
    ensures x % 64 == r
  {}

  lemma Mod128(x: nat, q: nat, r: nat)
    requires x == 128 * q + r && r < 128
    ensures x % 128 == r
  {}
}
