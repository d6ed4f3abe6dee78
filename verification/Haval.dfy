/** HAVAL without its block and tailoring functions (src/core/haval.cpp:253-276, 354-446), as Tripwire
    builds it: 3 passes, 128-bit fingerprints, version 1. */
module Haval {
  import opened BlockHash
  import ByteOrder
  import opened Bytes

  const VERSION: nat := 1
  const PASS: nat := 3
  const FPTLEN: nat := 128

  const INITIAL: seq<word> :=
    [0x243F6A88, 0x85A308D3, 0x13198A2E, 0x03707344, 0xA4093822, 0x299F31D0, 0x082EFA98, 0xEC4E6C89]

  /** haval_hash_block: fingerprint and 32-word block to fingerprint */
  type BlockFunction = (seq<word>, seq<word>) -> seq<word>

  ghost function HavalHash(hashBlock: BlockFunction): (h: Hash)
    ensures ValidHash(h) && h.size == 128
  {
    Hash(128, (s: seq<word>, b: seq<byte>) => hashBlock(s, WordsLE(b)))
  }

  ghost function Padding(n: nat): seq<byte> { [0x80] + Zeros((245 - n % 128) % 128) }

  /** The ten bytes that close the message: version, passes, fingerprint length, bit count. */
  function Tail(lo: word, hi: word): (t: seq<byte>)
    ensures |t| == 10
  {
    [FPTLEN % 4 * 64 + PASS % 8 * 8 + VERSION % 8, FPTLEN / 4 % 256] + (BytesLE(lo) + BytesLE(hi))
  }

  /** message, a one bit, zeros to 118 modulo 128 bytes, and the tail */
  ghost function Padded(message: seq<byte>): seq<byte> {
    var n := |message|;
    message + Padding(n) + Tail(8 * n % WORD, 8 * n / WORD % WORD)
  }

  lemma PaddingReaches118(n: nat)
    ensures (n + |Padding(n)|) % 128 == 118 && 1 <= |Padding(n)| <= 128
  {
    var q, r := n / 128, n % 128;
    var m := if r < 118 then 118 - r else 246 - r;
    assert |Padding(n)| == m;
    Mod128(n + m, if r < 118 then q else q + 1, 118);
  }

  /** Whole blocks.  The ten bytes at the end are two that hold version 1, 3 passes and 128 bits of fingerprint, and the
      bit length modulo 2^64, low byte first. */
  lemma PaddedIs(message: seq<byte>)
    ensures var p := Padded(message);
            && PaddedTo(p, message, 128, 10)
            && p[|p| - 10] % 8 == 1 && p[|p| - 10] / 8 % 8 == 3 && p[|p| - 10] / 64 + 4 * p[|p| - 9] as int == 128
            && ByteOrder.Value(p[|p| - 8..]) == 8 * |message| % 0x1_0000_0000_0000_0000
  {
    var n := |message|;
    PaddingReaches118(n);
    LengthValue(8 * n);
    hide BytesLE;
    var tail := Tail(8 * n % WORD, 8 * n / WORD % WORD);
    var front := message + Padding(n);
    var p := front + tail;
    Mod128(|p|, |front| / 128 + 1, 0);
    assert p[|front|..] == tail && p[|front| + 2..] == tail[2..] && p == Padded(message);
    assert p[|front|] == tail[0] && p[|front| + 1] == tail[1];
  }

  /** One block: the block function gets its 32 words, low byte first. */
  lemma OneBlock(hashBlock: BlockFunction, s: seq<word>, block: seq<byte>)
    requires |block| == 128
    ensures exists words :: ReadLE(words, block) && Fold(HavalHash(hashBlock), s, block) == hashBlock(s, words)
  {
    WordsAreRead(block);
    hide WordsLE, ReadLE;
    assert block[..128] == block && block[128..] == [];
    var h := HavalHash(hashBlock);
    assert h.compress(s, block) == hashBlock(s, WordsLE(block));
    assert Fold(h, h.compress(s, block), []) == h.compress(s, block);
  }

  ghost function Fingerprint(hashBlock: BlockFunction, tailor: seq<word> -> seq<word>, message: seq<byte>): seq<word> {
    tailor(Fold(HavalHash(hashBlock), INITIAL, Padded(message)))
  }

  /** The 128 bytes of the static array padding */
  function PaddingBytes(): (p: seq<byte>)
    ensures |p| == 128 && p[0] == 0x80 && forall i :: 0 < i < 128 ==> p[i] == 0
  {
    [0x80] + seq(127, _ => 0)
  }

  /** The tailored fold of the block function over the padded message */
  ghost predicate IsFingerprint(hashBlock: BlockFunction, tailor: seq<word> -> seq<word>, message: seq<byte>,
                                f: seq<word>)
  {
    exists p ::
      && PaddedTo(p, message, 128, 10)
      && p[|p| - 10] % 8 == 1 && p[|p| - 10] / 8 % 8 == 3 && p[|p| - 10] / 64 + 4 * p[|p| - 9] as int == 128
      && ByteOrder.Value(p[|p| - 8..]) == 8 * |message| % 0x1_0000_0000_0000_0000
      && f == tailor(Fold(HavalHash(hashBlock), [0x243f6a88, 0x85a308d3, 0x13198a2e, 0x03707344, 0xa4093822,
                                                 0x299f31d0, 0x082efa98, 0xec4e6c89], p))
  }

  lemma FingerprintIs(hashBlock: BlockFunction, tailor: seq<word> -> seq<word>, message: seq<byte>)
    ensures IsFingerprint(hashBlock, tailor, message, Fingerprint(hashBlock, tailor, message))
  {
    PaddedIs(message);
    hide Padded, PaddedTo, Fold, HavalHash;
  }

  class HavalState {
    var lo: word                  // count[0]
    var hi: word                  // count[1]
    var fingerprint: seq<word>
    const chars: array<byte>      // unhashed characters: remainder, or block itself on a little-endian build
    const block: array<word>      // written by the portable build only
    const littleEndian: bool      // BYTEORDER == 0x1234
    const hashBlock: BlockFunction
    ghost var fed: seq<byte>

    ghost predicate Valid()
      reads this, chars
    {
      chars.Length == 128 && block.Length == 32 && Absorbed(fed) && Counts(lo, hi, |fed|)
    }

    /** The fingerprint and the pending bytes are those of the message, on either build. */
    ghost predicate Absorbed(message: seq<byte>)
      requires chars.Length == 128
      reads this`fingerprint, chars
    {
      var h := HavalHash(hashBlock);
      fingerprint == Fold(h, INITIAL, message) && chars[..|message| % 128] == Rest(h, message)
    }

    /** haval_start */
    constructor (hashBlock: BlockFunction, littleEndian: bool)
      ensures Valid() && fed == [] && fresh(chars) && fresh(block)
      ensures this.hashBlock == hashBlock && this.littleEndian == littleEndian && lo == hi == 0
      ensures fingerprint ==
              [0x243f6a88, 0x85a308d3, 0x13198a2e, 0x03707344, 0xa4093822, 0x299f31d0, 0x082efa98, 0xec4e6c89]
    {
      this.hashBlock, this.littleEndian := hashBlock, littleEndian;
      chars, block := new byte[128](_ => 0), new word[32](_ => 0);
      lo, hi, fingerprint, fed := 0, 0, INITIAL, [];
    }

    /** memcpy into the character buffer */
    method CopyChars(at: nat, src: seq<byte>)
      requires at + |src| <= chars.Length
      modifies chars
      ensures chars[..at + |src|] == old(chars[..at]) + src
    {
      forall i | 0 <= i < |src| { chars[at + i] := src[i]; }
    }

    /** ch2uint(remainder, block, 128) */
    method Ch2Uint()
      requires chars.Length == 128 && block.Length == 32
      modifies block
      ensures block[..] == WordsLE(chars[..])
    {
      hide WordLE;
      var sp, wp := 0, 0;
      while sp < 128
        invariant sp == 4 * wp && 0 <= sp <= 128
        invariant forall j :: 0 <= j < wp ==> block[j] == WordLE(chars[..][4 * j..4 * j + 4])
      {
        assert chars[sp..sp + 4] == chars[..][4 * wp..4 * wp + 4];
        block[wp] := WordLE(chars[sp..sp + 4]);
        wp, sp := wp + 1, sp + 4;
      }
    }

    /** Both builds compress the same words: the portable one decodes them, the other reads its memory. */
    method HashBlock()
      requires chars.Length == 128 && block.Length == 32
      modifies this`fingerprint, block
      ensures fingerprint == HavalHash(hashBlock).compress(old(fingerprint), chars[..])
    {
      if littleEndian {
        var memory := chars[..];
        var view := seq(32, i requires 0 <= i < 32 => WordLE(memory[4 * i..4 * i + 4]));
        SameWords(memory, view);
        fingerprint := hashBlock(fingerprint, view);
      } else {
        Ch2Uint();
        fingerprint := hashBlock(fingerprint, block[..]);
      }
    }

    method AddBits(len: nat)
      requires Counts(lo, hi, |fed|) && len < WORD
      modifies this`lo, this`hi
      ensures Counts(lo, hi, |fed| + len)
    {
      hide Counts, AddLow, Incremented;
      CounterStep(lo, hi, |fed|, len);
      CarryTests(lo, len);
      lo := AddLow(lo, len);
      hi := Incremented(hi, lo < BitsLow(len));
      hi := (hi + len / 0x2000_0000) % WORD;
    }

    /** haval_hash */
    method Hash(str: seq<byte>)
      requires Valid() && |str| < 0x8000_0000
      modifies this, chars, block
      ensures Valid() && fed == old(fed) + str
    {
      hide Absorbed, Counts, HavalHash;
      CounterPosition(lo, hi, |fed|);
      var rmdLen := lo / 8 % 128;
      AddBits(|str|);
      Feed(str, rmdLen);
      fed := fed + str;
    }

    method Feed(str: seq<byte>, position: nat)
      requires chars.Length == 128 && block.Length == 32 && position == |fed| % 128 && Absorbed(fed)
      modifies this`fingerprint, chars, block
      ensures Absorbed(fed + str)
    {
      hide *;
      var rmdLen, i := position, 0;
      var fillLen := 128 - rmdLen;
      assert fed + str[..0] == fed;
      if rmdLen + |str| >= 128 {
        CopyAndHash(fed, str[..fillLen], rmdLen);
        i := fillLen;
        while i + 127 < |str|
          invariant 0 <= i <= |str| && Absorbed(fed + str[..i]) && |fed + str[..i]| % 128 == 0
        {
          CopyAndHash(fed + str[..i], str[i..i + 128], 0);
          assert fed + str[..i] + str[i..i + 128] == fed + str[..i + 128];
          i := i + 128;
        }
        rmdLen := 0;
      }
      assert fed + str[..i] + str[i..] == fed + str;
      CopyPending(fed + str[..i], str[i..], rmdLen);
    }

    /** Completing the pending block compresses it and leaves nothing pending. */
    method CopyAndHash(ghost message: seq<byte>, part: seq<byte>, rmdLen: nat)
      requires chars.Length == 128 && block.Length == 32 && Absorbed(message)
      requires rmdLen == |message| % 128 && rmdLen + |part| == 128
      modifies this`fingerprint, chars, block
      ensures Absorbed(message + part) && |message + part| % 128 == 0
    {
      hide Fold, HavalHash;
      ghost var h := HavalHash(hashBlock);
      AppendFull(h, INITIAL, message, part);
      CopyChars(rmdLen, part);
      assert chars[..128] == chars[..];
      HashBlock();
    }

    method CopyPending(ghost message: seq<byte>, part: seq<byte>, rmdLen: nat)
      requires chars.Length == 128 && Absorbed(message)
      requires rmdLen == |message| % 128 && rmdLen + |part| < 128
      modifies chars
      ensures Absorbed(message + part)
    {
      hide Fold, HavalHash;
      AppendShort(HavalHash(hashBlock), INITIAL, message, part);
      CopyChars(rmdLen, part);
    }

    /** haval_end */
    method End(tailor: seq<word> -> seq<word>) returns (finalFpt: seq<byte>)
      requires Valid() && (forall s: seq<word> :: |tailor(s)| == 8)
      modifies this, chars, block
      ensures |finalFpt| == 16
      ensures var f := Fingerprint(hashBlock, tailor, old(fed));
              |f| == 8 && forall i :: 0 <= i < 4 ==> finalFpt[4 * i..4 * i + 4] == BytesLE(f[i])
      ensures IsFingerprint(hashBlock, tailor, old(fed), Fingerprint(hashBlock, tailor, old(fed)))
      ensures lo == hi == 0 && fingerprint == seq(8, _ => 0) && (forall i :: 0 <= i < 128 ==> chars[i] == 0)
      ensures forall i :: 0 <= i < 32 ==> block[i] == 0
    {
      FingerprintIs(hashBlock, tailor, fed);
      hide IsFingerprint;
      hide Absorbed, Counts, HavalHash, Fold, Rest, Padding, BytesLE;
      ghost var n := |fed|;
      var tail := Tail(lo, hi);
      CountedBits(lo, hi, n);
      CounterPosition(lo, hi, n);
      var rmdLen := lo / 8 % 128;
      var padLen := if rmdLen < 118 then 118 - rmdLen else 246 - rmdLen;
      PaddingTaken(n, padLen);
      Hash(PaddingBytes()[..padLen]);
      Hash(tail);
      assert Absorbed(Padded(old(fed)));
      LastFingerprint(Padded(old(fed)));
      fingerprint := tailor(fingerprint);
      finalFpt := Uint2Ch(4);
      // memset of the whole state
      lo, hi, fingerprint := 0, 0, seq(8, _ => 0);
      forall i | 0 <= i < 128 { chars[i] := 0; }
      forall i | 0 <= i < 32 { block[i] := 0; }
    }

    lemma LastFingerprint(message: seq<byte>)
      requires chars.Length == 128 && Absorbed(message)
      ensures fingerprint == Fold(HavalHash(hashBlock), INITIAL, message)
    {}

    /** uint2ch(fingerprint, final_fpt, wlen) */
    method Uint2Ch(wlen: nat) returns (chs: seq<byte>)
      requires wlen <= |fingerprint|
      ensures |chs| == 4 * wlen && forall i :: 0 <= i < wlen ==> chs[4 * i..4 * i + 4] == BytesLE(fingerprint[i])
    {
      hide BytesLE;
      chs := [];
      for i := 0 to wlen
        invariant |chs| == 4 * i && forall j :: 0 <= j < i ==> chs[4 * j..4 * j + 4] == BytesLE(fingerprint[j])
      {
        ghost var before := chs;
        chs := chs + BytesLE(fingerprint[i]);
        forall j | 0 <= j < i ensures chs[4 * j..4 * j + 4] == before[4 * j..4 * j + 4] {}
        assert chs[4 * i..4 * i + 4] == BytesLE(fingerprint[i]);
      }
    }
  }

  lemma SameWords(b: seq<byte>, w: seq<word>)
    requires |b| == 128 && |w| == 32 && forall i :: 0 <= i < 32 ==> w[i] == WordLE(b[4 * i..4 * i + 4])
    ensures w == WordsLE(b)
  {}

  lemma PaddingTaken(n: nat, padLen: nat)
    requires padLen == if n % 128 < 118 then 118 - n % 128 else 246 - n % 128
    ensures padLen <= 128 && PaddingBytes()[..padLen] == Padding(n)
  {}

  /** HAVAL of a message fed in any pieces, on either build: the result depends on the whole message only. */
  method FingerprintOf(hashBlock: BlockFunction, littleEndian: bool, tailor: seq<word> -> seq<word>,
                       chunks: seq<seq<byte>>)
    returns (finalFpt: seq<byte>)
    requires forall i :: 0 <= i < |chunks| ==> |chunks[i]| < 0x8000_0000
    requires forall s: seq<word> :: |tailor(s)| == 8
    ensures var f := Fingerprint(hashBlock, tailor, Concat(chunks));
      |finalFpt| == 16 && |f| == 8 && forall i :: 0 <= i < 4 ==> finalFpt[4 * i..4 * i + 4] == BytesLE(f[i])
  {
    hide Fingerprint, BytesLE;
    var state := new HavalState(hashBlock, littleEndian);
    for i := 0 to |chunks|
      invariant fresh(state) && fresh(state.chars) && fresh(state.block) && state.hashBlock == hashBlock
      invariant state.Valid() && state.fed == Concat(chunks[..i])
    {
      ConcatOne(chunks, i);
      state.Hash(chunks[i]);
    }
    assert chunks[..|chunks|] == chunks;
    finalFpt := state.End(tailor);
  }
}
