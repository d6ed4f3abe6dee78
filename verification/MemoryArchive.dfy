/** The growable memory archive of src/core/archive.cpp:287-456: a buffer whose capacity doubles, refining a
    byte sequence with a position. */
module MemoryArchive {
  import opened Bytes

  const MIN_ALLOCATED_SIZE: nat := 1024
  /** Beyond this the doubled capacity would not fit the source's int. */
  const LARGEST: nat := 0x4000_0000

  function Doubled(k: nat): (n: nat)
    ensures n >= MIN_ALLOCATED_SIZE
  {
    if k == 0 then MIN_ALLOCATED_SIZE else 2 * Doubled(k - 1)
  }

  const BUF_SIZE: nat := 2048

  /** No memory, or the minimum doubled until the contents fit and no further */
  ghost predicate Capacity(capacity: nat, size: nat) {
    && (capacity == 0 || exists k :: capacity == Doubled(k))
    && (capacity > MIN_ALLOCATED_SIZE ==> capacity < 2 * size)
  }

  /** Nothing, 1024 bytes, or more than that: a multiple of 2048 below twice the size */
  lemma CapacityIs(capacity: nat, size: nat)
    requires Capacity(capacity, size)
    ensures capacity == 0 || capacity == 1024 || (1024 < capacity < 2 * size && capacity % 2048 == 0)
  {
    if capacity != 0 {
      var k :| capacity == Doubled(k);
      DoubledIs(k);
    }
  }

  lemma {:induction false} DoubledIs(k: nat)
    ensures if k == 0 then Doubled(k) == 1024 else Doubled(k) > 1024 && Doubled(k) % 2048 == 0
  {
    if k > 0 { DoubledIs(k - 1); }
  }

  // ---- the archive as a value ----

  datatype From = Beginning | Current | End
  /** The position may have been moved outside the contents; nothing can be read or written there. */
  datatype State = State(bytes: seq<byte>, pos: int)

  ghost predicate Inside(s: State) { 0 <= s.pos <= |s.bytes| }

  function Target(s: State, offset: int, from: From): int {
    offset + match from case Beginning => 0 case Current => s.pos case End => |s.bytes|
  }

  /** The position itself, counted from the start, from where it is and from the end; an offset moves the target by as
      much. */
  lemma SeekPositions(s: State, offset: int, from: From)
    ensures Target(s, s.pos, Beginning) == Target(s, 0, Current) == Target(s, s.pos - |s.bytes|, End) == s.pos
    ensures Target(s, offset, from) == Target(s, 0, from) + offset
  {}

  // ---- the int arithmetic of Seek ----

  const INT_LIMIT: int := 0x8000_0000

  predicate IsInt32(x: int) { -INT_LIMIT <= x < INT_LIMIT }

  predicate IsInt64(x: int) { -0x8000_0000_0000_0000 <= x < 0x8000_0000_0000_0000 }

  /** (int)x, and what a sum of ints is on machines where it wraps around */
  function Int32(x: int): (i: int)
    ensures IsInt32(i) && (IsInt32(x) ==> i == x)
  {
    (x + INT_LIMIT) % (2 * INT_LIMIT) - INT_LIMIT
  }

  /** The target as the source computes it: a 64-bit offset from the start, a 32-bit sum otherwise */
  function CodeTarget(s: State, offset: int, from: From): int {
    match from
    case Beginning => offset
    case Current => Int32(s.pos + Int32(offset))
    case End => Int32(|s.bytes| + Int32(offset))
  }

  /** Whether a seek succeeds, and the position afterwards, for a target and the position that it is stored as */
  function Moved(s: State, target: int, stored: int): (bool, int) {
    (target <= |s.bytes|, if target <= |s.bytes| then stored else s.pos)
  }

  /** The target is an int; or it is above all ints, and what is compared with the size is above that too. */
  predicate SeekFits(s: State, offset: int, from: From) {
    var target := Target(s, offset, from);
    IsInt32(target) || (target >= INT_LIMIT && (from.Beginning? || Int32(target) > |s.bytes|))
  }

  /** The sum of the wrapped offset wraps to the wrapped sum. */
  lemma WrappedSum(a: int, b: int)
    ensures Int32(a + Int32(b)) == Int32(a + b)
  {
    var m := 2 * INT_LIMIT;
    var q, r := (b + INT_LIMIT) / m, (a + Int32(b) + INT_LIMIT) / m;
    assert Int32(b) == b - m * q;
    assert a + Int32(b) + INT_LIMIT == m * r + (a + Int32(b) + INT_LIMIT) % m;
    SameRemainder(a + b + INT_LIMIT, q + r, (a + Int32(b) + INT_LIMIT) % m);
  }

  lemma SameRemainder(x: int, q: int, r: nat)
    requires x == 2 * INT_LIMIT * q + r && r < 2 * INT_LIMIT
    ensures x % (2 * INT_LIMIT) == r
  {}

  /** A seek does what the unbounded sum says if and only if SeekFits. */
  lemma SeekExact(s: State, offset: int, from: From)
    requires |s.bytes| < INT_LIMIT
    ensures Moved(s, CodeTarget(s, offset, from), Int32(CodeTarget(s, offset, from)))
         == Moved(s, Target(s, offset, from), Target(s, offset, from))
       <==> SeekFits(s, offset, from)
  {
    WrappedSum(s.pos, offset);
    WrappedSum(|s.bytes|, offset);
    hide Int32;
  }

  /** On an empty archive, 2^32 forward succeeds and stays where it is. */
  lemma SeekWraps()
    ensures var s, offset := State([], 0), 0x1_0000_0000;
            && Moved(s, CodeTarget(s, offset, Current), Int32(CodeTarget(s, offset, Current))) == (true, 0)
            && Moved(s, Target(s, offset, Current), Target(s, offset, Current)) == (false, 0)
  {
    SameRemainder(0x1_0000_0000 + INT_LIMIT, 1, INT_LIMIT);
  }

  // ---- reading and writing ----

  function Overwritten(s: seq<byte>, pos: nat, data: seq<byte>): (r: seq<byte>)
    requires pos <= |s|
    ensures |r| == if pos + |data| > |s| then pos + |data| else |s|
    ensures r[pos..pos + |data|] == data && r[..pos] == s[..pos]
    ensures pos + |data| <= |s| ==> r[pos + |data|..] == s[pos + |data|..]
  {
    s[..pos] + data + if pos + |data| < |s| then s[pos + |data|..] else []
  }

  /** How many of count bytes are left to read */
  function Available(s: State, count: nat): (n: nat)
    requires Inside(s)
    ensures n <= count && s.pos + n <= |s.bytes| && (n == count || s.pos + n == |s.bytes|)
  {
    if s.pos + count > |s.bytes| then |s.bytes| - s.pos else count
  }

  function Written(s: State, data: seq<byte>): (r: State)
    requires Inside(s)
    ensures Inside(r) && r.pos == s.pos + |data|
  {
    State(Overwritten(s.bytes, s.pos, data), s.pos + |data|)
  }

  /** Growing first changes nothing in what a write leaves. */
  lemma SamePrefix(s: State, grown: seq<byte>, data: seq<byte>)
    requires Inside(s)
    requires |grown| == (if s.pos + |data| > |s.bytes| then s.pos + |data| else |s.bytes|) &&
             grown[..|s.bytes|] == s.bytes
    ensures Overwritten(grown, s.pos, data) == Overwritten(s.bytes, s.pos, data)
  {
    assert grown[..s.pos] == s.bytes[..s.pos];
    if s.pos + |data| < |s.bytes| { assert grown == s.bytes; }
  }

  lemma WrittenNothing(s: State)
    requires Inside(s)
    ensures Written(s, []) == s
  {
    assert s.bytes[..s.pos] + s.bytes[s.pos..] == s.bytes;
  }

  lemma WrittenTwice(s: State, a: seq<byte>, b: seq<byte>)
    requires Inside(s)
    ensures Written(Written(s, a), b) == Written(s, a + b)
  {
    var t := Overwritten(s.bytes, s.pos, a);
    var n := s.pos + |a|;
    assert t[..n] == s.bytes[..s.pos] + a;
    if n + |b| < |s.bytes| {
      assert t[n + |b|..] == s.bytes[n + |b|..];
    }
    assert Overwritten(t, n, b) == Overwritten(s.bytes, s.pos, a + b);
  }

  lemma WrittenPieces(s: State, f: seq<byte>, p: nat, q: nat, n: nat)
    requires Inside(s) && p <= q && q + n <= |f|
    ensures Written(Written(s, f[p..q]), f[q..q + n]) == Written(s, f[p..q + n])
  {
    hide Written;
    WrittenTwice(s, f[p..q], f[q..q + n]);
    assert f[p..q] + f[q..q + n] == f[p..q + n];
  }

  class MemoryArchive {
    var mpMemory: array?<byte>
    var mAllocatedLen: nat
    var mLogicalSize: nat
    var mReadHead: int

    ghost predicate Valid()
      reads this, mpMemory
    {
      && IsInt32(mReadHead) && mLogicalSize <= mAllocatedLen
      && mLogicalSize <= LARGEST
      && (mpMemory == null <==> mAllocatedLen == 0)
      && (mpMemory != null ==> mpMemory.Length == mAllocatedLen)
      && Capacity(mAllocatedLen, mLogicalSize)
    }

    /** Valid, with the position where reading and writing are defined */
    ghost predicate Ready()
      reads this, mpMemory
    {
      Valid() && 0 <= mReadHead <= mLogicalSize
    }

    ghost function Value(): (s: State)
      requires Valid()
      reads this, mpMemory
      ensures s.pos == mReadHead && |s.bytes| == mLogicalSize
    {
      State(if mpMemory == null then [] else mpMemory[..mLogicalSize], mReadHead)
    }

    constructor ()
      ensures Valid() && Value() == State([], 0) && mpMemory == null
    {
      mpMemory, mAllocatedLen, mLogicalSize, mReadHead := null, 0, 0, 0;
    }

    predicate EndOfFile()
      requires Valid()
      reads this, mpMemory
      ensures EndOfFile() <==> Value().pos >= |Value().bytes|
    {
      mReadHead >= mLogicalSize
    }

    /** False stands for eArchiveSeek.  A target before the start is taken, and one so far before it that it is not an
        int can even end behind the end. */
    method Seek(offset: int, from: From) returns (ok: bool)
      requires Valid() && IsInt64(offset)
      modifies this`mReadHead
      ensures Valid() && Value().bytes == old(Value()).bytes
      ensures var target := CodeTarget(old(Value()), offset, from);
              (ok, mReadHead) == Moved(old(Value()), target, Int32(target))
    {
      var target := offset;
      match from {
        case Beginning =>
        case Current => target := Int32(mReadHead + Int32(offset));
        case End => target := Int32(mLogicalSize + Int32(offset));
      }
      if target > mLogicalSize { return false; }
      mReadHead := Int32(target);
      return true;
    }

    method Read(count: nat) returns (data: seq<byte>)
      requires Ready() && mReadHead + count < INT_LIMIT
      modifies this`mReadHead
      ensures Ready() && |data| == Available(old(Value()), count)
      ensures data == old(Value().bytes)[old(mReadHead)..old(mReadHead) + |data|]
      ensures Value() == old(Value()).(pos := old(mReadHead) + |data|)
    {
      var n := if mReadHead + count > mLogicalSize then mLogicalSize - mReadHead else count;
      data := if mpMemory == null then [] else mpMemory[mReadHead..mReadHead + n];
      mReadHead := mReadHead + n;
    }

    method Write(data: seq<byte>)
      requires Ready() && mReadHead + |data| <= LARGEST
      modifies this, mpMemory
      ensures Ready() && Value() == Written(old(Value()), data)
      ensures mpMemory == old(mpMemory) || fresh(mpMemory)
    {
      hide Overwritten, Capacity;
      ghost var before := Value();
      if mReadHead + |data| > mLogicalSize { AllocateMemory(mReadHead + |data|); }
      SamePrefix(before, Value().bytes, data);
      Store(data);
      mReadHead := mReadHead + |data|;
    }

    /** memcpy to the read head */
    method Store(data: seq<byte>)
      requires Ready() && mReadHead + |data| <= mLogicalSize
      modifies mpMemory
      ensures Ready() && Value() == State(Overwritten(old(Value().bytes), mReadHead, data), mReadHead)
    {
      hide Capacity;
      if mpMemory != null {
        ghost var s := Value().bytes;
        forall i | 0 <= i < |data| { mpMemory[mReadHead + i] := data[i]; }
        assert Value().bytes == s[..mReadHead] + data + s[mReadHead + |data|..];
      }
    }

    /** The first part of the contents survives any number of doublings; the rest of the grown contents is not
        initialised. */
    method AllocateMemory(len: nat)
      requires Ready() && mLogicalSize < len <= LARGEST
      modifies this`mpMemory, this`mAllocatedLen, this`mLogicalSize
      ensures Ready() && mLogicalSize == len && Value().bytes[..old(mLogicalSize)] == old(Value()).bytes
      ensures mpMemory != null && (mpMemory == old(mpMemory) || fresh(mpMemory))
    {
      if len > mAllocatedLen {
        if mAllocatedLen == 0 {
          mAllocatedLen := MIN_ALLOCATED_SIZE;
          assert mAllocatedLen == Doubled(0);
        }
        ghost var k :| mAllocatedLen == Doubled(k);
        while mAllocatedLen < len
          modifies this`mAllocatedLen
          invariant mAllocatedLen == Doubled(k) && mAllocatedLen <= 2 * LARGEST
          invariant mAllocatedLen > MIN_ALLOCATED_SIZE ==> mAllocatedLen < 2 * len
        {
          mAllocatedLen := mAllocatedLen * 2;
          k := k + 1;
        }
        var pNewMem := new byte[mAllocatedLen];
        if mpMemory != null {
          forall i | 0 <= i < mLogicalSize { pNewMem[i] := mpMemory[i]; }
        }
        mpMemory := pNewMem;
        mLogicalSize := len;
      } else {
        if len < mAllocatedLen / 2 && mAllocatedLen > MIN_ALLOCATED_SIZE {
          assert false; // the shrinking branch
        } else {
          mLogicalSize := len;
        }
      }
    }

    /** Copies up to amt bytes from another archive, 2048 at a time, and returns how many there were. */
    method Copy(pFrom: MemoryArchive, amt: nat) returns (copied: nat)
      requires Ready() && pFrom.Ready() && pFrom != this && (mpMemory == null || pFrom.mpMemory != mpMemory)
      requires mReadHead + Available(pFrom.Value(), amt) <= LARGEST
      modifies this, mpMemory, pFrom`mReadHead
      ensures Ready() && pFrom.Ready() && copied == Available(old(pFrom.Value()), amt)
      ensures pFrom.Value() == old(pFrom.Value()).(pos := old(pFrom.mReadHead) + copied)
      ensures Value() == Written(old(Value()),
                                 old(pFrom.Value().bytes)[old(pFrom.mReadHead)..old(pFrom.mReadHead) + copied])
    {
      hide Overwritten, Written, Capacity, Valid, Value;
      ghost var s, f, p := Value(), pFrom.Value().bytes, pFrom.mReadHead;
      var amtLeft := amt;
      WrittenNothing(s);
      assert f[p..p] == [];
      while amtLeft > 0
        invariant 0 <= amtLeft <= amt && p + amt - amtLeft <= |f| && Ready() && pFrom.Ready()
        invariant mpMemory == old(mpMemory) || fresh(mpMemory)
        invariant pFrom.mpMemory == old(pFrom.mpMemory) && (mpMemory == null || pFrom.mpMemory != mpMemory)
        invariant pFrom.Value() == State(f, p + amt - amtLeft)
        invariant Value() == Written(s, f[p..p + amt - amtLeft])
      {
        var amtToRead := if amtLeft > BUF_SIZE then BUF_SIZE else amtLeft;
        ghost var q := p + amt - amtLeft;
        var amtRead := CopyBlock(pFrom, amtToRead);
        WrittenPieces(s, f, p, q, amtRead);
        amtLeft := amtLeft - amtRead;
        if amtRead < amtToRead { break; }
      }
      return amt - amtLeft;
    }

    /** One buffer of the copy */
    method CopyBlock(pFrom: MemoryArchive, count: nat) returns (n: nat)
      requires Ready() && pFrom.Ready() && pFrom != this && (mpMemory == null || pFrom.mpMemory != mpMemory)
      requires mReadHead + Available(pFrom.Value(), count) <= LARGEST && count <= BUF_SIZE
      modifies this, mpMemory, pFrom`mReadHead
      ensures Ready() && pFrom.Ready() && n == Available(old(pFrom.Value()), count)
      ensures pFrom.Value() == old(pFrom.Value()).(pos := old(pFrom.mReadHead) + n)
      ensures Value() == Written(old(Value()), old(pFrom.Value().bytes)[old(pFrom.mReadHead)..old(pFrom.mReadHead) + n])
      ensures pFrom.mpMemory == old(pFrom.mpMemory) && (mpMemory == old(mpMemory) || fresh(mpMemory))
    {
      hide Overwritten, Written, Capacity;
      var buf := pFrom.Read(count);
      Write(buf);
      return |buf|;
    }
  }

  // ---- every run ----

  datatype Op = SeekTo(offset: int, from: From) | Get(count: nat) | Put(data: seq<byte>)
  datatype Answer = Sought(ok: bool) | Got(data: seq<byte>) | Done

  /** Nothing is read or written before the start, and sums and sizes fit the source's int. */
  predicate Legal(s: State, op: Op) {
    match op
    case SeekTo(offset, from) => IsInt64(offset) && SeekFits(s, offset, from)
    case Get(count) => s.pos >= 0 && s.pos + count < INT_LIMIT
    case Put(data) => s.pos >= 0 && s.pos + |data| <= LARGEST
  }

  function Step(s: State, op: Op): (r: State)
    requires s.pos <= |s.bytes| && Legal(s, op)
    ensures r.pos <= |r.bytes|
  {
    match op
    case SeekTo(offset, from) => if Target(s, offset, from) <= |s.bytes| then s.(pos := Target(s, offset, from)) else s
    case Get(count) => s.(pos := s.pos + Available(s, count))
    case Put(data) => Written(s, data)
  }

  function AnswerTo(s: State, op: Op): Answer
    requires s.pos <= |s.bytes| && Legal(s, op)
  {
    match op
    case SeekTo(offset, from) => Sought(Target(s, offset, from) <= |s.bytes|)
    case Get(count) => Got(s.bytes[s.pos..s.pos + Available(s, count)])
    case Put(_) => Done
  }

  /** What was written is read back after a seek to where it was written, and one long read is two short ones. */
  lemma ReadBack(s: State, data: seq<byte>, m: nat, n: nat)
    requires Inside(s)
    ensures s.pos + |data| < INT_LIMIT ==>
              AnswerTo(Written(s, data).(pos := s.pos), Get(|data|)) == Got(data)
    ensures s.pos + m + n < INT_LIMIT ==>
              var first := Step(s, Get(m));
              && AnswerTo(s, Get(m + n)).data == AnswerTo(s, Get(m)).data + AnswerTo(first, Get(n)).data
              && Step(s, Get(m + n)) == Step(first, Get(n))
  {
    hide Overwritten;
    assert Available(s, m + n) == Available(s, m) + Available(s.(pos := s.pos + Available(s, m)), n);
  }

  ghost predicate LegalRun(s: State, ops: seq<Op>)
    requires s.pos <= |s.bytes|
    decreases |ops|
  {
    ops == [] || (Legal(s, ops[0]) && LegalRun(Step(s, ops[0]), ops[1..]))
  }

  ghost function After(s: State, ops: seq<Op>): (r: State)
    requires s.pos <= |s.bytes| && LegalRun(s, ops)
    ensures r.pos <= |r.bytes|
    decreases |ops|
  {
    if ops == [] then s else After(Step(s, ops[0]), ops[1..])
  }

  ghost function Answers(s: State, ops: seq<Op>): seq<Answer>
    requires s.pos <= |s.bytes| && LegalRun(s, ops)
    decreases |ops|
  {
    if ops == [] then [] else [AnswerTo(s, ops[0])] + Answers(Step(s, ops[0]), ops[1..])
  }

  method Perform(ar: MemoryArchive, op: Op) returns (answer: Answer)
    requires ar.Valid() && ar.Value().pos <= |ar.Value().bytes| && Legal(ar.Value(), op)
    modifies ar, ar.mpMemory
    ensures ar.Valid() && ar.Value() == Step(old(ar.Value()), op) && answer == AnswerTo(old(ar.Value()), op)
    ensures ar.mpMemory == old(ar.mpMemory) || fresh(ar.mpMemory)
  {
    hide Overwritten, Doubled, Written, Capacity;
    match op {
      case SeekTo(offset, from) =>
        SeekExact(ar.Value(), offset, from);
        var ok := ar.Seek(offset, from);
        answer := Sought(ok);
      case Get(count) =>
        var data := ar.Read(count);
        answer := Got(data);
      case Put(data) =>
        ar.Write(data);
        answer := Done;
    }
  }

  /** Every legal run of a new archive answers as the byte sequence with a position does. */
  method Run(ops: seq<Op>) returns (ar: MemoryArchive, answers: seq<Answer>)
    requires LegalRun(State([], 0), ops)
    ensures ar.Valid() && ar.Value() == After(State([], 0), ops) && answers == Answers(State([], 0), ops)
    ensures Capacity(ar.mAllocatedLen, |ar.Value().bytes|)
  {
    hide Step, AnswerTo, Legal, Capacity;
    ar := new MemoryArchive();
    answers := [];
    ghost var s := State([], 0);
    for i := 0 to |ops|
      invariant fresh(ar) && ar.Valid() && (ar.mpMemory != null ==> fresh(ar.mpMemory))
      invariant ar.Value() == s && s.pos <= |s.bytes|
      invariant LegalRun(s, ops[i..]) && After(s, ops[i..]) == After(State([], 0), ops)
      invariant answers + Answers(s, ops[i..]) == Answers(State([], 0), ops)
    {
      assert ops[i..][0] == ops[i] && ops[i..][1..] == ops[i + 1..];
      var answer := Perform(ar, ops[i]);
      answers := answers + [answer];
      s := Step(s, ops[i]);
    }
  }
}
