/** Long division by the CRC polynomial over GF(2), one bit at a time.  Exclusive or is a named function
    so that proofs above the bit level use its laws only. */
module PolynomialDivision {

  const POLYNOMIAL: bv32 := 0x04c11db7

  function Xor(a: bv32, b: bv32): bv32 { a ^ b }

  function Twice(s: bv32): bv32 { s << 1 }

  predicate Top(s: bv32) { s & 0x80000000 != 0 }

  function Carry(s: bv32): bv32 { if Top(s) then POLYNOMIAL else 0 }

  /** Shift the register; if a one falls out, subtract the polynomial. */
  function Step(s: bv32): bv32 { Xor(Twice(s), Carry(s)) }

  function Step8(s: bv32): bv32 { Step(Step(Step(Step(Step(Step(Step(Step(s)))))))) }

  /** A byte entering at the top of the register. */
  function Enter(b: bv8): bv32 { (b as bv32) << 24 }

  function TopBit(b: bv8): bv32 { if b & 0x80 != 0 then 0x80000000 else 0 }

  function Rest(b: bv8): bv8 { b << 1 }

  /** Division of the first n bits of b, most significant bit first. */
  ghost function DivideByte(s: bv32, b: bv8, n: nat): bv32
    decreases n
  {
    if n == 0 then s else DivideByte(Step(Xor(s, TopBit(b))), Rest(b), n - 1)
  }

  /** Bit-at-a-time division of a message, most significant bit of each byte first. */
  ghost function Divide(s: bv32, message: seq<bv8>): bv32
    decreases |message|
  {
    if message == [] then s else Divide(DivideByte(s, message[0], 8), message[1..])
  }

  lemma XorCommutes(a: bv32, b: bv32)
    ensures Xor(a, b) == Xor(b, a)
  {}

  lemma XorAssociates(a: bv32, b: bv32, c: bv32)
    ensures Xor(Xor(a, b), c) == Xor(a, Xor(b, c))
  {}

  lemma XorCancels(a: bv32, b: bv32)
    ensures Xor(a, a) == 0 && Xor(a, 0) == a && Xor(0, a) == a
    ensures Xor(a, b) == 0 ==> a == b
  {}

  lemma XorInterchange(a: bv32, b: bv32, p: bv32, q: bv32)
    ensures Xor(Xor(a, b), Xor(p, q)) == Xor(Xor(a, p), Xor(b, q))
  {
    hide Xor;
    XorAssociates(a, b, Xor(p, q));
    XorAssociates(b, p, q);
    XorCommutes(b, p);
    XorAssociates(p, b, q);
    XorAssociates(a, p, Xor(b, q));
  }

  lemma TwiceLinear(a: bv32, b: bv32)
    ensures Twice(Xor(a, b)) == Xor(Twice(a), Twice(b))
  {}

  lemma TopLinear(a: bv32, b: bv32)
    ensures Top(Xor(a, b)) <==> Top(a) != Top(b)
  {}

  lemma CarryLinear(a: bv32, b: bv32)
    ensures Carry(Xor(a, b)) == Xor(Carry(a), Carry(b))
  {
    hide Xor, Top;
    TopLinear(a, b);
    XorCancels(POLYNOMIAL, 0);
    XorCancels(0, 0);
  }

  lemma StepLinear(a: bv32, b: bv32)
    ensures Step(Xor(a, b)) == Xor(Step(a), Step(b))
  {
    hide Xor, Twice, Carry;
    TwiceLinear(a, b);
    CarryLinear(a, b);
    XorInterchange(Twice(a), Twice(b), Carry(a), Carry(b));
  }

  lemma Step8Linear(a: bv32, b: bv32)
    ensures Step8(Xor(a, b)) == Xor(Step8(a), Step8(b))
  {
    hide Step, Xor;
    var a1, b1 := Step(a), Step(b);
    var a2, b2 := Step(a1), Step(b1);
    var a3, b3 := Step(a2), Step(b2);
    var a4, b4 := Step(a3), Step(b3);
    var a5, b5 := Step(a4), Step(b4);
    var a6, b6 := Step(a5), Step(b5);
    var a7, b7 := Step(a6), Step(b6);
    StepLinear(a, b);
    StepLinear(a1, b1);
    StepLinear(a2, b2);
    StepLinear(a3, b3);
    StepLinear(a4, b4);
    StepLinear(a5, b5);
    StepLinear(a6, b6);
    StepLinear(a7, b7);
  }

  /** The polynomial has a constant term, so no non-zero register is divided to zero. */
  lemma StepZero(z: bv32)
    requires Step(z) == 0
    ensures z == 0
  {}

  predicate TopClear(x: bv32) { !Top(x) }

  /** While no one reaches the top, a step is a shift. */
  lemma StepShifts(x: bv32)
    requires TopClear(x)
    ensures Step(x) == Twice(x)
  {}

  lemma Step8Shifts(x: bv32)
    requires x & 0xff000000 == 0
    ensures Step8(x) == x << 8
  {
    hide Step, Twice, TopClear;
    ShiftFacts(x);
    var x1 := Twice(x);
    var x2 := Twice(x1);
    var x3 := Twice(x2);
    var x4 := Twice(x3);
    var x5 := Twice(x4);
    var x6 := Twice(x5);
    var x7 := Twice(x6);
    StepShifts(x);
    StepShifts(x1);
    StepShifts(x2);
    StepShifts(x3);
    StepShifts(x4);
    StepShifts(x5);
    StepShifts(x6);
    StepShifts(x7);
  }

  lemma ShiftFacts(x: bv32)
    requires x & 0xff000000 == 0
    ensures TopClear(x)
    ensures TopClear(Twice(x))
    ensures TopClear(Twice(Twice(x)))
    ensures TopClear(Twice(Twice(Twice(x))))
    ensures TopClear(Twice(Twice(Twice(Twice(x)))))
    ensures TopClear(Twice(Twice(Twice(Twice(Twice(x))))))
    ensures TopClear(Twice(Twice(Twice(Twice(Twice(Twice(x)))))))
    ensures TopClear(Twice(Twice(Twice(Twice(Twice(Twice(Twice(x))))))))
    ensures Twice(Twice(Twice(Twice(Twice(Twice(Twice(Twice(x)))))))) == x << 8
  {}

  lemma EnterSplits(b: bv8)
    ensures Enter(b) == Xor(TopBit(b), Enter(b & 0x7f)) && TopClear(Enter(b & 0x7f))
    ensures Twice(Enter(b & 0x7f)) == Enter(Rest(b))
  {}

  /** A whole byte entered at once may as well enter bit by bit. */
  lemma EnterBitwise(s: bv32, b: bv8)
    ensures Step(Xor(s, Enter(b))) == Xor(Step(Xor(s, TopBit(b))), Enter(Rest(b)))
  {
    hide Step, Xor, Enter, TopBit, TopClear, Twice, Rest;
    var rest := Enter(b & 0x7f);
    EnterSplits(b);
    XorAssociates(s, TopBit(b), rest);
    StepLinear(Xor(s, TopBit(b)), rest);
    StepShifts(rest);
  }

  lemma DivideByteIsStep8(s: bv32, b: bv8)
    ensures DivideByte(s, b, 8) == Step8(Xor(s, Enter(b)))
  {
    hide Step, Xor, Enter, TopBit, Rest, DivideByte;
    var b1 := Rest(b);
    var b2 := Rest(b1);
    var b3 := Rest(b2);
    var b4 := Rest(b3);
    var b5 := Rest(b4);
    var b6 := Rest(b5);
    var b7 := Rest(b6);
    var b8 := Rest(b7);
    var s1 := Step(Xor(s, TopBit(b)));
    var s2 := Step(Xor(s1, TopBit(b1)));
    var s3 := Step(Xor(s2, TopBit(b2)));
    var s4 := Step(Xor(s3, TopBit(b3)));
    var s5 := Step(Xor(s4, TopBit(b4)));
    var s6 := Step(Xor(s5, TopBit(b5)));
    var s7 := Step(Xor(s6, TopBit(b6)));
    var s8 := Step(Xor(s7, TopBit(b7)));
    EnterBitwise(s, b);
    EnterBitwise(s1, b1);
    EnterBitwise(s2, b2);
    EnterBitwise(s3, b3);
    EnterBitwise(s4, b4);
    EnterBitwise(s5, b5);
    EnterBitwise(s6, b6);
    EnterBitwise(s7, b7);
    NothingLeft(b);
    NothingEnters(s8);
    DivideBit(s, b, 8);
    DivideBit(s1, b1, 7);
    DivideBit(s2, b2, 6);
    DivideBit(s3, b3, 5);
    DivideBit(s4, b4, 4);
    DivideBit(s5, b5, 3);
    DivideBit(s6, b6, 2);
    DivideBit(s7, b7, 1);
    DivideNoBits(s8, b8);
  }

  lemma DivideBit(s: bv32, b: bv8, n: nat)
    requires n > 0
    ensures DivideByte(s, b, n) == DivideByte(Step(Xor(s, TopBit(b))), Rest(b), n - 1)
  {}

  lemma DivideNoBits(s: bv32, b: bv8)
    ensures DivideByte(s, b, 0) == s
  {}

  lemma NothingLeft(b: bv8)
    ensures Rest(Rest(Rest(Rest(Rest(Rest(Rest(Rest(b)))))))) == 0
  {}

  lemma NothingEnters(s: bv32)
    ensures Xor(s, Enter(0)) == s
  {}
}

/** The table and the streaming interface. */
module Crc32 {
  import opened PolynomialDivision

  /** crctab, sixteen entries a row */
  const CRCTAB: seq<seq<bv32>> := [
    [0x00000000, 0x04c11db7, 0x09823b6e, 0x0d4326d9, 0x130476dc, 0x17c56b6b, 0x1a864db2, 0x1e475005,
     0x2608edb8, 0x22c9f00f, 0x2f8ad6d6, 0x2b4bcb61, 0x350c9b64, 0x31cd86d3, 0x3c8ea00a, 0x384fbdbd],
    [0x4c11db70, 0x48d0c6c7, 0x4593e01e, 0x4152fda9, 0x5f15adac, 0x5bd4b01b, 0x569796c2, 0x52568b75,
     0x6a1936c8, 0x6ed82b7f, 0x639b0da6, 0x675a1011, 0x791d4014, 0x7ddc5da3, 0x709f7b7a, 0x745e66cd],
    [0x9823b6e0, 0x9ce2ab57, 0x91a18d8e, 0x95609039, 0x8b27c03c, 0x8fe6dd8b, 0x82a5fb52, 0x8664e6e5,
     0xbe2b5b58, 0xbaea46ef, 0xb7a96036, 0xb3687d81, 0xad2f2d84, 0xa9ee3033, 0xa4ad16ea, 0xa06c0b5d],
    [0xd4326d90, 0xd0f37027, 0xddb056fe, 0xd9714b49, 0xc7361b4c, 0xc3f706fb, 0xceb42022, 0xca753d95,
     0xf23a8028, 0xf6fb9d9f, 0xfbb8bb46, 0xff79a6f1, 0xe13ef6f4, 0xe5ffeb43, 0xe8bccd9a, 0xec7dd02d],
    [0x34867077, 0x30476dc0, 0x3d044b19, 0x39c556ae, 0x278206ab, 0x23431b1c, 0x2e003dc5, 0x2ac12072,
     0x128e9dcf, 0x164f8078, 0x1b0ca6a1, 0x1fcdbb16, 0x018aeb13, 0x054bf6a4, 0x0808d07d, 0x0cc9cdca],
    [0x7897ab07, 0x7c56b6b0, 0x71159069, 0x75d48dde, 0x6b93dddb, 0x6f52c06c, 0x6211e6b5, 0x66d0fb02,
     0x5e9f46bf, 0x5a5e5b08, 0x571d7dd1, 0x53dc6066, 0x4d9b3063, 0x495a2dd4, 0x44190b0d, 0x40d816ba],
    [0xaca5c697, 0xa864db20, 0xa527fdf9, 0xa1e6e04e, 0xbfa1b04b, 0xbb60adfc, 0xb6238b25, 0xb2e29692,
     0x8aad2b2f, 0x8e6c3698, 0x832f1041, 0x87ee0df6, 0x99a95df3, 0x9d684044, 0x902b669d, 0x94ea7b2a],
    [0xe0b41de7, 0xe4750050, 0xe9362689, 0xedf73b3e, 0xf3b06b3b, 0xf771768c, 0xfa325055, 0xfef34de2,
     0xc6bcf05f, 0xc27dede8, 0xcf3ecb31, 0xcbffd686, 0xd5b88683, 0xd1799b34, 0xdc3abded, 0xd8fba05a],
    [0x690ce0ee, 0x6dcdfd59, 0x608edb80, 0x644fc637, 0x7a089632, 0x7ec98b85, 0x738aad5c, 0x774bb0eb,
     0x4f040d56, 0x4bc510e1, 0x46863638, 0x42472b8f, 0x5c007b8a, 0x58c1663d, 0x558240e4, 0x51435d53],
    [0x251d3b9e, 0x21dc2629, 0x2c9f00f0, 0x285e1d47, 0x36194d42, 0x32d850f5, 0x3f9b762c, 0x3b5a6b9b,
     0x0315d626, 0x07d4cb91, 0x0a97ed48, 0x0e56f0ff, 0x1011a0fa, 0x14d0bd4d, 0x19939b94, 0x1d528623],
    [0xf12f560e, 0xf5ee4bb9, 0xf8ad6d60, 0xfc6c70d7, 0xe22b20d2, 0xe6ea3d65, 0xeba91bbc, 0xef68060b,
     0xd727bbb6, 0xd3e6a601, 0xdea580d8, 0xda649d6f, 0xc423cd6a, 0xc0e2d0dd, 0xcda1f604, 0xc960ebb3],
    [0xbd3e8d7e, 0xb9ff90c9, 0xb4bcb610, 0xb07daba7, 0xae3afba2, 0xaafbe615, 0xa7b8c0cc, 0xa379dd7b,
     0x9b3660c6, 0x9ff77d71, 0x92b45ba8, 0x9675461f, 0x8832161a, 0x8cf30bad, 0x81b02d74, 0x857130c3],
    [0x5d8a9099, 0x594b8d2e, 0x5408abf7, 0x50c9b640, 0x4e8ee645, 0x4a4ffbf2, 0x470cdd2b, 0x43cdc09c,
     0x7b827d21, 0x7f436096, 0x7200464f, 0x76c15bf8, 0x68860bfd, 0x6c47164a, 0x61043093, 0x65c52d24],
    [0x119b4be9, 0x155a565e, 0x18197087, 0x1cd86d30, 0x029f3d35, 0x065e2082, 0x0b1d065b, 0x0fdc1bec,
     0x3793a651, 0x3352bbe6, 0x3e119d3f, 0x3ad08088, 0x2497d08d, 0x2056cd3a, 0x2d15ebe3, 0x29d4f654],
    [0xc5a92679, 0xc1683bce, 0xcc2b1d17, 0xc8ea00a0, 0xd6ad50a5, 0xd26c4d12, 0xdf2f6bcb, 0xdbee767c,
     0xe3a1cbc1, 0xe760d676, 0xea23f0af, 0xeee2ed18, 0xf0a5bd1d, 0xf464a0aa, 0xf9278673, 0xfde69bc4],
    [0x89b8fd09, 0x8d79e0be, 0x803ac667, 0x84fbdbd0, 0x9abc8bd5, 0x9e7d9662, 0x933eb0bb, 0x97ffad0c,
     0xafb010b1, 0xab710d06, 0xa6322bdf, 0xa2f33668, 0xbcb4666d, 0xb8757bda, 0xb5365d03, 0xb1f740b4]
  ]

  function Crctab(i: bv8): bv32 { CRCTAB[(i >> 4) as int][(i & 15) as int] }

  function IndexOf(s: bv32, ch: bv8): bv8 { (0xff & ((s >> 24) ^ (ch as bv32))) as bv8 }

  /** COMPUTE(var, ch) */
  function Compute(s: bv32, ch: bv8): bv32 { Xor(s << 8, Crctab(IndexOf(s, ch))) }

  /** Every table entry is eight division steps of its index. */
  lemma TableIsEightSteps(i: bv8)
    ensures Crctab(i) == Step8(Enter(i))
  {
    hide *;
    if i < 64 {
      TableQuarter0(i);
    } else if i < 128 {
      TableQuarter1(i);
    } else if i < 192 {
      TableQuarter2(i);
    } else {
      TableQuarter3(i);
    }
  }

  lemma TableQuarter0(i: bv8)
    requires i < 64
    ensures Crctab(i) == Step8(Enter(i))
  {}

  lemma TableQuarter1(i: bv8)
    requires 64 <= i < 128
    ensures Crctab(i) == Step8(Enter(i))
  {}

  lemma TableQuarter2(i: bv8)
    requires 128 <= i < 192
    ensures Crctab(i) == Step8(Enter(i))
  {}

  lemma TableQuarter3(i: bv8)
    requires 192 <= i
    ensures Crctab(i) == Step8(Enter(i))
  {}

  /** The table is linear over exclusive or. */
  lemma TableLinear(i: bv8, j: bv8)
    ensures Crctab(i ^ j) == Xor(Crctab(i), Crctab(j))
  {
    hide *;
    TableIsEightSteps(i);
    TableIsEightSteps(j);
    TableIsEightSteps(i ^ j);
    EnterLinear(i, j);
    Step8Linear(Enter(i), Enter(j));
  }

  lemma EnterLinear(i: bv8, j: bv8)
    ensures Enter(i ^ j) == Xor(Enter(i), Enter(j))
  {}

  lemma IndexParts(s: bv32, ch: bv8)
    ensures Enter(IndexOf(s, ch)) == Xor(s & 0xff000000, Enter(ch))
    ensures Xor(s & 0x00ffffff, s & 0xff000000) == s
  {}

  lemma IndexEnters(s: bv32, ch: bv8)
    ensures Xor(s & 0x00ffffff, Enter(IndexOf(s, ch))) == Xor(s, Enter(ch))
  {
    hide *;
    IndexParts(s, ch);
    XorAssociates(s & 0x00ffffff, s & 0xff000000, Enter(ch));
  }

  /** One table step is eight division steps with the byte entering at the top. */
  lemma ComputeIsStep8(s: bv32, ch: bv8)
    ensures Compute(s, ch) == Step8(Xor(s, Enter(ch)))
  {
    hide Crctab, Step8, Xor, Enter, IndexOf;
    var i := IndexOf(s, ch);
    TableIsEightSteps(i);
    IndexEnters(s, ch);
    Step8Linear(s & 0x00ffffff, Enter(i));
    LowBytes(s);
    Step8Shifts(s & 0x00ffffff);
  }

  lemma LowBytes(s: bv32)
    ensures (s & 0x00ffffff) & 0xff000000 == 0 && (s & 0x00ffffff) << 8 == s << 8
  {}

  /** The register after a run of bytes. */
  function ComputeAll(s: bv32, message: seq<bv8>): bv32
    decreases |message|
  {
    if message == [] then s else ComputeAll(Compute(s, message[0]), message[1..])
  }

  /** Table-driven and bit-at-a-time division agree on every message. */
  lemma {:induction false} ComputeAllIsDivision(s: bv32, message: seq<bv8>)
    ensures ComputeAll(s, message) == Divide(s, message)
    decreases |message|
  {
    hide Compute, Step8, DivideByte, Enter, Xor;
    if message != [] {
      ComputeIsStep8(s, message[0]);
      DivideByteIsStep8(s, message[0]);
      ComputeAllIsDivision(Compute(s, message[0]), message[1..]);
    }
  }

  lemma {:induction false} ComputeAllConcat(s: bv32, a: seq<bv8>, b: seq<bv8>)
    ensures ComputeAll(s, a + b) == ComputeAll(ComputeAll(s, a), b)
    decreases |a|
  {
    hide Compute;
    if a == [] {
      assert a + b == b;
    } else {
      assert (a + b)[1..] == a[1..] + b;
      ComputeAllConcat(Compute(s, a[0]), a[1..], b);
    }
  }

  // ---- the streaming interface ----

  const UINT32: nat := 0x1_0000_0000

  function LowByte(len: nat): bv8 { (len % 256) as bv8 }

  function Complement(x: bv32): bv32 { !x & 0xffffffff }

  /** The bytes of the length, least significant first, without leading zeros (IEEE Std 1003.2, cksum). */
  function LengthBytes(len: nat): seq<bv8> {
    if len == 0 then [] else [LowByte(len)] + LengthBytes(len / 256)
  }

  /** The checksum of a message: divide the message and its length, then complement. */
  ghost function Cksum(message: seq<bv8>): bv32 {
    Complement(Divide(0, message + LengthBytes(|message| % UINT32)))
  }

  /** The number that digits to base 256 stand for, least significant first */
  function NumberOf(digits: seq<nat>): nat {
    if digits == [] then 0 else digits[0] + 256 * NumberOf(digits[1..])
  }

  /** The bytes are the digits of a length, without leading zeros. */
  ghost predicate DigitsOf(bytes: seq<bv8>, len: nat) {
    exists digits: seq<nat> ::
      && |digits| == |bytes| && NumberOf(digits) == len && (digits != [] ==> digits[|digits| - 1] != 0)
      && forall i :: 0 <= i < |bytes| ==> IsByte(bytes[i], digits[i])
  }

  predicate IsByte(b: bv8, digit: nat) { digit < 256 && b == digit as bv8 }

  function Digits(len: nat): (digits: seq<nat>)
    ensures NumberOf(digits) == len && (digits != [] ==> digits[|digits| - 1] != 0)
  {
    if len == 0 then []
    else
      var digits := [len % 256] + Digits(len / 256);
      assert digits[1..] == Digits(len / 256);
      digits
  }

  lemma {:induction false} LengthDigits(len: nat)
    ensures |Digits(len)| == |LengthBytes(len)|
    ensures forall i :: 0 <= i < |LengthBytes(len)| ==> IsByte(LengthBytes(len)[i], Digits(len)[i])
  {
    hide IsByte, LowByte;
    if len != 0 {
      LengthDigits(len / 256);
      LowByteIs(len);
    }
  }

  lemma LowByteIs(len: nat)
    ensures IsByte(LowByte(len), len % 256)
  {}

  lemma LengthIs(len: nat)
    ensures DigitsOf(LengthBytes(len), len)
  {
    LengthDigits(len);
    hide LengthBytes, Digits, NumberOf;
    assert |Digits(len)| == |LengthBytes(len)|;
  }

  lemma ComplementIs(x: bv32)
    ensures Xor(Complement(x), x) == 0xffffffff
  {}

  /** The checksum is the one of the cksum utility: a remainder with all its bits inverted, of the message followed by
      the digits of its length modulo 2^32. */
  lemma CksumIs(message: seq<bv8>)
    ensures exists suffix ::
              DigitsOf(suffix, |message| % 4294967296) && Xor(Cksum(message), Divide(0, message + suffix)) == 0xffffffff
  {
    var len := |message| % UINT32;
    LengthIs(len);
    ComplementIs(Divide(0, message + LengthBytes(len)));
    hide LengthBytes, Xor, Complement, Divide, DigitsOf;
    assert DigitsOf(LengthBytes(len), |message| % 4294967296);
  }

  class CrcInfo {
    var crc: bv32
    var cbTotalLen: nat  // a uint32
    ghost var fed: seq<bv8>  // every byte since crcInit

    ghost predicate Valid()
      reads this
    {
      crc == Divide(0, fed) && cbTotalLen == |fed| % UINT32
    }

    /** crcInit */
    constructor ()
      ensures Valid() && fed == []
    {
      cbTotalLen, crc, fed := 0, 0, [];
    }

    method Update(data: seq<bv8>)
      requires Valid()
      modifies this
      ensures Valid() && fed == old(fed) + data
    {
      hide Compute, Divide;
      for i := 0 to |data|
        invariant crc == ComputeAll(old(crc), data[..i]) && cbTotalLen == old(cbTotalLen) && fed == old(fed)
      {
        ComputeAllConcat(old(crc), data[..i], [data[i]]);
        assert data[..i + 1] == data[..i] + [data[i]];
        assert ComputeAll(crc, [data[i]]) == ComputeAll(Compute(crc, data[i]), []);
        crc := Compute(crc, data[i]);
      }
      assert data[..|data|] == data;
      cbTotalLen := (cbTotalLen + |data|) % UINT32;
      ComputeAllConcat(0, fed, data);
      ComputeAllIsDivision(0, fed);
      ComputeAllIsDivision(0, fed + data);
      fed := fed + data;
    }

    /** crcFinit: the length enters one byte at a time, then the register is complemented. */
    method Finit()
      requires Valid()
      modifies this`crc
      ensures crc == Cksum(fed)
      ensures exists suffix ::
                DigitsOf(suffix, |fed| % 4294967296) && Xor(crc, Divide(0, fed + suffix)) == 0xffffffff
    {
      hide Compute, ComputeAll, LengthBytes, LowByte, Complement, Divide, DigitsOf, Xor;
      var len := cbTotalLen;
      ComputeAllConcat(0, fed, LengthBytes(len));
      ComputeAllIsDivision(0, fed);
      ComputeAllIsDivision(0, fed + LengthBytes(len));
      while len != 0
        invariant ComputeAll(crc, LengthBytes(len)) == Divide(0, fed + LengthBytes(cbTotalLen))
      {
        NextLengthByte(crc, len);
        crc := Compute(crc, LowByte(len));
        len := len / 256;
      }
      NoLengthLeft(crc);
      crc := Complement(crc);
      CksumIs(fed);
    }
  }

  lemma NextLengthByte(s: bv32, len: nat)
    requires len != 0
    ensures ComputeAll(s, LengthBytes(len)) == ComputeAll(Compute(s, LowByte(len)), LengthBytes(len / 256))
  {
    hide Compute;
    assert LengthBytes(len)[1..] == LengthBytes(len / 256);
  }

  lemma NoLengthLeft(s: bv32)
    ensures ComputeAll(s, LengthBytes(0)) == s
  {}
}
