/**
 * The bit-at-a-time definition of CRC-16/XMODEM (polynomial 0x1021, most significant bit
 * first) that the table-driven implementation is checked against, with the linearity
 * facts about it that the comparison needs.
 */
module Crc16Bitwise {

  const POLY: bv16 := 0x1021

  /** One bit of polynomial division, most significant bit first. */
  function Shift(c: bv16): bv16 {
    if c & 0x8000 != 0 then (c << 1) ^ POLY else c << 1
  }

  /** `f` applied `n` times. */
  function Iter<T>(f: T -> T, c: T, n: nat): T {
    if n == 0 then c else f(Iter(f, c, n - 1))
  }

  /** Eight bits of polynomial division: one whole byte. */
  function Shift8(c: bv16): bv16 {
    Iter(Shift, c, 8)
  }

  /** The bitwise CRC of the single byte `i` from a zero register. */
  function ByteCrc(i: bv8): bv16 {
    Shift8((i as bv16) << 8)
  }

  /** The CRC register after one byte, the way a bitwise XMODEM implementation does it. */
  function BitStep(crc: bv16, b: bv8): bv16 {
    Shift8(crc ^ ((b as bv16) << 8))
  }

  /** Bitwise CRC-16/XMODEM of `data`, continuing from register value `crc`. */
  function BitwiseCrc(crc: bv16, data: seq<bv8>): bv16
    decreases |data|
  {
    if |data| == 0 then crc else BitwiseCrc(BitStep(crc, data[0]), data[1..])
  }

  /** Iterating a map that preserves `op` preserves `op`. */
  lemma {:induction false} IterHom<T>(f: T -> T, op: (T, T) -> T, a: T, b: T, n: nat)
    requires forall x: T, y: T :: f(op(x, y)) == op(f(x), f(y))
    ensures Iter(f, op(a, b), n) == op(Iter(f, a, n), Iter(f, b, n))
  {
    if n > 0 {
      IterHom(f, op, a, b, n - 1);
    }
  }

  function Xor(x: bv16, y: bv16): bv16 {
    x ^ y
  }

  lemma TopBit(c: bv16)
    ensures c & 0x8000 != 0 ==> c >> 15 == 1
    ensures c & 0x8000 == 0 ==> c >> 15 == 0
  {
  }

  /** The reduction step of `Shift` without a branch: `POLY` masked by the top bit. */
  lemma ShiftMask(c: bv16)
    ensures Shift(c) == (c << 1) ^ (POLY & (0 - (c >> 15)))
  {
    TopBit(c);
    if c & 0x8000 != 0 {
      assert POLY & (0 - (c >> 15)) == POLY;
    } else {
      assert POLY & (0 - (c >> 15)) == 0;
    }
  }

  lemma MaskXor(a: bv16, b: bv16)
    ensures POLY & (0 - ((a ^ b) >> 15)) == (POLY & (0 - (a >> 15))) ^ (POLY & (0 - (b >> 15)))
  {
  }

  lemma ShlXor(a: bv16, b: bv16)
    ensures (a ^ b) << 1 == (a << 1) ^ (b << 1)
  {
  }

  /** One shift is linear over XOR. */
  lemma ShiftXor(a: bv16, b: bv16)
    ensures Shift(a ^ b) == Shift(a) ^ Shift(b)
  {
    ShiftMask(a);
    ShiftMask(b);
    ShiftMask(a ^ b);
    MaskXor(a, b);
    ShlXor(a, b);
  }

  lemma ShiftLinear()
    ensures forall x: bv16, y: bv16 :: Shift(Xor(x, y)) == Xor(Shift(x), Shift(y))
  {
    forall x: bv16, y: bv16
      ensures Shift(Xor(x, y)) == Xor(Shift(x), Shift(y))
    {
      ShiftXor(x, y);
    }
  }

  lemma IterShiftXor(a: bv16, b: bv16)
    ensures Iter(Shift, a ^ b, 8) == Iter(Shift, a, 8) ^ Iter(Shift, b, 8)
  {
    ShiftLinear();
    IterHom(Shift, Xor, a, b, 8);
  }

  /** Eight shifts are linear over XOR. */
  lemma Shift8Xor(a: bv16, b: bv16)
    ensures Shift8(a ^ b) == Shift8(a) ^ Shift8(b)
  {
    IterShiftXor(a, b);
  }

  /** `Shift8` written out as eight nested shifts. */
  lemma Unroll8(c: bv16)
    ensures Shift8(c) == Shift(Shift(Shift(Shift(Shift(Shift(Shift(Shift(c))))))))
  {
    assert Iter(Shift, c, 1) == Shift(c);
    assert Iter(Shift, c, 2) == Shift(Shift(c));
    assert Iter(Shift, c, 3) == Shift(Shift(Shift(c)));
    assert Iter(Shift, c, 4) == Shift(Shift(Shift(Shift(c))));
    assert Iter(Shift, c, 5) == Shift(Shift(Shift(Shift(Shift(c)))));
    assert Iter(Shift, c, 6) == Shift(Shift(Shift(Shift(Shift(Shift(c))))));
    assert Iter(Shift, c, 7) == Shift(Shift(Shift(Shift(Shift(Shift(Shift(c)))))));
  }

  /** A register whose high byte is clear shifts eight times without any reduction. */
  lemma Shift8Low(l: bv16)
    requires l & 0xFF00 == 0
    ensures Shift8(l) == l << 8
  {
    Unroll8(l);
    assert Shift(l) == l << 1;
    assert Shift(l << 1) == l << 2;
    assert Shift(l << 2) == l << 3;
    assert Shift(l << 3) == l << 4;
    assert Shift(l << 4) == l << 5;
    assert Shift(l << 5) == l << 6;
    assert Shift(l << 6) == l << 7;
    assert Shift(l << 7) == l << 8;
  }

  /** Only the high byte needs reducing; the low byte just moves up. */
  lemma Shift8Split(c: bv16)
    ensures Shift8(c) == Shift8(c & 0xFF00) ^ (c << 8)
  {
    var h, l := c & 0xFF00, c & 0x00FF;
    assert c == h ^ l;
    Shift8Xor(h, l);
    Shift8Low(l);
    assert l << 8 == c << 8;
  }

  /** One byte of the bitwise loop is the CRC of the byte that meets the high register half. */
  lemma ByteSplit(crc: bv16, b: bv8)
    ensures BitStep(crc, b) == ByteCrc(((crc >> 8) as bv8) ^ b) ^ (crc << 8)
  {
    HighByte(crc, b);
    SplitAt(crc ^ ((b as bv16) << 8), (((crc >> 8) as bv8) ^ b) as bv16 << 8, crc << 8);
  }

  /** `Shift8Split` with the two halves of the register named. */
  lemma SplitAt(x: bv16, high: bv16, moved: bv16)
    requires x & 0xFF00 == high
    requires x << 8 == moved
    ensures Shift8(x) == Shift8(high) ^ moved
  {
    Shift8Split(x);
  }

  lemma HighByte(crc: bv16, b: bv8)
    ensures (crc ^ ((b as bv16) << 8)) & 0xFF00 == ((((crc >> 8) as bv8) ^ b) as bv16) << 8
    ensures (crc ^ ((b as bv16) << 8)) << 8 == crc << 8
  {
  }

  // ---------------------------------------------------------------------------------------
  // Error detection
  // ---------------------------------------------------------------------------------------

  /** One byte step is linear over XOR of register and byte together. */
  lemma StepXor(c1: bv16, c2: bv16, a: bv8, b: bv8)
    ensures BitStep(c1, a) ^ BitStep(c2, b) == BitStep(c1 ^ c2, a ^ b)
  {
    Shift8Xor(c1 ^ ((a as bv16) << 8), c2 ^ ((b as bv16) << 8));
    assert (c1 ^ ((a as bv16) << 8)) ^ (c2 ^ ((b as bv16) << 8)) == (c1 ^ c2) ^ (((a ^ b) as bv16) << 8);
  }

  /** A non-zero register stays non-zero under shifting: 0x1021 has its lowest bit set. */
  lemma ShiftNonZero(c: bv16)
    requires c != 0
    ensures Shift(c) != 0
  {
  }

  lemma {:induction false} IterNonZero(c: bv16, n: nat)
    requires c != 0
    ensures Iter(Shift, c, n) != 0
  {
    if n > 0 {
      IterNonZero(c, n - 1);
      ShiftNonZero(Iter(Shift, c, n - 1));
    }
  }

  /** Two byte steps that differ in register or byte (or both, not cancelling) differ. */
  lemma StepsDiffer(c1: bv16, c2: bv16, a: bv8, b: bv8)
    requires (c1 ^ c2) ^ (((a ^ b) as bv16) << 8) != 0
    ensures BitStep(c1, a) != BitStep(c2, b)
  {
    var e := (c1 ^ c2) ^ (((a ^ b) as bv16) << 8);
    StepXor(c1, c2, a, b);
    assert BitStep(c1 ^ c2, a ^ b) == Shift8(e);
    Shift8NonZero(e);
  }

  lemma Shift8NonZero(c: bv16)
    requires c != 0
    ensures Shift8(c) != 0
  {
    IterNonZero(c, 8);
  }

  /** Distinct registers stay distinct over any bytes: the CRC loses no register state. */
  lemma {:induction false} BitwiseRegisterKept(c1: bv16, c2: bv16, x: seq<bv8>)
    requires c1 != c2
    ensures BitwiseCrc(c1, x) != BitwiseCrc(c2, x)
    decreases |x|
  {
    if |x| > 0 {
      assert (c1 ^ c2) ^ (((x[0] ^ x[0]) as bv16) << 8) == c1 ^ c2;
      StepsDiffer(c1, c2, x[0], x[0]);
      BitwiseRegisterKept(BitStep(c1, x[0]), BitStep(c2, x[0]), x[1..]);
    }
  }
}
