/**
 * CRC-16/XMODEM (polynomial 0x1021, initial value 0, no reflection, no final XOR) as the
 * serial link computes it: a table-driven fold over the bytes, seeded by the caller.
 * The model proves that the table fold agrees with the bit-at-a-time definition.
 */
module Crc16 {
  import opened Crc16Table
  import opened Crc16Bitwise

  // ---------------------------------------------------------------------------------------
  // Table-driven implementation
  // ---------------------------------------------------------------------------------------

  /** One iteration of the loop: `table[(crc >> 8) ^ b] ^ (crc << 8)`, kept to 16 bits. */
  function TableStep(crc: bv16, b: bv8): bv16 {
    Entry(((crc >> 8) as bv8) ^ b) ^ (crc << 8)
  }

  /** `morse_crc16(crc, data, len)`. */
  function Crc(crc: bv16, data: seq<bv8>): bv16
    decreases |data|
  {
    if |data| == 0 then crc else Crc(TableStep(crc, data[0]), data[1..])
  }

  /** `morse_crc16` as the source writes it: a loop over the bytes. */
  method Compute(crc: bv16, data: seq<bv8>) returns (r: bv16)
    ensures r == BitwiseCrc(crc, data)
  {
    r := crc;
    var i := 0;
    while i < |data|
      invariant 0 <= i <= |data|
      invariant Crc(r, data[i..]) == Crc(crc, data)
    {
      assert data[i..][1..] == data[i + 1..];
      r := TableStep(r, data[i]);
      i := i + 1;
    }
    assert data[i..] == [];
    CrcIsXmodem(crc, data);
  }

  // ---------------------------------------------------------------------------------------
  // The table is the bitwise CRC of each byte
  // ---------------------------------------------------------------------------------------

  /** Every table entry is the bitwise CRC of its index. */
  lemma TableIsBitwise(i: bv8)
    ensures Entry(i) == ByteCrc(i)
  {
    Unroll8((i as bv16) << 8);
  }

  /** One table step equals eight bitwise steps. */
  lemma StepAgrees(crc: bv16, b: bv8)
    ensures TableStep(crc, b) == BitStep(crc, b)
  {
    ByteSplit(crc, b);
    TableIsBitwise(((crc >> 8) as bv8) ^ b);
  }

  /** The table-driven fold computes CRC-16/XMODEM for every seed and every input. */
  lemma {:induction false} CrcIsXmodem(crc: bv16, data: seq<bv8>)
    ensures Crc(crc, data) == BitwiseCrc(crc, data)
    decreases |data|
  {
    if |data| > 0 {
      StepAgrees(crc, data[0]);
      CrcIsXmodem(TableStep(crc, data[0]), data[1..]);
    }
  }

  /** Seeding with the CRC of a prefix continues the computation over the suffix. */
  lemma {:induction false} CrcChain(seed: bv16, a: seq<bv8>, b: seq<bv8>)
    ensures Crc(Crc(seed, a), b) == Crc(seed, a + b)
    decreases |a|
  {
    if |a| == 0 {
      assert a + b == b;
    } else {
      assert (a + b)[0] == a[0];
      assert (a + b)[1..] == a[1..] + b;
      CrcChain(TableStep(seed, a[0]), a[1..], b);
    }
  }

  /** The CRC-16/XMODEM check value: the CRC of ASCII "123456789" is 0x31C3. */
  lemma CheckValue()
    ensures Crc(0, [0x31, 0x32, 0x33, 0x34, 0x35, 0x36, 0x37, 0x38, 0x39]) == 0x31C3
  {
    var d: seq<bv8> := [0x31, 0x32, 0x33, 0x34, 0x35, 0x36, 0x37, 0x38, 0x39];
    assert TableStep(0, 0x31) == 0x2672;
    assert TableStep(0x2672, 0x32) == 0x20B5;
    assert TableStep(0x20B5, 0x33) == 0x9752;
    assert TableStep(0x9752, 0x34) == 0xD789;
    assert TableStep(0xD789, 0x35) == 0x546C;
    assert TableStep(0x546C, 0x36) == 0x20E4;
    assert TableStep(0x20E4, 0x37) == 0x86D6;
    assert TableStep(0x86D6, 0x38) == 0x9015;
    assert TableStep(0x9015, 0x39) == 0x31C3;
    assert d[1..][1..][1..][1..][1..][1..][1..][1..][1..] == [];
  }

  /**
   * CRC-16/XMODEM detects every error confined to one byte, single-bit flips included:
   * changing byte `k` by a non-zero `d` changes the CRC.
   */
  lemma ByteErrorDetected(data: seq<bv8>, k: nat, d: bv8)
    requires k < |data| && d != 0
    ensures Crc(0, data[k := data[k] ^ d]) != Crc(0, data)
  {
    var a, x, b := data[..k], data[k], data[k + 1..];
    assert data == a + ([x] + b);
    assert data[k := x ^ d] == a + ([x ^ d] + b);
    CrcChain(0, a, [x] + b);
    CrcChain(0, a, [x ^ d] + b);
    assert ([x] + b)[1..] == b && ([x ^ d] + b)[1..] == b;
    TableStepsDiffer(Crc(0, a), x, d);
    RegisterKept(TableStep(Crc(0, a), x), TableStep(Crc(0, a), x ^ d), b);
  }

  /** Changing the byte by a non-zero `d` changes the register after the step. */
  lemma TableStepsDiffer(r: bv16, x: bv8, d: bv8)
    requires d != 0
    ensures TableStep(r, x) != TableStep(r, x ^ d)
  {
    var y := x ^ d;
    assert BitStep(r, x) != BitStep(r, y) by {
      Difference(r, x, d);
      StepsDiffer(r, r, x, y);
    }
    StepAgrees(r, x);
    StepAgrees(r, y);
  }

  /** The register-and-byte difference of two steps from `r` over `x` and `x ^ d`. */
  lemma Difference(r: bv16, x: bv8, d: bv8)
    requires d != 0
    ensures (r ^ r) ^ (((x ^ (x ^ d)) as bv16) << 8) != 0
  {
    assert (r ^ r) ^ (((x ^ (x ^ d)) as bv16) << 8) == (d as bv16) << 8;
  }

  /** Distinct registers stay distinct over the same bytes. */
  lemma RegisterKept(c1: bv16, c2: bv16, data: seq<bv8>)
    requires c1 != c2
    ensures Crc(c1, data) != Crc(c2, data)
  {
    CrcIsXmodem(c1, data);
    CrcIsXmodem(c2, data);
    BitwiseRegisterKept(c1, c2, data);
  }
}
