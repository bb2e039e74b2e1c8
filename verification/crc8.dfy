/**
 * The CRC8 engine of the ATE401 UART protocol: a table-driven CRC-8 with
 * polynomial x^8 + x^2 + x + 1 (0x07), seed 0, no reflection and no final XOR.
 *
 * The 256-entry lookup table is kept exactly as the firmware lays it out,
 * sixteen rows of sixteen entries; `Table(i)` picks row `i >> 4`, column
 * `i & 0x0F`, which is the same entry as indexing the flat array with `i`.
 * Every index the firmware uses is a byte (`crc ^ data[i]` of two uint8),
 * so the domain of `Table` is `bv8`.
 */
module Crc8 {

  import opened CrcFold

  /** Entry `n` (0..15) of the sixteen entries `e0`..`eF`. */
  function Pick(n: bv8, e0: bv8, e1: bv8, e2: bv8, e3: bv8, e4: bv8, e5: bv8, e6: bv8, e7: bv8, e8: bv8, e9: bv8, eA: bv8, eB: bv8, eC: bv8, eD: bv8, eE: bv8, eF: bv8): bv8
  {
    if n < 8 then
      if n < 4 then if n < 2 then (if n < 1 then e0 else e1) else (if n < 3 then e2 else e3)
      else if n < 6 then (if n < 5 then e4 else e5) else (if n < 7 then e6 else e7)
    else
      if n < 12 then if n < 10 then (if n < 9 then e8 else e9) else (if n < 11 then eA else eB)
      else if n < 14 then (if n < 13 then eC else eD) else (if n < 15 then eE else eF)
  }

  /**
   * crc8Table[i]. The entries live in `Entries`, whose extra `layer`
   * argument does not affect any value: it only controls how far the
   * verifier unfolds the 256-entry table, so that the entries are examined
   * only by the proof that names them (`EntriesMatchPolynomial`).
   */
  function Table(i: bv8): bv8
  {
    Entries(i, 1)
  }

  /**
   * The sixteen rows of crc8Table, each written as in the firmware; entry
   * `i` is row `i >> 4`, column `i & 0x0F`. The `layer` parameter changes
   * nothing about the value: it only keeps the verifier from expanding all
   * 256 entries wherever `Table` is mentioned, so that they are examined
   * only where a proof names `Entries(i, 0)`.
   */
  function Entries(i: bv8, layer: nat): bv8
    decreases layer
  {
    if layer > 0 then Entries(i, layer - 1) else
    var h, n := i >> 4, i & 0x0F;
    if h < 8 then
      if h < 4 then
        if h < 2 then
          if h < 1 then
            Pick(n, 0x00, 0x07, 0x0E, 0x09, 0x1C, 0x1B, 0x12, 0x15, 0x38, 0x3F, 0x36, 0x31, 0x24, 0x23, 0x2A, 0x2D)
          else
            Pick(n, 0x70, 0x77, 0x7E, 0x79, 0x6C, 0x6B, 0x62, 0x65, 0x48, 0x4F, 0x46, 0x41, 0x54, 0x53, 0x5A, 0x5D)
        else
          if h < 3 then
            Pick(n, 0xE0, 0xE7, 0xEE, 0xE9, 0xFC, 0xFB, 0xF2, 0xF5, 0xD8, 0xDF, 0xD6, 0xD1, 0xC4, 0xC3, 0xCA, 0xCD)
          else
            Pick(n, 0x90, 0x97, 0x9E, 0x99, 0x8C, 0x8B, 0x82, 0x85, 0xA8, 0xAF, 0xA6, 0xA1, 0xB4, 0xB3, 0xBA, 0xBD)
      else
        if h < 6 then
          if h < 5 then
            Pick(n, 0xC7, 0xC0, 0xC9, 0xCE, 0xDB, 0xDC, 0xD5, 0xD2, 0xFF, 0xF8, 0xF1, 0xF6, 0xE3, 0xE4, 0xED, 0xEA)
          else
            Pick(n, 0xB7, 0xB0, 0xB9, 0xBE, 0xAB, 0xAC, 0xA5, 0xA2, 0x8F, 0x88, 0x81, 0x86, 0x93, 0x94, 0x9D, 0x9A)
        else
          if h < 7 then
            Pick(n, 0x27, 0x20, 0x29, 0x2E, 0x3B, 0x3C, 0x35, 0x32, 0x1F, 0x18, 0x11, 0x16, 0x03, 0x04, 0x0D, 0x0A)
          else
            Pick(n, 0x57, 0x50, 0x59, 0x5E, 0x4B, 0x4C, 0x45, 0x42, 0x6F, 0x68, 0x61, 0x66, 0x73, 0x74, 0x7D, 0x7A)
    else
      if h < 12 then
        if h < 10 then
          if h < 9 then
            Pick(n, 0x89, 0x8E, 0x87, 0x80, 0x95, 0x92, 0x9B, 0x9C, 0xB1, 0xB6, 0xBF, 0xB8, 0xAD, 0xAA, 0xA3, 0xA4)
          else
            Pick(n, 0xF9, 0xFE, 0xF7, 0xF0, 0xE5, 0xE2, 0xEB, 0xEC, 0xC1, 0xC6, 0xCF, 0xC8, 0xDD, 0xDA, 0xD3, 0xD4)
        else
          if h < 11 then
            Pick(n, 0x69, 0x6E, 0x67, 0x60, 0x75, 0x72, 0x7B, 0x7C, 0x51, 0x56, 0x5F, 0x58, 0x4D, 0x4A, 0x43, 0x44)
          else
            Pick(n, 0x19, 0x1E, 0x17, 0x10, 0x05, 0x02, 0x0B, 0x0C, 0x21, 0x26, 0x2F, 0x28, 0x3D, 0x3A, 0x33, 0x34)
      else
        if h < 14 then
          if h < 13 then
            Pick(n, 0x4E, 0x49, 0x40, 0x47, 0x52, 0x55, 0x5C, 0x5B, 0x76, 0x71, 0x78, 0x7F, 0x6A, 0x6D, 0x64, 0x63)
          else
            Pick(n, 0x3E, 0x39, 0x30, 0x37, 0x22, 0x25, 0x2C, 0x2B, 0x06, 0x01, 0x08, 0x0F, 0x1A, 0x1D, 0x14, 0x13)
        else
          if h < 15 then
            Pick(n, 0xAE, 0xA9, 0xA0, 0xA7, 0xB2, 0xB5, 0xBC, 0xBB, 0x96, 0x91, 0x98, 0x9F, 0x8A, 0x8D, 0x84, 0x83)
          else
            Pick(n, 0xDE, 0xD9, 0xD0, 0xD7, 0xC2, 0xC5, 0xCC, 0xCB, 0xE6, 0xE1, 0xE8, 0xEF, 0xFA, 0xFD, 0xF4, 0xF3)
  }

  /**
   * One step of MSB-first polynomial division by 0x107: shift left one bit
   * and, when the bit shifted out was set, XOR in 0x07. The mask
   * `0 - (c >> 7)` is 0xFF exactly when the top bit of `c` is set.
   */
  function ShiftStep(c: bv8): bv8
  {
    (c << 1) ^ (0x07 & (0 - (c >> 7)))
  }

  /** Eight division steps: the remainder of `c * x^8` modulo the polynomial. */
  function DivideByte(c: bv8): bv8
  {
    ShiftStep(ShiftStep(ShiftStep(ShiftStep(ShiftStep(ShiftStep(ShiftStep(ShiftStep(c))))))))
  }

  /** `ShiftStep` is the textbook conditional shift/XOR step. */
  lemma ShiftStepIsConditionalXor(c: bv8)
    ensures ShiftStep(c) == if c & 0x80 != 0 then (c << 1) ^ 0x07 else c << 1
  {
  }

  /**
   * Every one of the 256 table entries is eight MSB-first shift/XOR-0x07
   * steps applied to its index, as the polynomial comment above the table
   * claims (checked by the solver over all 256 values of `i`).
   */
  lemma TableMatchesPolynomial(i: bv8)
    ensures Table(i) == DivideByte(i)
  {
    EntriesMatchPolynomial(i);
  }

  /** The entries themselves, checked against the division over all 256 indices. */
  lemma EntriesMatchPolynomial(i: bv8)
    ensures Entries(i, 0) == DivideByte(i)
  {
  }

  /** Division by the polynomial loses no information on a single byte. */
  lemma DivideByteInjective(a: bv8, b: bv8)
    requires a != b
    ensures DivideByte(a) != DivideByte(b)
  {
  }

  /** No two table entries are equal. */
  lemma TableInjective(a: bv8, b: bv8)
    requires a != b
    ensures Table(a) != Table(b)
  {
    TableMatchesPolynomial(a);
    TableMatchesPolynomial(b);
    DivideByteInjective(a, b);
  }

  /** Only entry 0 of the table is 0. */
  lemma TableZero(a: bv8)
    ensures Table(a) == 0 <==> a == 0
  {
    TableMatchesPolynomial(a);
    TableMatchesPolynomial(0);
    if a != 0 {
      DivideByteInjective(a, 0);
    }
  }

  /** XOR with the same byte keeps different bytes different. */
  lemma XorSeparatesLeft(c: bv8, d: bv8, b: bv8)
    requires c != d
    ensures c ^ b != d ^ b
  {
  }

  /** XOR of the same byte with different bytes gives different results. */
  lemma XorSeparatesRight(c: bv8, b: bv8, e: bv8)
    requires b != e
    ensures c ^ b != c ^ e
  {
  }

  /** The XOR of two bytes is 0 exactly when they are equal. */
  lemma XorZero(c: bv8, b: bv8)
    ensures c ^ b == 0 <==> b == c
  {
  }

  /** One iteration of the firmware loop: `crc = crc8Table[crc ^ byte]`. */
  function Step(crc: bv8, b: bv8): bv8
  {
    Table(crc ^ b)
  }

  /** The same iteration computed bit by bit instead of through the table. */
  function BitwiseStep(crc: bv8, b: bv8): bv8
  {
    DivideByte(crc ^ b)
  }

  /** calculateCRC8 over `data`, as a value: seed 0, one table step per byte. */
  function Crc(data: seq<bv8>): bv8
  {
    CrcFrom(Step, 0, data)
  }

  /** The reference CRC: the same fold with the bitwise step. */
  function BitwiseCrc(data: seq<bv8>): bv8
  {
    CrcFrom(BitwiseStep, 0, data)
  }

  /** One instance of `Separating(Step)`. */
  lemma StepSeparatesAt(c: bv8, d: bv8, b: bv8, e: bv8)
    ensures SeparatesAt(Step, c, d, b, e)
  {
    if c != d && b == e {
      XorSeparatesLeft(c, d, b);
      StepDiffers(c, b, d, e);
    } else if c == d && b != e {
      XorSeparatesRight(c, b, e);
      StepDiffers(c, b, d, e);
    }
  }

  /** Steps whose table indices differ give different results. */
  lemma StepDiffers(c: bv8, b: bv8, d: bv8, e: bv8)
    requires c ^ b != d ^ e
    ensures Step(c, b) != Step(d, e)
  {
    TableInjective(c ^ b, d ^ e);
  }

  /** One instance of `ZeroOnMatch(Step)`. */
  lemma StepZeroAt(c: bv8, b: bv8)
    ensures Step(c, b) == 0 <==> b == c
  {
    TableZero(c ^ b);
    XorZero(c, b);
  }

  /**
   * The table step loses no information (different running values or
   * different bytes give different results) and is 0 exactly when the byte
   * equals the running value.
   */
  lemma StepProperties()
    ensures Separating(Step)
    ensures ZeroOnMatch(Step)
  {
    forall c: bv8, d: bv8, b: bv8, e: bv8
      ensures SeparatesAt(Step, c, d, b, e)
    {
      StepSeparatesAt(c, d, b, e);
    }
    forall c: bv8, b: bv8
      ensures Step(c, b) == 0 <==> b == c
    {
      StepZeroAt(c, b);
    }
  }

  /** The empty input gives the seed 0, and `Crc(a + b)` continues from `Crc(a)`. */
  lemma CrcIsLeftFold(a: seq<bv8>, b: seq<bv8>)
    ensures Crc([]) == 0
    ensures Crc(a + b) == CrcFrom(Step, Crc(a), b)
  {
    CrcFromAppend(Step, 0, a, b);
  }

  /** Appending one byte to the input performs exactly one table step. */
  lemma CrcSnoc(data: seq<bv8>, b: bv8)
    ensures Crc(data + [b]) == Table(Crc(data) ^ b)
  {
    var c := Crc(data);
    CrcFromSnoc(Step, 0, data, b);
    assert Crc(data + [b]) == Step(c, b);
  }

  /** Extending a prefix of `data` by its next byte performs one table step. */
  lemma CrcPrefixStep(data: seq<bv8>, i: nat)
    requires i < |data|
    ensures Crc(data[..i + 1]) == Table(Crc(data[..i]) ^ data[i])
  {
    var pre, b := data[..i], data[i];
    assert data[..i + 1] == pre + [b];
    CrcSnoc(pre, b);
  }

  /** The table-driven CRC equals the bit-by-bit CRC on every input. */
  lemma TableDrivenEqualsBitwise(data: seq<bv8>)
    ensures Crc(data) == BitwiseCrc(data)
  {
    forall c: bv8, b: bv8
      ensures Step(c, b) == BitwiseStep(c, b)
    {
      TableMatchesPolynomial(c ^ b);
    }
    CrcFromAgree(Step, BitwiseStep, 0, data);
  }

  /**
   * Changing any single byte of the input changes the CRC; in particular,
   * every single-bit error in a frame is detected.
   */
  lemma ByteChangeChangesCrc(data: seq<bv8>, i: nat, v: bv8)
    requires i < |data| && v != data[i]
    ensures Crc(data[i := v]) != Crc(data)
  {
    StepProperties();
    CrcFromByteChange(Step, 0, data, i, v);
  }

  /**
   * The CRC of `data` followed by one more byte is 0 exactly when that byte
   * is the CRC of `data` (there is no final XOR, so the residue is 0).
   */
  lemma CrcResidue(data: seq<bv8>, b: bv8)
    ensures Crc(data + [b]) == 0 <==> b == Crc(data)
  {
    StepProperties();
    CrcFromResidue(Step, 0, data, b);
  }

  /** calculateCRC8: one table lookup per byte, starting from 0. */
  method CalculateCrc8(data: seq<bv8>) returns (crc: bv8)
    ensures crc == Crc(data)
  {
    crc := 0;
    for i := 0 to |data|
      invariant crc == Crc(data[..i])
    {
      CrcPrefixStep(data, i);
      crc := Table(crc ^ data[i]);
    }
    assert data[..|data|] == data;
  }

  /** checkCRC8: the same loop, compared with the expected value at the end. */
  method CheckCrc8(data: seq<bv8>, expected: bv8) returns (ok: bool)
    ensures ok <==> Crc(data) == expected
  {
    var crc: bv8 := 0;
    for i := 0 to |data|
      invariant crc == Crc(data[..i])
    {
      CrcPrefixStep(data, i);
      crc := Table(crc ^ data[i]);
    }
    assert data[..|data|] == data;
    ok := crc == expected;
  }
}
