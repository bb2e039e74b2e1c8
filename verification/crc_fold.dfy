/**
 * The byte-at-a-time CRC loop of the ATE401 UART protocol, abstracted over
 * its step function: `crc := step(crc, byte)` for every byte in order.
 *
 * The firmware's step is a table lookup (`Crc8.Step`); the algebra below
 * (appending, single-byte corruption, the zero residue) holds for every
 * step with the stated properties, so it is proved once here without the
 * table's 256 entries in sight and instantiated in module `Crc8`.
 */
module CrcFold {

  /** Folds `step` over `data`, starting from the running value `crc`. */
  function CrcFrom(step: (bv8, bv8) -> bv8, crc: bv8, data: seq<bv8>): bv8
    decreases |data|
  {
    if data == [] then crc else CrcFrom(step, step(crc, data[0]), data[1..])
  }

  /**
   * When exactly one of the running value and the byte differs between two
   * steps, the results differ.
   */
  ghost predicate SeparatesAt(step: (bv8, bv8) -> bv8, c: bv8, d: bv8, b: bv8, e: bv8)
  {
    (c != d && b == e) || (c == d && b != e) ==> step(c, b) != step(d, e)
  }

  /** `step` loses no information about the running value or about the byte. */
  ghost predicate Separating(step: (bv8, bv8) -> bv8)
  {
    forall c: bv8, d: bv8, b: bv8, e: bv8 :: SeparatesAt(step, c, d, b, e)
  }

  /** `step` returns 0 exactly when the byte fed equals the running value. */
  ghost predicate ZeroOnMatch(step: (bv8, bv8) -> bv8)
  {
    forall c: bv8, b: bv8 :: step(c, b) == 0 <==> b == c
  }

  /** Folding over `a + b` continues from the value reached after `a`. */
  lemma {:induction false} CrcFromAppend(step: (bv8, bv8) -> bv8, crc: bv8, a: seq<bv8>, b: seq<bv8>)
    ensures CrcFrom(step, crc, a + b) == CrcFrom(step, CrcFrom(step, crc, a), b)
    decreases |a|
  {
    if a == [] {
      assert a + b == b;
    } else {
      assert (a + b)[0] == a[0];
      assert (a + b)[1..] == a[1..] + b;
      CrcFromAppend(step, step(crc, a[0]), a[1..], b);
    }
  }

  /** Appending one byte performs one more step. */
  lemma {:induction false} CrcFromSnoc(step: (bv8, bv8) -> bv8, crc: bv8, data: seq<bv8>, b: bv8)
    ensures CrcFrom(step, crc, data + [b]) == step(CrcFrom(step, crc, data), b)
    decreases |data|
  {
    if data == [] {
      assert data + [b] == [b];
      assert [b][1..] == [];
    } else {
      assert (data + [b])[1..] == data[1..] + [b];
      CrcFromSnoc(step, step(crc, data[0]), data[1..], b);
    }
  }

  /** Folds with two step functions that agree everywhere agree. */
  lemma {:induction false} CrcFromAgree(step: (bv8, bv8) -> bv8, other: (bv8, bv8) -> bv8, crc: bv8, data: seq<bv8>)
    requires forall c: bv8, b: bv8 :: step(c, b) == other(c, b)
    ensures CrcFrom(step, crc, data) == CrcFrom(other, crc, data)
    decreases |data|
  {
    if data != [] {
      CrcFromAgree(step, other, step(crc, data[0]), data[1..]);
    }
  }

  /** With a separating step, two different running values stay different to the end. */
  lemma {:induction false} CrcFromSeparates(step: (bv8, bv8) -> bv8, x: bv8, y: bv8, data: seq<bv8>)
    requires Separating(step) && x != y
    ensures CrcFrom(step, x, data) != CrcFrom(step, y, data)
    decreases |data|
  {
    if data != [] {
      assert SeparatesAt(step, x, y, data[0], data[0]);
      CrcFromSeparates(step, step(x, data[0]), step(y, data[0]), data[1..]);
    }
  }

  /** With a separating step, changing any one byte changes the result. */
  lemma {:induction false} CrcFromByteChange(step: (bv8, bv8) -> bv8, crc: bv8, data: seq<bv8>, i: nat, v: bv8)
    requires Separating(step) && i < |data| && v != data[i]
    ensures CrcFrom(step, crc, data[i := v]) != CrcFrom(step, crc, data)
    decreases i
  {
    var changed := data[i := v];
    if i == 0 {
      assert changed[1..] == data[1..];
      assert SeparatesAt(step, crc, crc, v, data[0]);
      CrcFromSeparates(step, step(crc, v), step(crc, data[0]), data[1..]);
    } else {
      assert changed[0] == data[0];
      assert changed[1..] == data[1..][i - 1 := v];
      CrcFromByteChange(step, step(crc, data[0]), data[1..], i - 1, v);
    }
  }

  /** With a zero-on-match step, the fold over `data + [b]` is 0 exactly when `b` is the fold over `data`. */
  lemma CrcFromResidue(step: (bv8, bv8) -> bv8, crc: bv8, data: seq<bv8>, b: bv8)
    requires ZeroOnMatch(step)
    ensures CrcFrom(step, crc, data + [b]) == 0 <==> b == CrcFrom(step, crc, data)
  {
    CrcFromSnoc(step, crc, data, b);
  }
}
