/**
 * The stream scanner of the ATE401 UART protocol (`getPackStart`): it looks
 * through a raw receive buffer for the first occurrence of a pattern
 * (MAGIC in practice) whose declared length leads to a matching CRC.
 *
 * The buffer (`const void* data, size_t size`) is the sequence `bytes` of
 * exactly `size` bytes; the address returned is modelled as the index it
 * designates, and a null result as `None`.
 */
module Scanner {

  import opened Crc8
  import opened Codec

  datatype Option<T> = None | Some(value: T)

  /**
   * `sub` occurs at `i` and at least one more byte follows it: the guard
   * `i + subSize < size` together with the `memcmp`.
   */
  predicate PatternAt(bytes: seq<bv8>, sub: seq<bv8>, i: nat)
  {
    i + |sub| < |bytes| && bytes[i..i + |sub|] == sub
  }

  /** `len`: the length byte minus one in `uint8_t` arithmetic, so 0 gives 255. */
  function DeclaredLength(b: bv8): nat
  {
    (b - 1) as nat
  }

  /** The position of the byte compared with the CRC of the candidate at `i`. */
  function CrcPosition(bytes: seq<bv8>, sub: seq<bv8>, i: nat): nat
    requires PatternAt(bytes, sub, i)
  {
    i + |sub| + DeclaredLength(bytes[i + |sub|])
  }

  /**
   * The candidate at `i` is accepted: the pattern is there, the byte after
   * the declared length lies inside the buffer, and it equals the CRC of
   * the `len + subSize` bytes starting at `i`.
   */
  predicate Qualifies(bytes: seq<bv8>, sub: seq<bv8>, i: nat)
  {
    PatternAt(bytes, sub, i)
    && CrcPosition(bytes, sub, i) < |bytes|
    && Crc(bytes[i..CrcPosition(bytes, sub, i)]) == bytes[CrcPosition(bytes, sub, i)]
  }

  /**
   * The scan from position `i` on: a candidate that fails moves the scan
   * `|sub|` bytes on, any other position one byte on.
   */
  function ScanFrom(bytes: seq<bv8>, sub: seq<bv8>, i: nat): Option<nat>
    requires |sub| >= 1
    decreases |bytes| - i
  {
    if i >= |bytes| then None
    else if bytes[i] == sub[0] && PatternAt(bytes, sub, i) then
      if Qualifies(bytes, sub, i) then Some(i) else ScanFrom(bytes, sub, i + |sub|)
    else ScanFrom(bytes, sub, i + 1)
  }

  /** No proper suffix of `sub` is also a prefix of it. */
  ghost predicate NoSelfOverlap(sub: seq<bv8>)
  {
    forall k :: 0 < k < |sub| ==> sub[k..] != sub[..|sub| - k]
  }

  /** "#@!" does not overlap itself. */
  lemma MagicNoSelfOverlap()
    ensures NoSelfOverlap(Magic)
  {
    assert Magic[1..] != Magic[..2] by { assert Magic[1..][0] != Magic[..2][0]; }
    assert Magic[2..] != Magic[..1] by { assert Magic[2..][0] != Magic[..1][0]; }
  }

  /**
   * When `sub` does not overlap itself, no occurrence starts strictly
   * inside another one.
   */
  lemma NoOccurrenceInside(bytes: seq<bv8>, sub: seq<bv8>, i: nat, j: nat)
    requires NoSelfOverlap(sub)
    requires i + |sub| <= |bytes| && bytes[i..i + |sub|] == sub
    requires i < j < i + |sub| && j + |sub| <= |bytes|
    ensures bytes[j..j + |sub|] != sub
  {
    var k := j - i;
    var w := bytes[j..j + |sub|];
    assert w[..|sub| - k] == sub[k..];
    assert sub[k..] != sub[..|sub| - k];
  }

  /** Whatever the scan returns is a qualifying position. */
  lemma {:induction false} ScanFromSound(bytes: seq<bv8>, sub: seq<bv8>, i: nat)
    requires |sub| >= 1
    ensures ScanFrom(bytes, sub, i).Some? ==>
      i <= ScanFrom(bytes, sub, i).value < |bytes| && Qualifies(bytes, sub, ScanFrom(bytes, sub, i).value)
    decreases |bytes| - i
  {
    if i < |bytes| {
      if bytes[i] == sub[0] && PatternAt(bytes, sub, i) {
        if !Qualifies(bytes, sub, i) {
          ScanFromSound(bytes, sub, i + |sub|);
        }
      } else {
        ScanFromSound(bytes, sub, i + 1);
      }
    }
  }

  /**
   * When `sub` does not overlap itself, skipping `|sub|` bytes after a
   * failed candidate misses nothing: no position between `i` and the
   * result (or the end of the buffer) qualifies.
   */
  lemma {:induction false} ScanFromLeast(bytes: seq<bv8>, sub: seq<bv8>, i: nat, j: nat)
    requires |sub| >= 1 && NoSelfOverlap(sub)
    requires i <= j < |bytes|
    requires ScanFrom(bytes, sub, i).Some? ==> j < ScanFrom(bytes, sub, i).value
    ensures !Qualifies(bytes, sub, j)
    decreases |bytes| - i
  {
    if bytes[i] == sub[0] && PatternAt(bytes, sub, i) {
      if j >= i + |sub| {
        ScanFromLeast(bytes, sub, i + |sub|, j);
      } else if j > i && PatternAt(bytes, sub, j) {
        NoOccurrenceInside(bytes, sub, i, j);
      }
    } else if j > i {
      ScanFromLeast(bytes, sub, i + 1, j);
    }
  }

  /**
   * getPackStart: walks the buffer; at each position holding the pattern
   * with a byte after it, computes the CRC over the declared length and
   * compares it with the byte that follows.
   */
  method GetPackStart(bytes: seq<bv8>, sub: seq<bv8>) returns (r: Option<nat>)
    requires |sub| >= 1
    ensures r == ScanFrom(bytes, sub, 0)
    ensures r.Some? ==> r.value < |bytes| && Qualifies(bytes, sub, r.value)
    ensures NoSelfOverlap(sub) ==> forall j :: 0 <= j < |bytes| && Qualifies(bytes, sub, j) ==> r.Some? && r.value <= j
  {
    var i := 0;
    while i < |bytes|
      invariant ScanFrom(bytes, sub, i) == ScanFrom(bytes, sub, 0)
      decreases |bytes| - i
    {
      if bytes[i] == sub[0] && i + |sub| < |bytes| && bytes[i..i + |sub|] == sub {
        var found := CandidateMatches(bytes, sub, i);
        if found {
          r := Some(i);
          ScanFromSound(bytes, sub, 0);
          LeastResult(bytes, sub, r);
          return;
        }
        ScanSkipsCandidate(bytes, sub, i);
        i := i + |sub| - 1;
      } else {
        ScanSkipsByte(bytes, sub, i);
      }
      i := i + 1;
    }
    r := None;
    ScanFromSound(bytes, sub, 0);
    LeastResult(bytes, sub, r);
  }

  /**
   * The test of one candidate: the CRC of the `len + subSize` bytes from
   * `i`, compared with the byte after them when that byte is in the buffer.
   */
  method CandidateMatches(bytes: seq<bv8>, sub: seq<bv8>, i: nat) returns (found: bool)
    requires PatternAt(bytes, sub, i)
    ensures found <==> Qualifies(bytes, sub, i)
  {
    var len := DeclaredLength(bytes[i + |sub|]);
    var end := i + |sub| + len;
    found := false;
    if end < |bytes| {
      var crc := CalculateCrc8(bytes[i..end]);
      found := crc == bytes[end];
    }
  }

  /** A position that does not hold the pattern moves the scan one byte on. */
  lemma ScanSkipsByte(bytes: seq<bv8>, sub: seq<bv8>, i: nat)
    requires |sub| >= 1 && i < |bytes|
    requires !(bytes[i] == sub[0] && PatternAt(bytes, sub, i))
    ensures ScanFrom(bytes, sub, i) == ScanFrom(bytes, sub, i + 1)
  {
  }

  /** A candidate that fails moves the scan past the whole pattern. */
  lemma ScanSkipsCandidate(bytes: seq<bv8>, sub: seq<bv8>, i: nat)
    requires |sub| >= 1 && PatternAt(bytes, sub, i)
    requires !Qualifies(bytes, sub, i)
    ensures ScanFrom(bytes, sub, i) == ScanFrom(bytes, sub, i + |sub|)
  {
  }

  /** The scan from 0 returns the first qualifying position, if any. */
  lemma LeastResult(bytes: seq<bv8>, sub: seq<bv8>, r: Option<nat>)
    requires |sub| >= 1 && r == ScanFrom(bytes, sub, 0)
    ensures NoSelfOverlap(sub) ==> forall j :: 0 <= j < |bytes| && Qualifies(bytes, sub, j) ==> r.Some? && r.value <= j
  {
    if NoSelfOverlap(sub) {
      forall j | 0 <= j < |bytes| && Qualifies(bytes, sub, j)
        ensures r.Some? && r.value <= j
      {
        if r.None? || j < r.value {
          ScanFromLeast(bytes, sub, 0, j);
        }
      }
    }
  }

  /** The conditions of `Qualifies`, with the CRC position `e` named. */
  lemma QualifiesIntro(bytes: seq<bv8>, sub: seq<bv8>, i: nat, e: nat)
    requires i + |sub| < |bytes| && bytes[i..i + |sub|] == sub
    requires e == i + |sub| + DeclaredLength(bytes[i + |sub|])
    requires e < |bytes| && Crc(bytes[i..e]) == bytes[e]
    ensures Qualifies(bytes, sub, i)
  {
  }

  /** Whether a candidate qualifies does not depend on the bytes before it. */
  lemma QualifiesShift(g: seq<bv8>, rest: seq<bv8>, sub: seq<bv8>, j: nat)
    ensures Qualifies(g + rest, sub, |g| + j) <==> Qualifies(rest, sub, j)
  {
    var bytes, i := g + rest, |g| + j;
    if PatternAt(rest, sub, j) {
      assert bytes[i..i + |sub|] == rest[j..j + |sub|];
      assert PatternAt(bytes, sub, i);
      assert bytes[i + |sub|] == rest[j + |sub|];
      var e := CrcPosition(rest, sub, j);
      assert CrcPosition(bytes, sub, i) == |g| + e;
      if e < |rest| {
        assert bytes[i..|g| + e] == rest[j..e];
        assert bytes[|g| + e] == rest[e];
        assert Qualifies(bytes, sub, i) == Qualifies(rest, sub, j);
      }
    } else if j + |sub| < |rest| {
      assert bytes[i..i + |sub|] == rest[j..j + |sub|];
    }
  }

  /**
   * The length byte `packed` writes for `n + 1` decodes to `n` for every `n`
   * below 256, the wrap of 256 to 0 included.
   */
  lemma DeclaredLengthOfLengthByte(n: nat)
    requires n < 256
    ensures DeclaredLength(LengthByte(n + 1)) == n
  {
    var x := LengthByte(n);
    assert LengthByte(n + 1) == x + 1;
    assert (x + 1) - 1 == x;
    LengthByteValue(n);
    assert x as int == n;
  }

  /**
   * A frame of at most 254 payload bytes qualifies at the start of a buffer,
   * whatever follows it. (For 254 bytes the length byte wraps to 0, which
   * the scanner's own wrap turns back into 255.)
   */
  lemma FrameQualifiesAtStart(p: seq<bv8>, t: seq<bv8>)
    requires |p| <= 254
    ensures Qualifies(Frame(p) + t, Magic, 0)
  {
    var bytes := Frame(p) + t;
    FrameFollowedBy(p, t);
    DeclaredLengthOfLengthByte(|p| + 1);
    QualifiesIntro(bytes, Magic, 0, |p| + 4);
  }

  /** The bytes of a frame at the start of a buffer, seen from the buffer. */
  lemma FrameFollowedBy(p: seq<bv8>, t: seq<bv8>)
    ensures |Frame(p) + t| == |p| + 5 + |t|
    ensures (Frame(p) + t)[0..3] == Magic
    ensures (Frame(p) + t)[3] == LengthByte(|p| + 2)
    ensures Crc((Frame(p) + t)[0..|p| + 4]) == (Frame(p) + t)[|p| + 4]
  {
    var h := FrameHead(p);
    var bytes := Frame(p) + t;
    assert bytes == h + [Crc(h)] + t;
    assert bytes[0..|p| + 4] == h;
  }

  /** A frame of at most 254 payload bytes qualifies wherever it lies in a buffer. */
  lemma FrameQualifies(g: seq<bv8>, p: seq<bv8>, t: seq<bv8>)
    requires |p| <= 254
    ensures Qualifies(g + Frame(p) + t, Magic, |g|)
  {
    FrameQualifiesAtStart(p, t);
    QualifiesShift(g, Frame(p) + t, Magic, 0);
    assert g + Frame(p) + t == g + (Frame(p) + t);
  }

  /** A buffer that starts with a frame of at most 254 payload bytes is found at 0. */
  lemma ScanFindsFrame(p: seq<bv8>, t: seq<bv8>)
    requires |p| <= 254
    ensures ScanFrom(Frame(p) + t, Magic, 0) == Some(0)
  {
    FrameQualifiesAtStart(p, t);
  }

  /**
   * A frame after noise in which nothing qualifies is found exactly at its
   * start.
   */
  lemma ScanFindsFrameAfterNoise(g: seq<bv8>, p: seq<bv8>, t: seq<bv8>)
    requires |p| <= 254
    requires forall j :: 0 <= j < |g| ==> !Qualifies(g + Frame(p) + t, Magic, j)
    ensures ScanFrom(g + Frame(p) + t, Magic, 0) == Some(|g|)
  {
    var bytes := g + Frame(p) + t;
    FrameQualifies(g, p, t);
    MagicNoSelfOverlap();
    ScanFromSound(bytes, Magic, 0);
    var r := ScanFrom(bytes, Magic, 0);
    LeastResult(bytes, Magic, r);
  }

  /** A buffer holding just the pattern and a length byte that points past the end. */
  const OverrunExample: seq<bv8> := [0x23, 0x40, 0x21, 0x10]

  /**
   * As written, the firmware computes a CRC over `len + subSize` bytes and
   * reads the byte after them without checking that they lie inside the
   * buffer: on this 4-byte buffer the guard `i + subSize < size` passes at
   * 0, and the CRC byte it reads is at index 18.
   */
  lemma UncheckedCrcPositionOverruns()
    ensures PatternAt(OverrunExample, Magic, 0)
    ensures CrcPosition(OverrunExample, Magic, 0) == 18
    ensures CrcPosition(OverrunExample, Magic, 0) >= |OverrunExample|
    ensures !Qualifies(OverrunExample, Magic, 0)
  {
    assert OverrunExample[0..3] == Magic;
  }

  /**
   * An acknowledgement as `ack` builds it is not accepted at its own start:
   * its length byte is one too large, so the CRC position is one past its
   * last byte.
   */
  lemma AckNotFoundAlone(cmd: bv8, state: seq<bv8>)
    requires |state| <= 252
    ensures !Qualifies(AckFrame(cmd, state), Magic, 0)
  {
    var a := AckFrame(cmd, state);
    AckLayout(cmd, state);
    if PatternAt(a, Magic, 0) {
      DeclaredLengthOfLengthByte(|state| + 3);
      assert CrcPosition(a, Magic, 0) == |a|;
    }
  }

  /**
   * When more bytes follow an acknowledgement, it is accepted at its start
   * exactly when the next byte is 0 (its own CRC byte makes the CRC of the
   * acknowledgement 0).
   */
  lemma AckFoundOnlyBeforeZero(cmd: bv8, state: seq<bv8>, b: bv8, t: seq<bv8>)
    requires |state| <= 252
    ensures Qualifies(AckFrame(cmd, state) + [b] + t, Magic, 0) <==> b == 0
  {
    var a := AckFrame(cmd, state);
    var bytes := a + [b] + t;
    AckLayout(cmd, state);
    AckPassesCheck(cmd, state);
    assert bytes[..|a|] == a;
    assert bytes[0..3] == Magic;
    assert bytes[3] == a[3];
    DeclaredLengthOfLengthByte(|state| + 3);
    assert CrcPosition(bytes, Magic, 0) == |a|;
    assert bytes[0..|a|] == a;
    assert bytes[|a|] == b;
  }

  /** The corrected acknowledgement is found at its start like any frame. */
  lemma ScanFindsCorrectedAck(cmd: bv8, state: seq<bv8>, t: seq<bv8>)
    requires |state| <= 253
    ensures ScanFrom(CorrectedAck(cmd, state) + t, Magic, 0) == Some(0)
  {
    ScanFindsFrame([cmd] + state, t);
  }
}
