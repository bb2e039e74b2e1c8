/**
 * The frame codec of the ATE401 UART protocol: building frames (`packed`,
 * both overloads), validating them (`checkCRC8Pack`), stripping the envelope
 * (`unpacked`) and building acknowledgements (`ack`).
 *
 * A frame is MAGIC ("#@!") | LENGTH | payload | CRC8, where LENGTH is the
 * payload length plus 2 truncated to a byte, and CRC8 covers every byte
 * before it, MAGIC included.
 */
module Codec {

  import opened Crc8

  /** MAGIC: the ASCII bytes '#', '@', '!'. */
  const Magic: seq<bv8> := [0x23, 0x40, 0x21]

  /**
   * A size stored into a `uint8_t`: counting up from 0 in a byte, so only
   * the count modulo 256 survives.
   */
  function LengthByte(n: nat): bv8
    decreases n
  {
    if n == 0 then 0 else LengthByte(n - 1) + 1
  }

  /** Adding one to a byte below 0xFF adds one to its value; 0xFF wraps to 0. */
  lemma ByteSucc(x: bv8)
    ensures x != 0xFF ==> (x + 1) as int == x as int + 1
    ensures x as int == 255 ==> x + 1 == 0
  {
  }

  /** Counting modulo 256. */
  lemma ModSucc(n: nat)
    ensures (n + 1) % 256 == if n % 256 == 255 then 0 else n % 256 + 1
  {
    if n % 256 == 255 {
      assert (n + 1) % 256 == 0;
    } else {
      assert (n + 1) % 256 == n % 256 + 1;
    }
  }

  /** The numeric value of a length byte is the count modulo 256. */
  lemma {:induction false} LengthByteValue(n: nat)
    ensures LengthByte(n) as int == n % 256
    decreases n
  {
    if n > 0 {
      LengthByteValue(n - 1);
      ByteSucc(LengthByte(n - 1));
      ModSucc(n - 1);
    }
  }

  /** The bytes of a `packed` frame before its CRC. */
  function FrameHead(payload: seq<bv8>): seq<bv8>
  {
    Magic + [LengthByte(|payload| + 2)] + payload
  }

  /** The frame `packed` emits for `payload`. */
  function Frame(payload: seq<bv8>): seq<bv8>
  {
    FrameHead(payload) + [Crc(FrameHead(payload))]
  }

  /**
   * packed(std::initializer_list<uint8_t>): MAGIC, then the length byte,
   * then the payload, then the CRC of everything written so far.
   */
  method Packed(args: seq<bv8>) returns (data: seq<bv8>)
    ensures data == Frame(args)
  {
    data := [];
    data := data + Magic;
    data := data + [LengthByte(|args| + 2)];
    data := data + args;
    assert data == FrameHead(args);
    var crcResult := CalculateCrc8(data);
    data := data + [crcResult];
  }

  /**
   * packed(const void*, size_t): the same frame, with the payload copied byte
   * by byte from the first `size` bytes of a buffer.
   */
  method PackedBuffer(args: array<bv8>, size: nat) returns (data: seq<bv8>)
    requires size <= args.Length
    ensures data == Frame(args[..size])
  {
    data := [];
    data := data + Magic;
    data := data + [LengthByte(size + 2)];
    for k := 0 to size
      invariant data == Magic + [LengthByte(size + 2)] + args[..k]
    {
      assert args[..k + 1] == args[..k] + [args[k]];
      data := data + [args[k]];
    }
    assert data == FrameHead(args[..size]);
    var crcResult := CalculateCrc8(data);
    data := data + [crcResult];
  }

  /**
   * checkCRC8Pack: the last byte is the CRC of all earlier bytes. Because the
   * CRC has no final XOR, this is the same as the CRC of the whole sequence
   * being 0.
   */
  function CheckCrc8Pack(data: seq<bv8>): (ok: bool)
    requires |data| >= 1
    ensures ok <==> Crc(data) == 0
  {
    var body := data[..|data| - 1];
    assert data == body + [data[|data| - 1]];
    CrcResidue(body, data[|data| - 1]);
    data[|data| - 1] == Crc(body)
  }

  /** unpacked: drops MAGIC and the length byte in front and the CRC at the end. */
  function Unpacked(data: seq<bv8>): (payload: seq<bv8>)
    requires |data| >= 5
    ensures |payload| == |data| - 5
    ensures data == data[..|Magic| + 1] + payload + [data[|data| - 1]]
  {
    data[|Magic| + 1 .. |data| - 1]
  }

  /**
   * The layout of a frame: five bytes longer than its payload, MAGIC first,
   * the truncated length next, the payload, and the CRC of the rest last.
   */
  lemma FrameLayout(payload: seq<bv8>)
    ensures |Frame(payload)| == |payload| + 5
    ensures Frame(payload)[..3] == Magic
    ensures Frame(payload)[3] == LengthByte(|payload| + 2)
    ensures Frame(payload)[4..|payload| + 4] == payload
    ensures Frame(payload)[|payload| + 4] == Crc(Frame(payload)[..|payload| + 4])
  {
    var f := Frame(payload);
    assert f[..|payload| + 4] == FrameHead(payload);
    assert f[4..|payload| + 4] == FrameHead(payload)[4..];
  }

  /** Every frame `packed` emits passes `checkCRC8Pack`. */
  lemma FramePassesCheck(payload: seq<bv8>)
    ensures CheckCrc8Pack(Frame(payload))
  {
    CrcResidue(FrameHead(payload), Crc(FrameHead(payload)));
  }

  /** Round trip: stripping a built frame gives back its payload. */
  lemma UnpackedFrame(payload: seq<bv8>)
    ensures Unpacked(Frame(payload)) == payload
  {
    FrameLayout(payload);
  }

  /** Different payloads give different frames. */
  lemma FrameInjective(p: seq<bv8>, q: seq<bv8>)
    requires Frame(p) == Frame(q)
    ensures p == q
  {
    UnpackedFrame(p);
    UnpackedFrame(q);
  }

  /**
   * The converse round trip: a sequence with MAGIC in front, a length byte
   * that agrees with its size and a valid CRC is the frame of its stripped
   * payload.
   */
  lemma FrameOfUnpacked(data: seq<bv8>)
    requires |data| >= 5
    requires data[..3] == Magic
    requires data[3] == LengthByte(|data| - 3)
    requires CheckCrc8Pack(data)
    ensures data == Frame(Unpacked(data))
  {
    var payload := Unpacked(data);
    var body := data[..|data| - 1];
    assert |data| - 3 == |payload| + 2;
    assert body == data[..4] + payload;
    assert data[..4] == data[..3] + [data[3]];
    assert body == FrameHead(payload);
    assert data == body + [data[|data| - 1]];
  }

  /**
   * Any single corrupted byte in a frame, the CRC byte included, makes
   * `checkCRC8Pack` reject it.
   */
  lemma CorruptedFrameFailsCheck(payload: seq<bv8>, i: nat, v: bv8)
    requires i < |Frame(payload)| && v != Frame(payload)[i]
    ensures !CheckCrc8Pack(Frame(payload)[i := v])
  {
    FramePassesCheck(payload);
    ByteChangeChangesCrc(Frame(payload), i, v);
  }

  /**
   * The bytes of an `ack` frame before its CRC, as the code computes them:
   * the inserted length is the size of MAGIC, command and state together,
   * that is the payload length plus 3.
   */
  function AckHead(cmd: bv8, state: seq<bv8>): seq<bv8>
  {
    Magic + [LengthByte(|Magic| + 1 + |state|)] + [cmd] + state
  }

  /** The frame `ack` emits. */
  function AckFrame(cmd: bv8, state: seq<bv8>): seq<bv8>
  {
    AckHead(cmd, state) + [Crc(AckHead(cmd, state))]
  }

  /**
   * ack: MAGIC, the command and the raw state bytes are appended, then the
   * current size is inserted after MAGIC, then the CRC is appended.
   */
  method Ack(cmd: bv8, state: seq<bv8>) returns (data: seq<bv8>)
    ensures data == AckFrame(cmd, state)
  {
    data := [];
    data := data + Magic;
    data := data + [cmd];
    data := data + state;
    data := data[..|Magic|] + [LengthByte(|data|)] + data[|Magic|..];
    assert data == AckHead(cmd, state);
    var crcResult := CalculateCrc8(data);
    data := data + [crcResult];
  }

  /**
   * The layout of an acknowledgement: MAGIC, a length byte of the payload
   * length plus 3, the command, the state bytes and the CRC of the rest.
   */
  lemma AckLayout(cmd: bv8, state: seq<bv8>)
    ensures |AckFrame(cmd, state)| == |state| + 6
    ensures AckFrame(cmd, state)[..3] == Magic
    ensures AckFrame(cmd, state)[3] == LengthByte(|[cmd] + state| + 3)
    ensures AckFrame(cmd, state)[4..|state| + 5] == [cmd] + state
    ensures AckFrame(cmd, state)[|state| + 5] == Crc(AckFrame(cmd, state)[..|state| + 5])
  {
    var a := AckFrame(cmd, state);
    assert a[..|state| + 5] == AckHead(cmd, state);
    assert a[4..|state| + 5] == AckHead(cmd, state)[4..];
  }

  /**
   * An acknowledgement is the frame of `cmd` followed by the state bytes in
   * every byte but two: its length byte is one more (wrapping at 256) than
   * `packed` writes for the same payload, and its CRC is computed over that
   * length byte.
   */
  lemma AckLengthOneMoreThanFrame(cmd: bv8, state: seq<bv8>)
    ensures |AckFrame(cmd, state)| == |Frame([cmd] + state)|
    ensures AckFrame(cmd, state)[..3] == Frame([cmd] + state)[..3]
    ensures AckFrame(cmd, state)[3] == Frame([cmd] + state)[3] + 1
    ensures AckFrame(cmd, state)[4..|state| + 5] == Frame([cmd] + state)[4..|state| + 5]
  {
    AckLayout(cmd, state);
    FrameLayout([cmd] + state);
  }

  /**
   * The length byte of an acknowledgement never agrees with the frame's
   * size the way a `packed` frame's does.
   */
  lemma AckLengthDisagreesWithSize(cmd: bv8, state: seq<bv8>)
    ensures |AckFrame(cmd, state)| == |state| + 6
    ensures AckFrame(cmd, state)[3] != LengthByte(|AckFrame(cmd, state)| - 3)
  {
    AckLayout(cmd, state);
    assert LengthByte(|state| + 4) == LengthByte(|state| + 3) + 1;
  }

  /** An acknowledgement passes `checkCRC8Pack`, since its CRC is computed over its own bytes. */
  lemma AckPassesCheck(cmd: bv8, state: seq<bv8>)
    ensures CheckCrc8Pack(AckFrame(cmd, state))
  {
    CrcResidue(AckHead(cmd, state), Crc(AckHead(cmd, state)));
  }

  /** Stripping an acknowledgement gives back the command followed by the state bytes. */
  lemma UnpackedAck(cmd: bv8, state: seq<bv8>)
    ensures Unpacked(AckFrame(cmd, state)) == [cmd] + state
    ensures Unpacked(AckFrame(cmd, state))[0] == cmd
  {
    AckLayout(cmd, state);
  }

  /**
   * The acknowledgement as the frame layout comment of `ate401_uart.cpp`
   * (lines 13-17) describes every frame, LENGTH counting itself and the CRC:
   * `packed` applied to the command followed by the state bytes, so that
   * LENGTH is 1 + |state| + 2.
   */
  function CorrectedAck(cmd: bv8, state: seq<bv8>): (f: seq<bv8>)
    ensures |f| == |state| + 6
    ensures f[3] == LengthByte(1 + |state| + 2)
    ensures Unpacked(f) == [cmd] + state
    ensures CheckCrc8Pack(f)
  {
    FrameLayout([cmd] + state);
    UnpackedFrame([cmd] + state);
    FramePassesCheck([cmd] + state);
    Frame([cmd] + state)
  }

  /** The CRC of the six-byte test vector of the demonstration program. */
  lemma DemoVectorCrc()
    ensures Crc([0x23, 0x40, 0x21, 0x07, 0x09, 0x01]) == 0xFC
  {
  }

  /**
   * The demonstration program's frame for LED_RED, STATE_ON, which
   * `checkCRC8Pack` accepts and `unpacked` strips back to the two bytes.
   */
  lemma DemoLedRedFrame()
    ensures Frame([0x09, 0x01]) == [0x23, 0x40, 0x21, 0x04, 0x09, 0x01, 0x41]
    ensures CheckCrc8Pack(Frame([0x09, 0x01]))
    ensures Unpacked(Frame([0x09, 0x01])) == [0x09, 0x01]
  {
    assert LengthByte(4) == 4;
    assert FrameHead([0x09, 0x01]) == [0x23, 0x40, 0x21, 0x04, 0x09, 0x01];
    assert Crc([0x23, 0x40, 0x21, 0x04, 0x09, 0x01]) == 0x41;
    FramePassesCheck([0x09, 0x01]);
    UnpackedFrame([0x09, 0x01]);
  }
}
