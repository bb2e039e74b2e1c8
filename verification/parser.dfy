/**
 * The command parser of the ATE401 UART protocol (`ate401_parser`). It is
 * compiled out in the firmware (it sits between `#if 0` and `#endif`), so
 * this module describes code that does not run on the device as built.
 *
 * The parser reads the command byte and its operands from an unpacked
 * payload and writes them into the device mode. Operands are read with
 * `std::vector::at`, which throws `std::out_of_range` past the end; the
 * fields written before the throw stay written, so a failing parse is
 * modelled as `OutOfRange` carrying the mode as it was left.
 */
module Parser {

  import opened Codec
  import opened Scanner

  /** Command opcodes. */
  const Echo: bv8 := 0x00
  const AckCmd: bv8 := 0x01
  const TestMode: bv8 := 0x02
  const LedRed: bv8 := 0x09
  const LedGreen: bv8 := 0x0A
  const BuzzerCmd: bv8 := 0x0B
  const SetTime: bv8 := 0x0C

  /**
   * The indicator state in which the buzzer reads its PWM properties.
   * `ATE401Indicate::PWM` is not declared in the available source; its
   * value is taken to be that of `STATE_PWM` in `ate401.h` (line 20).
   */
  const StatePwm: bv8 := 0x02

  datatype Led = Led(red: bv8, green: bv8)

  datatype BuzzerProperties = BuzzerProperties(count: bv16, intervalMs: bv16, durationMs: bv16)

  datatype Buzzer = Buzzer(state: bv8, properties: BuzzerProperties)

  /** The device mode the parser writes into. */
  datatype Mode = Mode(echo: bool, ate: bv8, led: Led, buzzer: Buzzer, time: bv32)

  /**
   * How a parse ends: it returns the new mode, or an operand read throws
   * and `mode` is what the fields were left holding.
   */
  datatype ParseResult = Returned(mode: Mode) | OutOfRange(mode: Mode)

  /** A 16-bit value sent high byte first. */
  function Be16(hi: bv8, lo: bv8): (v: bv16)
    ensures (v >> 8) as bv8 == hi && (v & 0xFF) as bv8 == lo
  {
    (hi as bv16 << 8) | lo as bv16
  }

  /** The two bytes of a 16-bit value, high byte first. */
  function Be16Bytes(v: bv16): (b: seq<bv8>)
    ensures |b| == 2 && Be16(b[0], b[1]) == v
  {
    [(v >> 8) as bv8, (v & 0xFF) as bv8]
  }

  /** A 32-bit value sent low byte first. */
  function Le32(b0: bv8, b1: bv8, b2: bv8, b3: bv8): (v: bv32)
    ensures (v & 0xFF) as bv8 == b0 && ((v >> 8) & 0xFF) as bv8 == b1
    ensures ((v >> 16) & 0xFF) as bv8 == b2 && (v >> 24) as bv8 == b3
  {
    (b0 as bv32 << 0) | (b1 as bv32 << 8) | (b2 as bv32 << 16) | (b3 as bv32 << 24)
  }

  /** The four bytes of a 32-bit value, low byte first. */
  function Le32Bytes(v: bv32): (b: seq<bv8>)
    ensures |b| == 4 && Le32(b[0], b[1], b[2], b[3]) == v
  {
    [(v & 0xFF) as bv8, ((v >> 8) & 0xFF) as bv8, ((v >> 16) & 0xFF) as bv8, (v >> 24) as bv8]
  }

  /**
   * The buzzer command's writes: the state first, then, in the PWM state
   * only, the count, interval and duration, each as soon as both of its
   * bytes are present.
   */
  function ParseBuzzer(m: Mode, data: seq<bv8>): ParseResult
    requires |data| >= 1
  {
    if |data| < 2 then OutOfRange(m)
    else
      var m1 := m.(buzzer := m.buzzer.(state := data[1]));
      if data[1] != StatePwm then Returned(m1)
      else if |data| < 4 then OutOfRange(m1)
      else
        var p1 := m1.buzzer.properties.(count := Be16(data[2], data[3]));
        var m2 := m1.(buzzer := m1.buzzer.(properties := p1));
        if |data| < 6 then OutOfRange(m2)
        else
          var p2 := p1.(intervalMs := Be16(data[4], data[5]));
          var m3 := m2.(buzzer := m2.buzzer.(properties := p2));
          if |data| < 8 then OutOfRange(m3)
          else
            var p3 := p2.(durationMs := Be16(data[6], data[7]));
            Returned(m3.(buzzer := m3.buzzer.(properties := p3)))
  }

  /**
   * The number of payload bytes a command reads, the command byte included:
   * the reference against which `Parse` is checked.
   */
  function RequiredBytes(data: seq<bv8>): nat
  {
    if |data| == 0 then 1
    else if data[0] in {TestMode, LedRed, LedGreen} then 2
    else if data[0] == BuzzerCmd then (if |data| >= 2 && data[1] == StatePwm then 8 else 2)
    else if data[0] == SetTime then 6
    else 1
  }

  /**
   * ate401_parser: dispatches on the command byte. Commands without a case
   * (ACK, POWER 0x0F and every unassigned byte) leave the mode as it is.
   */
  function Parse(m: Mode, data: seq<bv8>): (r: ParseResult)
    ensures |data| == 0 ==> r == OutOfRange(m)
    ensures r.Returned? <==> |data| >= RequiredBytes(data)
  {
    if |data| == 0 then OutOfRange(m)
    else
      var cmd := data[0];
      if cmd == Echo then Returned(m.(echo := true))
      else if cmd == AckCmd then Returned(m)
      else if cmd == TestMode then
        (if |data| < 2 then OutOfRange(m) else Returned(m.(ate := data[1])))
      else if cmd == LedRed then
        (if |data| < 2 then OutOfRange(m) else Returned(m.(led := m.led.(red := data[1]))))
      else if cmd == LedGreen then
        (if |data| < 2 then OutOfRange(m) else Returned(m.(led := m.led.(green := data[1]))))
      else if cmd == BuzzerCmd then ParseBuzzer(m, data)
      else if cmd == SetTime then
        (if |data| < 6 then OutOfRange(m) else Returned(m.(time := Le32(data[2], data[3], data[4], data[5]))))
      else Returned(m)
  }

  /** `Mode mode{}`: every field zero, echo off. */
  const ZeroMode := Mode(false, 0, Led(0, 0), Buzzer(0, BuzzerProperties(0, 0, 0)), 0)

  /** The firmware's global `mode`, which the parser updates field by field. */
  class Device {
    var mode: Mode

    constructor()
      ensures mode == ZeroMode
    {
      mode := ZeroMode;
    }

    /**
     * ate401_parser on this device: each `at()` past the end of the payload
     * stops the parse, leaving the fields already written in place.
     */
    method ParseCommand(data: seq<bv8>) returns (r: ParseResult)
      modifies this
      ensures r == Parse(old(mode), data)
      ensures mode == r.mode
    {
      if |data| < 1 {
        return OutOfRange(mode);
      }
      var cmd := data[0];
      if cmd == Echo {
        mode := mode.(echo := true);
      } else if cmd == TestMode {
        if |data| < 2 {
          return OutOfRange(mode);
        }
        mode := mode.(ate := data[1]);
      } else if cmd == LedRed {
        if |data| < 2 {
          return OutOfRange(mode);
        }
        mode := mode.(led := mode.led.(red := data[1]));
      } else if cmd == LedGreen {
        if |data| < 2 {
          return OutOfRange(mode);
        }
        mode := mode.(led := mode.led.(green := data[1]));
      } else if cmd == BuzzerCmd {
        if |data| < 2 {
          return OutOfRange(mode);
        }
        mode := mode.(buzzer := mode.buzzer.(state := data[1]));
        if mode.buzzer.state == StatePwm {
          if |data| < 4 {
            return OutOfRange(mode);
          }
          var properties := mode.buzzer.properties.(count := Be16(data[2], data[3]));
          mode := mode.(buzzer := mode.buzzer.(properties := properties));
          if |data| < 6 {
            return OutOfRange(mode);
          }
          properties := mode.buzzer.properties.(intervalMs := Be16(data[4], data[5]));
          mode := mode.(buzzer := mode.buzzer.(properties := properties));
          if |data| < 8 {
            return OutOfRange(mode);
          }
          properties := mode.buzzer.properties.(durationMs := Be16(data[6], data[7]));
          mode := mode.(buzzer := mode.buzzer.(properties := properties));
        }
      } else if cmd == SetTime {
        if |data| < 6 {
          return OutOfRange(mode);
        }
        mode := mode.(time := Le32(data[2], data[3], data[4], data[5]));
      }
      return Returned(mode);
    }
  }

  /** A command byte the parser has no case for leaves the mode unchanged. */
  lemma UnknownCommandLeavesMode(m: Mode, data: seq<bv8>)
    requires |data| >= 1 && data[0] !in {Echo, TestMode, LedRed, LedGreen, BuzzerCmd, SetTime}
    ensures Parse(m, data) == Returned(m)
  {
  }

  /** Each command writes only its own field of the mode, whether it returns or throws. */
  lemma ParseWritesOnlyItsField(m: Mode, data: seq<bv8>)
    requires |data| >= 1
    ensures data[0] != Echo ==> Parse(m, data).mode.echo == m.echo
    ensures data[0] != TestMode ==> Parse(m, data).mode.ate == m.ate
    ensures data[0] != LedRed ==> Parse(m, data).mode.led.red == m.led.red
    ensures data[0] != LedGreen ==> Parse(m, data).mode.led.green == m.led.green
    ensures data[0] != BuzzerCmd ==> Parse(m, data).mode.buzzer == m.buzzer
    ensures data[0] != SetTime ==> Parse(m, data).mode.time == m.time
  {
  }

  /** Bytes after the ones a command reads do not change the outcome. */
  lemma ParseIgnoresTrailingBytes(m: Mode, data: seq<bv8>, t: seq<bv8>)
    requires |data| >= RequiredBytes(data)
    ensures RequiredBytes(data + t) == RequiredBytes(data)
    ensures Parse(m, data + t) == Parse(m, data)
  {
    assert (data + t)[..|data|] == data;
  }

  /**
   * Parsing the same payload twice leaves the mode as parsing it once: every
   * command overwrites its fields with values taken from the payload alone.
   */
  lemma ParseIdempotent(m: Mode, data: seq<bv8>)
    ensures Parse(Parse(m, data).mode, data) == Parse(m, data)
  {
  }

  /** The payload of a buzzer command in the PWM state. */
  function BuzzerPwmCommand(p: BuzzerProperties): (cmd: seq<bv8>)
    ensures |cmd| == 8 && cmd[0] == BuzzerCmd && cmd[1] == StatePwm
  {
    [BuzzerCmd, StatePwm] + Be16Bytes(p.count) + Be16Bytes(p.intervalMs) + Be16Bytes(p.durationMs)
  }

  /** The buzzer properties are read back from bytes 2 to 7, high byte first. */
  lemma ParseBuzzerPwm(m: Mode, p: BuzzerProperties)
    ensures Parse(m, BuzzerPwmCommand(p)) == Returned(m.(buzzer := Buzzer(StatePwm, p)))
  {
    var cmd := BuzzerPwmCommand(p);
    var c, t, d := Be16Bytes(p.count), Be16Bytes(p.intervalMs), Be16Bytes(p.durationMs);
    assert cmd[2] == c[0] && cmd[3] == c[1];
    assert cmd[4] == t[0] && cmd[5] == t[1];
    assert cmd[6] == d[0] && cmd[7] == d[1];
  }

  /**
   * A buzzer command cut short in the PWM state throws after writing the
   * state and every property whose two bytes arrived.
   */
  lemma TruncatedBuzzerWritesPrefix(m: Mode, p: BuzzerProperties, n: nat)
    requires 2 <= n < 8
    ensures Parse(m, BuzzerPwmCommand(p)[..n]).OutOfRange?
    ensures Parse(m, BuzzerPwmCommand(p)[..n]).mode.buzzer.state == StatePwm
    ensures Parse(m, BuzzerPwmCommand(p)[..n]).mode.buzzer.properties.count
         == if n >= 4 then p.count else m.buzzer.properties.count
    ensures Parse(m, BuzzerPwmCommand(p)[..n]).mode.buzzer.properties.intervalMs
         == if n >= 6 then p.intervalMs else m.buzzer.properties.intervalMs
    ensures Parse(m, BuzzerPwmCommand(p)[..n]).mode.buzzer.properties.durationMs == m.buzzer.properties.durationMs
  {
    var cmd := BuzzerPwmCommand(p);
    assert cmd[2..4] == Be16Bytes(p.count);
    assert cmd[4..6] == Be16Bytes(p.intervalMs);
  }

  /**
   * The time is read back from bytes 2 to 5, low byte first; byte 1 is not
   * read.
   */
  lemma ParseSetTime(m: Mode, skipped: bv8, time: bv32)
    ensures Parse(m, [SetTime, skipped] + Le32Bytes(time)) == Returned(m.(time := time))
  {
    var cmd := [SetTime, skipped] + Le32Bytes(time);
    assert cmd[2..6] == Le32Bytes(time);
  }

  /** Reading the command byte of an empty payload throws before anything is written. */
  lemma EmptyPayloadThrows(m: Mode)
    ensures Parse(m, []) == OutOfRange(m)
  {
  }

  /**
   * End to end: a PWM buzzer command packed into a frame is found by the
   * scanner at the frame's start, whatever follows it, and unpacking and
   * parsing it sets the buzzer to exactly the properties sent.
   */
  lemma BuzzerFrameEndToEnd(m: Mode, p: BuzzerProperties, t: seq<bv8>)
    ensures ScanFrom(Frame(BuzzerPwmCommand(p)) + t, Magic, 0) == Some(0)
    ensures Parse(m, Unpacked(Frame(BuzzerPwmCommand(p)))) == Returned(m.(buzzer := Buzzer(StatePwm, p)))
  {
    ScanFindsFrame(BuzzerPwmCommand(p), t);
    UnpackedFrame(BuzzerPwmCommand(p));
    ParseBuzzerPwm(m, p);
  }

  /** A count of 5 beeps every 100 ms, each lasting 1000 ms. */
  lemma BuzzerExample(m: Mode)
    ensures Parse(m, [0x0B, 0x02, 0x00, 0x05, 0x00, 0x64, 0x03, 0xE8]).mode.buzzer
         == Buzzer(StatePwm, BuzzerProperties(5, 100, 1000))
  {
  }
}
