/**
 * The TM1640 wire protocol as the driver bit-bangs it: every pin write and
 * every delay becomes an event of a trace, and each transaction of the
 * driver is the trace it appends.
 */
module Protocol {
  import opened JsNumber

  /** A host digital pin (the micro:bit's DigitalPin), opaque here. */
  type Pin = int

  /** The two pins a Display drives: clock and data. */
  datatype Bus = Bus(clk: Pin, dio: Pin)

  /**
   * What the driver does to the host: a digital write of one pin to a level
   * (true for 1), or the fixed protocol delay (TM1640_DELAY microseconds).
   */
  datatype Event = DigitalWrite(pin: Pin, high: bool) | Delay

  /** TM1640_CMD1: data command, auto-increment write mode. */
  const DataCmd: Byte := 0x40
  /** TM1640_CMD2: address command base. */
  const AddressCmdBase: Byte := 0xC0
  /** TM1640_CMD3: display-control command base. */
  const DisplayCtrlBase: Byte := 0x80
  /** TM1640_DSP_ON: the display-on flag, always set by this driver. */
  const DisplayOn: Byte := 0x08

  /** The highest start position `write` accepts. */
  const MaxPos: int := 16

  /** `_start`: data low, then clock low. */
  function StartFrame(p: Bus): seq<Event>
  {
    [DigitalWrite(p.dio, false), Delay, DigitalWrite(p.clk, false), Delay]
  }

  /** `_stop`: data low, clock high, data high. */
  function StopFrame(p: Bus): seq<Event>
  {
    [DigitalWrite(p.dio, false), Delay, DigitalWrite(p.clk, true), Delay, DigitalWrite(p.dio, true), Delay]
  }

  /** One iteration of `_write_byte`'s loop: set the data level, then pulse the clock. */
  function BitPeriod(p: Bus, high: bool): seq<Event>
  {
    [DigitalWrite(p.dio, high), Delay, DigitalWrite(p.clk, true), Delay, DigitalWrite(p.clk, false), Delay]
  }

  /** The first k iterations of `_write_byte(b)`. */
  function ShiftOut(p: Bus, b: int, k: nat): seq<Event>
  {
    if k == 0 then [] else ShiftOut(p, b, k - 1) + BitPeriod(p, Bit(b, k - 1))
  }

  /** `_write_byte(b)`: all eight iterations. */
  function ByteEvents(p: Bus, b: int): seq<Event>
  {
    ShiftOut(p, b, 8)
  }

  /** `_write_byte` called once for each value, in order. */
  function BytesEvents(p: Bus, bs: seq<int>): seq<Event>
  {
    if bs == [] then [] else ByteEvents(p, bs[0]) + BytesEvents(p, bs[1..])
  }

  /** A start, the given bytes, a stop. */
  function Frame(p: Bus, payload: seq<int>): seq<Event>
  {
    StartFrame(p) + BytesEvents(p, payload) + StopFrame(p)
  }

  /** The address command byte `TM1640_CMD2 | pos`. */
  function AddressCmd(pos: int): Byte
    requires 0 <= pos <= MaxPos
  {
    OrByte(AddressCmdBase, pos)
  }

  /** The display-control byte `TM1640_CMD3 | TM1640_DSP_ON | brightness`. */
  function DisplayCtrlCmd(brightness: int): Byte
    requires 0 <= brightness <= 7
  {
    OrByte(OrByte(DisplayCtrlBase, DisplayOn), brightness)
  }

  /** `_write_data_cmd`. */
  function DataCmdFrame(p: Bus): seq<Event>
  {
    Frame(p, [DataCmd])
  }

  /** `_write_dsp_ctrl` with the stored brightness. */
  function DisplayCtrlFrame(p: Bus, brightness: int): seq<Event>
    requires 0 <= brightness <= 7
  {
    Frame(p, [DisplayCtrlCmd(brightness)])
  }

  /** Every row as `r & 0xff`. */
  function Low8s(rows: seq<int>): (bs: seq<Byte>)
    ensures |bs| == |rows|
    ensures forall i :: 0 <= i < |rows| ==> bs[i] == Low8(rows[i])
  {
    seq(|rows|, i requires 0 <= i < |rows| => Low8(rows[i]))
  }

  /**
   * `write(rows, pos)`: nothing when pos is out of range; otherwise the data
   * command, the address-and-payload frame, and the display control.
   */
  function WriteTrace(p: Bus, rows: seq<int>, pos: int, brightness: int): seq<Event>
    requires 0 <= brightness <= 7
  {
    if pos < 0 || pos > MaxPos then []
    else DataCmdFrame(p) + Frame(p, [AddressCmd(pos)] + Low8s(rows)) + DisplayCtrlFrame(p, brightness)
  }

  /** The constructor's pin writes: clock low, data low, a delay, data command, display control. */
  function HandshakeTrace(p: Bus, brightness: int): seq<Event>
    requires 0 <= brightness <= 7
  {
    [DigitalWrite(p.clk, false), DigitalWrite(p.dio, false), Delay] + DataCmdFrame(p) + DisplayCtrlFrame(p, brightness)
  }

  /** `setBrightness`: re-issue the data command and the display control, no memory write. */
  function BrightnessTrace(p: Bus, brightness: int): seq<Event>
    requires 0 <= brightness <= 7
  {
    DataCmdFrame(p) + DisplayCtrlFrame(p, brightness)
  }

  // ---------------------------------------------------------------------
  // Properties of the traces

  /**
   * The k periods of a shift-out are laid end to end: period i is the data
   * level `(b >> i) & 1` followed by one clock pulse.
   */
  lemma {:induction false} ShiftOutPeriods(p: Bus, b: int, k: nat, i: nat)
    requires i < k
    ensures |ShiftOut(p, b, k)| == 6 * k
    ensures ShiftOut(p, b, k)[6 * i .. 6 * i + 6] == BitPeriod(p, Bit(b, i))
  {
    ShiftOutLength(p, b, k - 1);
    if i < k - 1 {
      ShiftOutPeriods(p, b, k - 1, i);
      assert ShiftOut(p, b, k)[6 * i .. 6 * i + 6] == ShiftOut(p, b, k - 1)[6 * i .. 6 * i + 6];
    } else {
      assert ShiftOut(p, b, k)[6 * i .. 6 * i + 6] == BitPeriod(p, Bit(b, k - 1));
    }
  }

  lemma {:induction false} ShiftOutLength(p: Bus, b: int, k: nat)
    ensures |ShiftOut(p, b, k)| == 6 * k
  {
    if k > 0 {
      ShiftOutLength(p, b, k - 1);
    }
  }

  /**
   * `_write_byte(b)` is exactly eight bit periods; period i puts bit i of b
   * (least significant first) on the data line before its rising clock edge.
   */
  lemma ByteEventsShape(p: Bus, b: int, i: nat)
    requires i < 8
    ensures |ByteEvents(p, b)| == 48
    ensures ByteEvents(p, b)[6 * i .. 6 * i + 6] ==
            [DigitalWrite(p.dio, Bit(b, i)), Delay, DigitalWrite(p.clk, true), Delay, DigitalWrite(p.clk, false), Delay]
  {
    ShiftOutPeriods(p, b, 8, i);
  }

  /** Writing a list of bytes one after another: appending a byte appends its events. */
  lemma {:induction false} BytesEventsSnoc(p: Bus, bs: seq<int>, b: int)
    ensures BytesEvents(p, bs + [b]) == BytesEvents(p, bs) + ByteEvents(p, b)
  {
    if bs == [] {
      assert [b][1..] == [];
    } else {
      assert (bs + [b])[1..] == bs[1..] + [b];
      BytesEventsSnoc(p, bs[1..], b);
    }
  }

  lemma {:induction false} BytesEventsAppend(p: Bus, xs: seq<int>, ys: seq<int>)
    ensures BytesEvents(p, xs + ys) == BytesEvents(p, xs) + BytesEvents(p, ys)
  {
    if xs == [] {
      assert xs + ys == ys;
    } else {
      assert (xs + ys)[1..] == xs[1..] + ys;
      BytesEventsAppend(p, xs[1..], ys);
    }
  }

  /** The address command is 0xC0 + pos; position 16 therefore produces 0xD0. */
  lemma AddressCmdValue(pos: int)
    requires 0 <= pos <= MaxPos
    ensures AddressCmd(pos) == 0xC0 + pos
    ensures pos == 16 ==> AddressCmd(pos) == 0xD0
  {
    OrHighAdds(AddressCmdBase, pos);
  }

  /**
   * The display-control byte always has the display-on flag set: it lies in
   * 0x88..0x8F, so no trace of this driver ever switches the display off.
   */
  lemma DisplayCtrlCmdValue(brightness: int)
    requires 0 <= brightness <= 7
    ensures DisplayCtrlCmd(brightness) == 0x88 + brightness
    ensures 0x88 <= DisplayCtrlCmd(brightness) <= 0x8F
  {
    OrHighAdds(DisplayCtrlBase, DisplayOn);
    OrHighAdds(0x88, brightness);
  }

  /** `write` emits nothing exactly when the start position is out of range. */
  lemma WriteTraceEmptyIff(p: Bus, rows: seq<int>, pos: int, brightness: int)
    requires 0 <= brightness <= 7
    ensures WriteTrace(p, rows, pos, brightness) == [] <==> (pos < 0 || pos > MaxPos)
  {
    if 0 <= pos <= MaxPos {
      assert WriteTrace(p, rows, pos, brightness)[0] == DigitalWrite(p.dio, false);
    }
  }

  /** Appending two pieces one after another appends their concatenation. */
  lemma AppendAssoc(t: seq<Event>, a: seq<Event>, b: seq<Event>)
    ensures t + a + b == t + (a + b)
  {
  }

  /** Appending three pieces one after another appends their concatenation. */
  lemma ConcatAssoc(t: seq<Event>, a: seq<Event>, b: seq<Event>, c: seq<Event>)
    ensures t + a + b + c == t + (a + b + c)
  {
  }

  /** A frame whose payload is a first byte and then a list: the pieces in the order they are sent. */
  lemma FramePayload(p: Bus, first: int, rest: seq<int>)
    ensures Frame(p, [first] + rest) ==
            StartFrame(p) + ByteEvents(p, first) + BytesEvents(p, rest) + StopFrame(p)
  {
    var payload := [first] + rest;
    assert payload[0] == first && payload[1..] == rest;
  }

  /**
   * An accepted `write` is three start/stop-bracketed groups, in this order:
   * the data command, the address command with the payload, the display control.
   */
  lemma WriteTraceFrames(p: Bus, rows: seq<int>, pos: int, brightness: int)
    requires 0 <= brightness <= 7
    requires 0 <= pos <= MaxPos
    ensures WriteTrace(p, rows, pos, brightness) ==
            StartFrame(p) + ByteEvents(p, 0x40) + StopFrame(p)
            + StartFrame(p) + ByteEvents(p, 0xC0 + pos) + BytesEvents(p, Low8s(rows)) + StopFrame(p)
            + StartFrame(p) + ByteEvents(p, 0x88 + brightness) + StopFrame(p)
  {
    AddressCmdValue(pos);
    DisplayCtrlCmdValue(brightness);
    assert BytesEvents(p, [DataCmd]) == ByteEvents(p, 0x40);
    assert BytesEvents(p, [DisplayCtrlCmd(brightness)]) == ByteEvents(p, 0x88 + brightness);
    BytesEventsAppend(p, [AddressCmd(pos)], Low8s(rows));
  }
}
