/**
 * The driver itself: the `Display` class with its frame buffer and
 * brightness, the private wire-protocol methods it bit-bangs through the
 * host, and the module-level "simple mode" instance with its free
 * functions. Every method is proved against the trace functions of
 * Protocol and the rendering functions of Segments.
 */
module Tm1640 {
  import opened JsNumber
  import opened Protocol
  import opened Segments

  /** Number of bytes in the display memory mirror. */
  const GramSize: nat := 16

  /**
   * The host's pin and delay primitives (`pins.digitalWritePin`,
   * `control.waitMicros`). Their only observable effect here is the trace
   * of events they record.
   */
  class Host {
    var trace: seq<Event>

    constructor ()
      ensures trace == []
    {
      trace := [];
    }

    method DigitalWritePin(pin: Pin, high: bool)
      modifies this
      ensures trace == old(trace) + [DigitalWrite(pin, high)]
    {
      trace := trace + [DigitalWrite(pin, high)];
    }

    /** `control.waitMicros(TM1640_DELAY)`; the duration itself is not modelled. */
    method WaitMicros()
      modifies this
      ensures trace == old(trace) + [Delay]
    {
      trace := trace + [Delay];
    }
  }

  /** `Math.max(0, Math.min(7, value | 0))`. */
  function ClampBrightness(value: real): (b: int)
    ensures 0 <= b <= 7
  {
    var v := OrZero(value);
    if v < 0 then 0 else if v > 7 then 7 else v
  }

  /** Within 32 bits the stored brightness is the truncated value clamped to 0..7. */
  lemma ClampBrightnessValue(value: real)
    requires -TwoTo31 as real < value < TwoTo31 as real
    ensures ClampBrightness(value) == if Trunc(value) < 0 then 0 else if Trunc(value) > 7 then 7 else Trunc(value)
  {
  }

  /** Clamping an already stored brightness keeps it: `setBrightness` is idempotent. */
  lemma ClampBrightnessIdempotent(value: real)
    ensures ClampBrightness(ClampBrightness(value) as real) == ClampBrightness(value)
  {
    var b := ClampBrightness(value);
    assert Trunc(b as real) == b;
  }

  /** An integer brightness already in 0..7 is stored as given. */
  lemma ClampBrightnessKeepsValid(b: int)
    requires 0 <= b <= 7
    ensures ClampBrightness(b as real) == b
  {
    assert Trunc(b as real) == b;
  }

  class Display {
    const host: Host
    const bus: Bus
    var brightness: int
    const gram: array<Byte>

    ghost predicate Valid()
      reads this
    {
      gram.Length == GramSize && 0 <= brightness <= 7
    }

    /**
     * Stores the pins and the clamped brightness, clears the memory mirror,
     * then drives both lines low and sends the data command and the display
     * control.
     */
    constructor (host: Host, clk: Pin, dio: Pin, brightness: real)
      modifies host
      ensures Valid() && fresh(gram)
      ensures this.host == host && bus == Bus(clk, dio)
      ensures this.brightness == ClampBrightness(brightness)
      ensures gram[..] == Blanks(GramSize)
      ensures host.trace == old(host.trace) + HandshakeTrace(bus, this.brightness)
    {
      this.host := host;
      bus := Bus(clk, dio);
      this.brightness := ClampBrightness(brightness);
      gram := new Byte[GramSize](_ => 0x00);
      new;
      host.DigitalWritePin(bus.clk, false);
      host.DigitalWritePin(bus.dio, false);
      host.WaitMicros();
      ghost var lines := [DigitalWrite(bus.clk, false), DigitalWrite(bus.dio, false), Delay];
      assert host.trace == old(host.trace) + lines;
      WriteDataCmd();
      WriteDspCtrl();
      ConcatAssoc(old(host.trace), lines, DataCmdFrame(bus), DisplayCtrlFrame(bus, this.brightness));
    }

    /** `dio(n)`: drive the data pin to `n ? 1 : 0`. */
    method Dio(n: int)
      modifies host
      ensures host.trace == old(host.trace) + [DigitalWrite(bus.dio, n != 0)]
    {
      host.DigitalWritePin(bus.dio, n != 0);
    }

    /** `clk(n)`: drive the clock pin to `n ? 1 : 0`. */
    method Clk(n: int)
      modifies host
      ensures host.trace == old(host.trace) + [DigitalWrite(bus.clk, n != 0)]
    {
      host.DigitalWritePin(bus.clk, n != 0);
    }

    method Start()
      modifies host
      ensures host.trace == old(host.trace) + StartFrame(bus)
    {
      Dio(0); host.WaitMicros();
      Clk(0); host.WaitMicros();
    }

    method Stop()
      modifies host
      ensures host.trace == old(host.trace) + StopFrame(bus)
    {
      Dio(0); host.WaitMicros();
      Clk(1); host.WaitMicros();
      Dio(1); host.WaitMicros();
    }

    /** `_write_byte(b)`: eight bit periods, least significant bit first. */
    method WriteByte(b: int)
      modifies host
      ensures host.trace == old(host.trace) + ByteEvents(bus, b)
    {
      for i := 0 to 8
        invariant host.trace == old(host.trace) + ShiftOut(bus, b, i)
      {
        ghost var before := host.trace;
        Dio((b / Pow2(i)) % 2);
        host.WaitMicros();
        Clk(1);
        host.WaitMicros();
        Clk(0);
        host.WaitMicros();
        assert host.trace == before + BitPeriod(bus, Bit(b, i));
        AppendAssoc(old(host.trace), ShiftOut(bus, b, i), BitPeriod(bus, Bit(b, i)));
      }
    }

    method WriteDataCmd()
      modifies host
      ensures host.trace == old(host.trace) + DataCmdFrame(bus)
    {
      Start();
      WriteByte(DataCmd);
      Stop();
      assert BytesEvents(bus, [DataCmd]) == ByteEvents(bus, DataCmd);
      ConcatAssoc(old(host.trace), StartFrame(bus), ByteEvents(bus, DataCmd), StopFrame(bus));
    }

    method WriteDspCtrl()
      requires 0 <= brightness <= 7
      modifies host
      ensures host.trace == old(host.trace) + DisplayCtrlFrame(bus, brightness)
    {
      Start();
      WriteByte(OrByte(OrByte(DisplayCtrlBase, DisplayOn), brightness));
      Stop();
      assert BytesEvents(bus, [DisplayCtrlCmd(brightness)]) == ByteEvents(bus, DisplayCtrlCmd(brightness));
      ConcatAssoc(old(host.trace), StartFrame(bus), ByteEvents(bus, DisplayCtrlCmd(brightness)), StopFrame(bus));
    }

    /**
     * `write(rows, pos)`: silently nothing for a position outside 0..16;
     * otherwise the data command, the address frame with every row's low
     * byte, and the display control.
     */
    method Write(rows: seq<int>, pos: int := 0)
      requires Valid()
      modifies host
      ensures host.trace == old(host.trace) + WriteTrace(bus, rows, pos, brightness)
    {
      if pos < 0 || pos > MaxPos {
        assert WriteTrace(bus, rows, pos, brightness) == [];
        return;
      }
      ghost var t0 := host.trace;
      WriteDataCmd();
      WriteAddressed(pos, rows);
      WriteDspCtrl();
      ConcatAssoc(t0, DataCmdFrame(bus), Frame(bus, [AddressCmd(pos)] + Low8s(rows)), DisplayCtrlFrame(bus, brightness));
    }

    /** The middle transaction of `write`: start, address command, every row's low byte, stop. */
    method WriteAddressed(pos: int, rows: seq<int>)
      requires 0 <= pos <= MaxPos
      modifies host
      ensures host.trace == old(host.trace) + Frame(bus, [AddressCmd(pos)] + Low8s(rows))
    {
      Start();
      WriteByte(OrByte(AddressCmdBase, pos));
      WriteRows(rows);
      Stop();
      FramePayload(bus, AddressCmd(pos), Low8s(rows));
      AppendAssoc(old(host.trace), StartFrame(bus), ByteEvents(bus, AddressCmd(pos)));
      ConcatAssoc(old(host.trace), StartFrame(bus) + ByteEvents(bus, AddressCmd(pos)), BytesEvents(bus, Low8s(rows)), StopFrame(bus));
    }

    /** `for (let r of rows) this._write_byte(r & 0xff)`. */
    method WriteRows(rows: seq<int>)
      modifies host
      ensures host.trace == old(host.trace) + BytesEvents(bus, Low8s(rows))
    {
      for i := 0 to |rows|
        invariant host.trace == old(host.trace) + BytesEvents(bus, Low8s(rows[..i]))
      {
        WriteByte(Low8(rows[i]));
        BytesEventsSnoc(bus, Low8s(rows[..i]), Low8(rows[i]));
        assert Low8s(rows[..i + 1]) == Low8s(rows[..i]) + [Low8(rows[i])];
      }
      assert rows[..|rows|] == rows;
    }

    /** `refresh`: all sixteen bytes of the mirror, from address 0. */
    method Refresh()
      requires Valid()
      modifies host
      ensures host.trace == old(host.trace) + WriteTrace(bus, gram[..], 0, brightness)
    {
      Write(gram[..], 0);
    }

    /** Clamp and store the brightness, then send the data command and the display control. */
    method SetBrightness(value: real)
      requires Valid()
      modifies this, host
      ensures Valid()
      ensures brightness == ClampBrightness(value)
      ensures gram[..] == old(gram[..])
      ensures host.trace == old(host.trace) + BrightnessTrace(bus, brightness)
    {
      var v := ClampBrightness(value);
      brightness := v;
      WriteDataCmd();
      WriteDspCtrl();
      AppendAssoc(old(host.trace), DataCmdFrame(bus), DisplayCtrlFrame(bus, brightness));
    }

    /**
     * `showInteger(num)`: gram[0..4] becomes the left-padded glyphs of the
     * first four characters of floor(num)'s decimal text, the other twelve
     * bytes are kept, and the whole mirror is refreshed.
     */
    method ShowInteger(num: real)
      requires Valid()
      modifies host, gram
      ensures Valid() && brightness == old(brightness)
      ensures gram[..] == IntegerSegments(num) + old(gram[4..])
      ensures host.trace == old(host.trace) + WriteTrace(bus, gram[..], 0, brightness)
    {
      var buf := IntegerBuffer(num);
      StoreFour(buf);
      ghost var stored := gram[..];
      Refresh();
      assert gram[..] == stored;
    }

    /** `for (let i = 0; i < 4; i++) this.gram[i] = buf[i]`. */
    method StoreFour(buf: seq<Byte>)
      requires Valid() && |buf| == 4
      modifies gram
      ensures gram[..] == buf + old(gram[4..])
    {
      for i := 0 to 4
        invariant forall j :: 0 <= j < i ==> gram[j] == buf[j]
        invariant forall j :: i <= j < GramSize ==> gram[j] == old(gram[j])
      {
        gram[i] := buf[i];
      }
      assert gram[..] == buf + old(gram[4..]);
    }

    /**
     * `showFloat1(num)`: with n10 = `Math.round(num * 10)`, gram[0..4]
     * becomes the last four of the integer part's glyphs, the last of them
     * with the decimal point, and the fraction digit; the mirror is then
     * refreshed.
     */
    method ShowFloat1(num: real)
      requires Valid()
      modifies host, gram
      ensures Valid() && brightness == old(brightness)
      ensures gram[..] == Float1Segments(Round(num * 10.0)) + old(gram[4..])
      ensures host.trace == old(host.trace) + WriteTrace(bus, gram[..], 0, brightness)
    {
      var n10 := Round(num * 10.0);
      var buf := Float1Buffer(n10);
      StoreFour(buf);
      ghost var stored := gram[..];
      Refresh();
      assert gram[..] == stored;
    }
  }

  /**
   * The local `buf` of `showInteger`: the glyph of each of the first four
   * characters of `Math.floor(num).toString()`, then blanks unshifted until
   * there are four.
   */
  method IntegerBuffer(num: real) returns (buf: seq<Byte>)
    ensures buf == IntegerSegments(num)
  {
    var s := DecimalString(num.Floor);
    if |s| > 4 {
      s := s[..4];
    }
    assert s == IntegerText(num);
    buf := [];
    for k := 0 to |s|
      invariant buf == Glyphs(s[..k])
    {
      GlyphsSnoc(s, k);
      buf := buf + [Glyph(s[k])];
    }
    assert s[..|s|] == s;
    buf := PadLeft(buf);
  }

  /** `while (buf.length < 4) buf.unshift(0x00)`. */
  method PadLeft(cells: seq<Byte>) returns (buf: seq<Byte>)
    ensures |cells| >= 4 ==> buf == cells
    ensures |cells| < 4 ==> buf == Blanks(4 - |cells|) + cells
  {
    buf := cells;
    ghost var pad: nat := 0;
    while |buf| < 4
      invariant buf == Blanks(pad) + cells
      invariant pad > 0 ==> |buf| <= 4
      decreases 4 - |buf|
    {
      buf := [0x00] + buf;
      pad := pad + 1;
    }
  }

  /**
   * The local `buf` of `showFloat1` for n10 = `Math.round(num * 10)`: the
   * characters of `intPart + "." + fracPart` scanned one by one, a '.'
   * setting the point on the last cell, then padded and cut to the last four.
   */
  method Float1Buffer(n10: int) returns (buf: seq<Byte>)
    ensures buf == Float1Segments(n10)
  {
    var cells := Float1Scan(n10);
    buf := PadLeft(cells);
    PaddedLastFour(cells, buf);
    buf := buf[|buf| - 4..];
  }

  /** Padding to four cells and keeping the last four is LastFour. */
  lemma PaddedLastFour(cells: seq<Byte>, buf: seq<Byte>)
    requires |cells| >= 4 ==> buf == cells
    requires |cells| < 4 ==> buf == Blanks(4 - |cells|) + cells
    ensures |buf| >= 4 && buf[|buf| - 4..] == LastFour(cells)
  {
  }

  method Float1Scan(n10: int) returns (buf: seq<Byte>)
    ensures buf == Float1Cells(n10)
  {
    var intPart := IDiv(n10, 10);
    var fracPart := AbsRem(n10, 10);
    var s := DecimalString(intPart) + "." + DecimalString(fracPart);
    buf := [];
    for i := 0 to |s|
      invariant buf == ScanCells(s[..i])
    {
      var c := s[i];
      ScanCellsSnoc(s, i);
      if c == '.' {
        if |buf| > 0 {
          buf := buf[|buf| - 1 := OrByte(buf[|buf| - 1], DotBit)];
        }
      } else {
        buf := buf + [Glyph(c)];
      }
    }
    assert s[..|s|] == s;
    ScanCellsFloat1(n10);
  }

  /** The cells the scan of `showFloat1` has built after reading the characters s. */
  ghost function ScanCells(s: string): seq<Byte>
  {
    if s == [] then [] else ScanStep(ScanCells(s[..|s| - 1]), s[|s| - 1])
  }

  /** One character of the scan: a '.' lights the point of the last cell, anything else adds a glyph. */
  ghost function ScanStep(buf: seq<Byte>, c: char): seq<Byte>
  {
    if c == '.' then
      (if |buf| > 0 then buf[|buf| - 1 := OrByte(buf[|buf| - 1], DotBit)] else buf)
    else buf + [Glyph(c)]
  }

  lemma ScanCellsSnoc(s: string, i: nat)
    requires i < |s|
    ensures ScanCells(s[..i + 1]) == ScanStep(ScanCells(s[..i]), s[i])
  {
    assert s[..i + 1][..i] == s[..i];
  }

  lemma GlyphsSnoc(s: string, k: nat)
    requires k < |s|
    ensures Glyphs(s[..k + 1]) == Glyphs(s[..k]) + [Glyph(s[k])]
  {
  }

  /** Text without a point scans to one glyph per character. */
  lemma {:induction false} ScanCellsNoDot(t: string)
    requires forall i :: 0 <= i < |t| ==> t[i] != '.'
    ensures ScanCells(t) == Glyphs(t)
  {
    if t != [] {
      ScanCellsNoDot(t[..|t| - 1]);
      assert Glyphs(t) == Glyphs(t[..|t| - 1]) + [Glyph(t[|t| - 1])];
    }
  }

  /** Scanning `intPart + "." + fracPart` builds Float1Cells. */
  lemma ScanCellsFloat1(n10: int)
    ensures ScanCells(DecimalString(IDiv(n10, 10)) + "." + DecimalString(AbsRem(n10, 10))) == Float1Cells(n10)
  {
    var t := DecimalString(IDiv(n10, 10));
    var f := AbsRem(n10, 10);
    DecimalChars(IDiv(n10, 10));
    assert DecimalString(f) == [DigitChar(f)];
    ScanPointThenDigit(t, DigitChar(f));
  }

  lemma ScanPointThenDigit(t: string, d: char)
    requires |t| >= 1 && d != '.'
    requires forall i :: 0 <= i < |t| ==> t[i] != '.'
    ensures ScanCells(t + "." + [d]) == WithDot(Glyphs(t)) + [Glyph(d)]
  {
    var g := Glyphs(t);
    assert ScanCells(t + ".") == WithDot(g) by {
      ScanCellsNoDot(t);
      assert (t + ".")[..|t|] == t;
      WithDotUpdate(g);
    }
    var s := t + "." + [d];
    assert s[..|s| - 1] == t + ".";
  }

  lemma WithDotUpdate(g: seq<Byte>)
    requires |g| >= 1
    ensures g[|g| - 1 := OrByte(g[|g| - 1], DotBit)] == WithDot(g)
  {
  }

  /**
   * Two consecutive refreshes with nothing changed in between send
   * byte-identical transactions.
   */
  method RefreshTwice(d: Display)
    requires d.Valid()
    modifies d.host
    ensures d.host.trace == old(d.host.trace)
                           + WriteTrace(d.bus, d.gram[..], 0, d.brightness)
                           + WriteTrace(d.bus, d.gram[..], 0, d.brightness)
  {
    d.Refresh();
    d.Refresh();
  }

  /**
   * The namespace's module-level state for the blocks without a variable:
   * `_disp`, absent until `init` or `create`, and the free functions that
   * forward to it.
   */
  class SimpleMode {
    const host: Host
    var disp: Display?

    ghost predicate Valid()
      reads this, disp
    {
      disp != null ==> disp.Valid() && disp.host == host
    }

    /** `let _disp: Display = null`. */
    constructor (host: Host)
      ensures Valid() && this.host == host && disp == null
    {
      this.host := host;
      disp := null;
    }

    /** `init`: replace `_disp` with a freshly constructed Display. */
    method Init(clk: Pin, dio: Pin, b: real := 5.0)
      requires Valid()
      modifies this, host
      ensures Valid() && disp != null && fresh(disp) && fresh(disp.gram)
      ensures disp.bus == Bus(clk, dio) && disp.brightness == ClampBrightness(b)
      ensures disp.gram[..] == Blanks(GramSize)
      ensures host.trace == old(host.trace) + HandshakeTrace(Bus(clk, dio), ClampBrightness(b))
    {
      disp := new Display(host, clk, dio, b);
    }

    /** `create`: the same as `init`, and the new Display is also returned. */
    method Create(clk: Pin, dio: Pin, b: real := 5.0) returns (d: Display)
      requires Valid()
      modifies this, host
      ensures Valid() && disp == d && fresh(d) && fresh(d.gram)
      ensures d.bus == Bus(clk, dio) && d.brightness == ClampBrightness(b)
      ensures d.gram[..] == Blanks(GramSize)
      ensures host.trace == old(host.trace) + HandshakeTrace(Bus(clk, dio), ClampBrightness(b))
    {
      d := new Display(host, clk, dio, b);
      disp := d;
    }

    /** The free `setBrightness`: a no-op without a display, otherwise forwarded. */
    method SetBrightness(value: real)
      requires Valid()
      modifies host, disp
      ensures Valid() && disp == old(disp)
      ensures old(disp) == null ==> host.trace == old(host.trace)
      ensures disp != null ==>
                disp.brightness == ClampBrightness(value)
                && disp.gram[..] == old(disp.gram[..])
                && host.trace == old(host.trace) + BrightnessTrace(disp.bus, disp.brightness)
    {
      if disp != null {
        disp.SetBrightness(value);
      }
    }

    /** The free `showInteger`: a no-op without a display, otherwise forwarded. */
    method ShowInteger(num: real)
      requires Valid()
      modifies host, if disp != null then {disp.gram} else {}
      ensures Valid() && disp == old(disp)
      ensures old(disp) == null ==> host.trace == old(host.trace)
      ensures disp != null ==>
                disp.brightness == old(disp.brightness)
                && disp.gram[..] == IntegerSegments(num) + old(disp.gram[4..])
                && host.trace == old(host.trace) + WriteTrace(disp.bus, disp.gram[..], 0, disp.brightness)
    {
      if disp != null {
        disp.ShowInteger(num);
      }
    }

    /** The free `showFloat1`: a no-op without a display, otherwise forwarded. */
    method ShowFloat1(num: real)
      requires Valid()
      modifies host, if disp != null then {disp.gram} else {}
      ensures Valid() && disp == old(disp)
      ensures old(disp) == null ==> host.trace == old(host.trace)
      ensures disp != null ==>
                disp.brightness == old(disp.brightness)
                && disp.gram[..] == Float1Segments(Round(num * 10.0)) + old(disp.gram[4..])
                && host.trace == old(host.trace) + WriteTrace(disp.bus, disp.gram[..], 0, disp.brightness)
    {
      if disp != null {
        disp.ShowFloat1(num);
      }
    }
  }
}
