# TM1640 driver model

A Dafny model of the micro:bit TM1640 LED-controller driver in `main.ts`.
The driver bit-bangs the TM1640's two-wire bus: a clock line (CLK) and a data
line (DIN). It keeps a 16-byte display-memory mirror (`gram`) and a
brightness level. It renders integers and one-decimal numbers as 7-segment
bytes for a 4-digit panel. A module-level "simple mode" instance (`_disp`)
backs the free block functions.

The project has five modules.

- `JsNumber` (`jsnumber.dfy`): the JavaScript number operations the driver
  uses, over unbounded integers and reals:
  - `x | 0`: truncation, then 32-bit wrap-around;
  - `Math.round`, `Math.idiv`, `Math.abs(n % 10)`;
  - `(b >> i) & 1`, `r & 0xff`;
  - `|` on byte values, defined bit by bit.
- `Protocol` (`protocol.dfy`): every pin write and every delay is an event in
  a trace. Each driver transaction is stated as the trace it appends: start,
  stop, one byte shifted out least significant bit first, the data-command,
  address and display-control frames, and the whole `write`.
- `Receiver` (`receiver.dfy`): the chip's side of the bus, built from the
  TM1640 datasheet's start and stop conditions. It is an independent
  reference: it decodes a trace into the byte frames the chip latches. The
  lemmas show which bytes each driver transaction delivers.
- `Segments` (`segments.dfy`): the font table, the decimal text of an
  integer, and the four segment bytes `showInteger` and `showFloat1` produce.
  It also defines what a reader sees on the panel (`Shown`), so the rendering
  can be stated as readable text.
- `Tm1640` (`display.dfy`): the driver itself.
  - `Host` records pin writes and delays in a shared trace.
  - `Display` is a class with the pins, the brightness and `gram` as an
    `array`. Its private protocol methods and public operations are
    imperative methods, each proved against the `Protocol` and `Segments`
    functions.
  - `SimpleMode` holds `_disp`, with `init`, `create` and the free functions.

Behaviour the model follows from the code:
- The display-control byte always ORs in 0x08 (display on). No trace of this
  driver switches the display off or clears it, and no such operation exists.
- `write` accepts pos = 16, because the guard is `pos > 16`. The address byte
  is then 0xD0.
- `refresh` sends all 16 bytes of `gram` from address 0, although the panel
  shows only four.
- `showInteger` uses `Math.floor`, so -3 renders as "-3". It keeps the first
  four characters of the text, so 12345 shows "1234".
- The font maps '7' to 0x07 (main.ts:15), so `showInteger(7)` stores
  `[0, 0, 0, 0x07]`.
- `showFloat1` loses the sign for values in [-0.95, -0.05), where
  `Math.round(num * 10)` is -9..-1: `Math.idiv` gives integer part 0, so -0.5
  shows as "  0.5". At -0.95 the rounded value is -9 and the panel shows
  "  0.9"; at -0.05 it is 0 and the panel shows "  0.0". It also keeps only the last
  three integer characters, so 1234.5 shows "234.5" and -123.4 shows "123.4".
- The constructor drives CLK low and then DIN low (main.ts:32-33) before its
  first `_start`. That start's `dio(0)` writes a level that is already low,
  so the data line never falls while the clock is high: there is no start
  condition, and the chip never latches the constructor's data command. It
  receives only the display-control byte (`Receiver.HandshakeReceived`).
  That frame's stop leaves the bus idle, so every later `write` and
  `setBrightness` is received with all of its frames
  (`Receiver.DriverSessionReceived`).
- The font table `Segments.FontTable` holds the twelve entries of `font`
  (main.ts:13-17) unchanged; `Segments.Glyph` is the lookup with its 0x00
  default.

## Model

| member | source | states |
|---|---|---|
| JsNumber.Int32 | main.ts:31 | ToInt32, used by `x OR 0` and `Math.idiv`: the result lies in -2^31..2^31-1, is congruent to t modulo 2^32, and is t itself inside that range |
| JsNumber.OrZero | main.ts:31 | `x OR 0` (JavaScript's bitwise or with 0) is a signed 32-bit value; inside that range it is truncation toward zero |
| JsNumber.Trunc | main.ts:31 | truncation toward zero: r <= x < r + 1 for x >= 0, and r - 1 < x <= r for x < 0 |
| JsNumber.Round | main.ts:107 | `Math.round`: the integer within half a unit, halves going up |
| JsNumber.IDiv | main.ts:108 | `Math.idiv(n10, 10)` is truncating division of n10's 32-bit value |
| JsNumber.TruncDiv | main.ts:108 | the quotient truncates toward zero: q*d <= a < q*d + d for a >= 0, mirrored for a < 0 |
| JsNumber.AbsRem | main.ts:109 | `Math.abs(n % d)` is below d and, with the truncated quotient and n's sign, rebuilds n |
| JsNumber.Low8 | main.ts:72 | `r & 0xff` is the byte congruent to r modulo 256, and r itself when r is a byte |
| JsNumber.ByteBitsRoundTrip | main.ts:52-53 | the eight bits `(b >> i) & 1` for i = 0..7, read back least significant first, give `b & 0xff` |
| JsNumber.Bit | main.ts:53 | defined as `(b / 2^i) % 2 == 1`: the i-th bit of `(b >> i) & 1`, with the shift as floor division by 2^i |
| JsNumber.BitRemainder | main.ts:53 | that bit is set exactly when b modulo 2^(i+1) is at least 2^i, so it is the 2^i place of b |
| JsNumber.OrByte | main.ts:65 | defined as the OR of the low eight bits, bit by bit, via `OrBits`; no contract of its own, its meaning is `OrByteBits` |
| JsNumber.OrByteBits | main.ts:65 | `a OR b` on bytes sets bit i, for i = 0..7, exactly when a or b has bit i set |
| JsNumber.OrBitsBit | main.ts:65 | bit i of the bitwise OR is set exactly when bit i of either operand is |
| JsNumber.OrBitsCommutes | main.ts:65 | bitwise OR is commutative |
| JsNumber.OrBitsDisjoint | main.ts:71 | OR of values with no common set bit equals their sum |
| JsNumber.OrHighAdds | main.ts:65-71 | 0x80 OR 0x08, 0xC0 OR pos and 0x88 OR brightness add their operands in the driver's ranges |
| JsNumber.OrDotAdds | main.ts:116 | g OR 0x80 on a glyph below 0x80 adds 0x80 |
| Protocol.StartFrame | main.ts:42-45 | defined as the trace of `_start`: DIN := 0, delay, CLK := 0, delay |
| Protocol.StopFrame | main.ts:46-50 | defined as the trace of `_stop`: DIN := 0, delay, CLK := 1, delay, DIN := 1, delay |
| Protocol.ByteEvents | main.ts:51-60 | defined as the eight loop periods of `_write_byte(b)` for i = 0..7; its shape is `ByteEventsShape` |
| Protocol.WriteTrace | main.ts:67-75 | defined as nothing when pos < 0 or pos > 16, otherwise the data-command frame, the address frame with every row's low byte, and the display-control frame |
| Protocol.HandshakeTrace | main.ts:32-36 | defined as the constructor's CLK := 0, DIN := 0, a delay, then the data-command and display-control frames |
| Protocol.BrightnessTrace | main.ts:86-87 | defined as the data-command frame followed by the display-control frame |
| Protocol.ShiftOutPeriods | main.ts:52-59 | the first k loop iterations are 6k events, and period i sets DIN to bit i before the clock pulse |
| Protocol.ByteEventsShape | main.ts:51-60 | `_write_byte(b)` is 48 events; period i is DIN := `(b >> i) & 1`, delay, CLK := 1, delay, CLK := 0, delay |
| Protocol.BytesEventsAppend | main.ts:72 | writing two byte lists one after another is writing their concatenation |
| Protocol.BytesEventsSnoc | main.ts:72 | appending one byte to the list appends its eight bit periods |
| Protocol.Low8s | main.ts:72 | the payload has one byte per row, each `r & 0xff`, in order |
| Protocol.AddressCmdValue | main.ts:71 | the address byte 0xC0 OR pos is 0xC0 + pos; pos 16 gives 0xD0 |
| Protocol.DisplayCtrlCmdValue | main.ts:65 | the display-control byte is 0x88 + brightness, always within 0x88..0x8F (display on) |
| Protocol.WriteTraceEmptyIff | main.ts:68 | `write` emits nothing exactly when pos < 0 or pos > 16 |
| Protocol.WriteTraceFrames | main.ts:67-75 | an accepted `write` is start, 0x40, stop; start, 0xC0 + pos, every row's low byte, stop; start, 0x88 + brightness, stop |
| Protocol.FramePayload | main.ts:70-73 | the address frame is start, address byte, row bytes, stop, in that order |
| Receiver.StartOpensFrame | main.ts:42-45 | `_start` on an idle bus (both lines high) is a start condition: the chip opens an empty frame |
| Receiver.StartWithClockLow | main.ts:42-45 | `_start` with the clock already low is no start condition: nothing opens |
| Receiver.ShiftOutSamples | main.ts:52-59 | the first k periods of `_write_byte(b)` deliver bits 0..k-1 of b to the chip, in order, and close no frame |
| Receiver.BytesSampled | main.ts:72 | a list of bytes written one after another is sampled as their bits in order |
| Receiver.StopClosesFrame | main.ts:46-50 | `_stop` after a byte is a stop condition: the chip latches the frame's bytes and the bus is idle |
| Receiver.BytesOfBitsOf | main.ts:72 | the chip's grouping of sampled bits into bytes returns every byte's low eight bits |
| Receiver.FrameReceived | main.ts:61-66 | a start, bytes, stop sent from an idle bus is latched as exactly those bytes (each `& 0xff`) |
| Receiver.FrameUnseenWithClockLow | main.ts:32-35 | a frame whose start finds the clock low and no frame open latches nothing |
| Receiver.WriteReceived | main.ts:67-75 | an accepted `write` is latched as [0x40], [0xC0 + pos, low bytes of rows], [0x88 + brightness] |
| Receiver.RejectedWriteUnseen | main.ts:68 | a rejected `write` leaves the chip's state unchanged |
| Receiver.BrightnessReceived | main.ts:83-88 | `setBrightness` is latched as [0x40] then [0x88 + brightness]; no display memory is written |
| Receiver.HandshakeReceived | main.ts:28-37 | the constructor's pin writes are latched only as [0x88 + brightness]; the data command is not seen |
| Receiver.TxReceived | main.ts:67-88 | one `write` (accepted or rejected) or `setBrightness` from an idle bus delivers exactly its frames and leaves the bus idle |
| Receiver.SessionReceived | main.ts:67-88 | any sequence of `write` and `setBrightness` transactions from an idle bus delivers all their frames, in order |
| Receiver.DriverSessionReceived | main.ts:28-88 | the constructor followed by any such transactions is received as [0x88 + brightness] and then every frame of every transaction |
| Segments.Glyph | main.ts:97 | a font lookup never sets the decimal-point bit (missing characters give 0x00) |
| Segments.GlyphReadsBack | main.ts:13-17 | every font character reads back as itself, without a point |
| Segments.GlyphInjective | main.ts:13-17 | distinct font characters light distinct segments |
| Segments.DotKeepsChar | main.ts:116 | OR-ing in 0x80 lights the point and leaves the digit a reader sees unchanged |
| Segments.DecimalString | main.ts:94 | defined as `toString` on an integer: '-' and the digits of -n when n < 0, else the digits of n; its meaning is `DecimalRoundTrip` |
| Segments.DecimalRoundTrip | main.ts:94 | the decimal text of an integer parses back to that integer |
| Segments.DecimalChars | main.ts:94 | the decimal text is non-empty and every character is in the font |
| Segments.DecimalFitsFour | main.ts:95 | the text of an integer in -999..9999 has at most four characters, so `slice(0, 4)` keeps all of it |
| Segments.IntegerSegments | main.ts:94-98 | exactly four bytes: the glyphs of the first four characters of floor(num)'s text, blank-padded on the left; what they show is `IntegerShown` |
| Segments.IntegerShown | main.ts:93-98 | `showInteger` shows the first four characters of floor(num)'s text, right-aligned behind blanks, with no point |
| Segments.IntegerReadsBack | main.ts:93-98 | for floor(num) in -999..9999, the panel without leading blanks reads exactly floor(num) |
| Segments.IntegerExamples | main.ts:93-98 | 7 gives [0,0,0,0x07]; 1234 and 12345 give [0x06,0x5b,0x4f,0x66]; -3 gives [0,0,0x40,0x4f] |
| Segments.Float1Cells | main.ts:108-120 | defined as the glyphs of `Math.idiv(n10, 10)`'s text with the point on the last one, then the glyph of `Math.abs(n10 % 10)`; its shape is `Float1CellsShape` |
| Segments.Float1Segments | main.ts:108-122 | exactly four bytes: the last four of those cells, blank-padded on the left; what they show is `Float1Shown` and `Float1Layout` |
| Segments.Float1CellsShape | main.ts:113-120 | the scan builds one cell per integer-part character plus one for the fraction digit |
| Segments.Float1Shown | main.ts:106-122 | `showFloat1` shows the last three integer-part characters (blank-padded), '.', then the fraction digit |
| Segments.Float1Layout | main.ts:113-122 | gram[2] always has the point, gram[3] is the fraction digit's glyph, and gram[0], gram[1], gram[3] have no point |
| Segments.Float1Decomposes | main.ts:108-109 | within 32 bits, 10 * intPart plus the fraction digit with n10's sign is n10 |
| Segments.Float1SignLostNearZero | main.ts:108 | for n10 in -9..-1 the bytes are those of -n10, and the panel reads "  0." and the digit |
| Segments.Float1Examples | main.ts:106-122 | 35 gives [0,0,0xcf,0x6d]; 1234 gives [0x06,0x5b,0xcf,0x66]; 12345 gives [0x5b,0x4f,0xe6,0x6d]; -15 gives [0,0x40,0x86,0x6d] |
| Tm1640.ClampBrightness | main.ts:31 | the stored brightness lies in 0..7 |
| Tm1640.ClampBrightnessValue | main.ts:84 | within 32 bits the brightness is max(0, min(7, trunc(value))) |
| Tm1640.ClampBrightnessIdempotent | main.ts:84 | clamping a stored brightness again keeps it |
| Tm1640.ClampBrightnessKeepsValid | main.ts:31 | an integer brightness in 0..7 is stored as given |
| Tm1640.Host.DigitalWritePin | main.ts:39-40 | `pins.digitalWritePin` appends exactly one pin-write event to the trace |
| Tm1640.Host.WaitMicros | main.ts:42-44 | `control.waitMicros` appends exactly one delay event to the trace |
| Tm1640.Display.constructor | main.ts:28-37 | stores the pins and the clamped brightness, zeroes `gram`, and emits CLK := 0, DIN := 0, a delay, the data-command frame, the display-control frame |
| Tm1640.Display.Dio | main.ts:39 | drives DIN to 1 exactly when n is non-zero |
| Tm1640.Display.Clk | main.ts:40 | drives CLK to 1 exactly when n is non-zero |
| Tm1640.Display.Start | main.ts:42-45 | emits DIN := 0, delay, CLK := 0, delay |
| Tm1640.Display.Stop | main.ts:46-50 | emits DIN := 0, delay, CLK := 1, delay, DIN := 1, delay |
| Tm1640.Display.WriteByte | main.ts:51-60 | appends the eight LSB-first bit periods of b |
| Tm1640.Display.WriteDataCmd | main.ts:61-63 | appends start, byte 0x40, stop |
| Tm1640.Display.WriteDspCtrl | main.ts:64-66 | appends start, the display-control byte for the stored brightness, stop |
| Tm1640.Display.Write | main.ts:67-75 | appends nothing for pos outside 0..16; otherwise the data command, the address frame with every row's low byte, the display control |
| Tm1640.Display.WriteAddressed | main.ts:70-73 | appends start, 0xC0 OR pos, every row's low byte, stop |
| Tm1640.Display.WriteRows | main.ts:72 | appends one byte period group per row, `r & 0xff`, in order |
| Tm1640.Display.Refresh | main.ts:76 | writes all 16 bytes of `gram` from address 0 |
| Tm1640.RefreshTwice | main.ts:76 | two refreshes with nothing changed in between emit the same transaction twice |
| Tm1640.Display.SetBrightness | main.ts:83-88 | stores the clamped brightness, leaves `gram` unchanged, emits the data command and the display control |
| Tm1640.Display.ShowInteger | main.ts:93-101 | gram[0..4] becomes the integer's four segment bytes, gram[4..16] is kept, and `gram` is refreshed |
| Tm1640.Display.StoreFour | main.ts:99 | gram[0..4] becomes buf, the other twelve bytes are kept |
| Tm1640.Display.ShowFloat1 | main.ts:106-125 | gram[0..4] becomes the segment bytes for `Math.round(num * 10)`, gram[4..16] is kept, and `gram` is refreshed |
| Tm1640.IntegerBuffer | main.ts:94-98 | the pushed and unshifted `buf` equals the integer's four segment bytes |
| Tm1640.PadLeft | main.ts:98 | unshifting 0x00 until there are four cells: unchanged if already four or more, else blank-padded on the left |
| Tm1640.Float1Buffer | main.ts:108-122 | the scanned, padded, last-four `buf` equals the one-decimal segment bytes |
| Tm1640.Float1Scan | main.ts:108-120 | scanning `intPart + "." + fracPart` builds the integer glyphs with the point on the last one, then the fraction glyph |
| Tm1640.ScanCellsFloat1 | main.ts:110-120 | the character-by-character scan of the text equals that cell layout |
| Tm1640.PaddedLastFour | main.ts:121-122 | padding to four and `slice(-4)` keep the last four cells, blank-padded on the left |
| Tm1640.SimpleMode.constructor | main.ts:20 | `_disp` starts as null |
| Tm1640.SimpleMode.Init | main.ts:136-138 | `_disp` becomes a fresh Display with the given pins and clamped brightness, after its handshake |
| Tm1640.SimpleMode.Create | main.ts:167-171 | the same as `init`, and returns the very object stored in `_disp` |
| Tm1640.SimpleMode.SetBrightness | main.ts:143-145 | without a display no event is emitted; otherwise it is `Display.setBrightness` |
| Tm1640.SimpleMode.ShowInteger | main.ts:150-152 | without a display no event is emitted; otherwise it is `Display.showInteger` |
| Tm1640.SimpleMode.ShowFloat1 | main.ts:157-159 | without a display no event is emitted; otherwise it is `Display.showFloat1` |

## Left out

- Real pin I/O and timing: `pins.digitalWritePin` and `control.waitMicros` are trace events on a `Host` object. The 2-microsecond delay is one `Delay` event with no duration.
- Floating point: `num`, `value` and `b` are exact reals, so `num * 10` and `Math.round` are computed without double rounding. NaN and the infinities are not modelled.
- `Number.prototype.toString` is modelled for integers only, as an optional '-' and the decimal digits. The exponent notation JavaScript uses from 1e21 upward is not modelled.
- Tm1640.Display.ShowInteger: its contract holds for values with |floor(num)| below 1e21 only; from 1e21 upward JavaScript prints exponent notation ("1e+21" shows "1e+2"), while the model shows the first four decimal digits.
- Segments.IntegerShown: likewise states the decimal text, not the exponent notation, for |floor(num)| of 1e21 and above.
- Tm1640.ClampBrightnessValue: states the clamp as truncation only for values within 32 bits. Outside that range `OrZero` still models the wrap-around exactly, but no lemma spells it out.
- `write` is modelled for integer `pos` and integer rows. A fractional `pos` would pass the guard in JavaScript and be truncated by `|`; this is not modelled.
- The MakeCode block annotations (`//%` comments) and the `DigitalPin` enum are UI bindings. Pins are plain integers, and the receiver lemmas assume CLK and DIN are different pins.
- A `Display` built directly with `new` while `_disp` is set is not tracked by `SimpleMode`. Both share the one `Host` trace, as the real pins would.
