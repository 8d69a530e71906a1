/**
 * The chip's side of the bus, as an independent reference for the traces
 * the driver emits. Following the TM1640 datasheet: a start condition is
 * the data line falling while the clock is high, a stop condition is the
 * data line rising while the clock is high, and between them the chip
 * samples the data line at every rising clock edge, least significant bit
 * first, latching one byte every eight bits; bits left over when the stop
 * arrives are discarded.
 */
module Receiver {
  import opened JsNumber
  import opened Protocol

  /** Whether the chip is inside a frame, and which bits it has sampled in it. */
  datatype Mode = Idle | Receiving(bits: seq<bool>)

  /** The line levels the chip last saw, and its framing state. */
  datatype Rx = Rx(clk: bool, dio: bool, mode: Mode)

  /** A receiver state together with the frames (as byte lists) completed so far. */
  datatype Out = Out(rx: Rx, frames: seq<seq<Byte>>)

  /** Both lines high and no frame open: the bus after any stop condition. */
  const Ready: Rx := Rx(true, true, Idle)

  /** The bytes latched from the sampled bits; an incomplete trailing byte is dropped. */
  function Bytes(bits: seq<bool>): seq<Byte>
    decreases |bits|
  {
    if |bits| < 8 then []
    else
      assert Pow2(8) == 256;
      [FromBits(bits[..8])] + Bytes(bits[8..])
  }

  /** Sampled bits are kept only inside a frame. */
  function Extend(m: Mode, bs: seq<bool>): Mode
  {
    if m.Idle? then Idle else Receiving(m.bits + bs)
  }

  /** How one event changes what the chip sees. */
  function Step(p: Bus, st: Rx, e: Event): Out
  {
    match e
    case Delay => Out(st, [])
    case DigitalWrite(pin, v) =>
      if pin == p.clk then
        var rising := !st.clk && v;
        Out(Rx(v, st.dio, if rising then Extend(st.mode, [st.dio]) else st.mode), [])
      else if pin == p.dio then
        if st.clk && st.dio && !v then
          Out(Rx(st.clk, v, Receiving([])), [])
        else if st.clk && !st.dio && v then
          Out(Rx(st.clk, v, Idle), if st.mode.Receiving? then [Bytes(st.mode.bits)] else [])
        else
          Out(Rx(st.clk, v, st.mode), [])
      else
        Out(st, [])
  }

  /** The chip's view of a whole trace. */
  function Receive(p: Bus, st: Rx, t: seq<Event>): Out
    decreases |t|
  {
    if t == [] then Out(st, [])
    else
      var o1 := Step(p, st, t[0]);
      var o2 := Receive(p, o1.rx, t[1..]);
      Out(o2.rx, o1.frames + o2.frames)
  }

  /** Continue receiving `t` after what `o` already holds. */
  function Then(p: Bus, o: Out, t: seq<Event>): Out
  {
    var o2 := Receive(p, o.rx, t);
    Out(o2.rx, o.frames + o2.frames)
  }

  /** The bits the chip samples for a list of bytes sent one after another. */
  function BitsOf(bs: seq<int>): seq<bool>
  {
    if bs == [] then [] else Bits(bs[0], 8) + BitsOf(bs[1..])
  }

  // ---------------------------------------------------------------------
  // Composition

  /** Receiving two traces one after the other is receiving their concatenation. */
  lemma {:induction false} ReceiveAppend(p: Bus, st: Rx, a: seq<Event>, b: seq<Event>)
    ensures Receive(p, st, a + b) == Then(p, Receive(p, st, a), b)
    decreases |a|
  {
    if a == [] {
      assert a + b == b;
    } else {
      assert (a + b)[0] == a[0];
      assert (a + b)[1..] == a[1..] + b;
      ReceiveAppend(p, Step(p, st, a[0]).rx, a[1..], b);
    }
  }

  lemma ExtendAssoc(m: Mode, x: seq<bool>, y: seq<bool>)
    ensures Extend(Extend(m, x), y) == Extend(m, x + y)
  {
    if m.Receiving? {
      assert m.bits + x + y == m.bits + (x + y);
    }
  }

  // ---------------------------------------------------------------------
  // The pieces of a transaction, as the chip sees them

  /** A start from an idle bus opens an empty frame and leaves both lines low. */
  lemma StartOpensFrame(p: Bus, st: Rx)
    requires p.clk != p.dio
    requires st.clk && st.dio
    ensures Receive(p, st, StartFrame(p)) == Out(Rx(false, false, Receiving([])), [])
  {
    var t := StartFrame(p);
    var s1 := Rx(true, false, Receiving([]));
    var s2 := Rx(false, false, Receiving([]));
    assert Receive(p, s2, t[3..]) == Out(s2, []);
    assert Receive(p, s2, t[2..]) == Out(s2, []);
    assert Receive(p, s1, t[1..]) == Out(s2, []);
  }

  /** A start issued while the clock is already low is no start condition: nothing opens. */
  lemma StartWithClockLow(p: Bus, st: Rx)
    requires p.clk != p.dio
    requires !st.clk
    ensures Receive(p, st, StartFrame(p)) == Out(Rx(false, false, st.mode), [])
  {
    var t := StartFrame(p);
    var s1 := Rx(false, false, st.mode);
    assert Receive(p, s1, t[3..]) == Out(s1, []);
    assert Receive(p, s1, t[2..]) == Out(s1, []);
    assert Receive(p, s1, t[1..]) == Out(s1, []);
  }

  /** One bit period with the clock low: the chip samples its data level at the rising edge. */
  lemma BitPeriodSamples(p: Bus, st: Rx, h: bool)
    requires p.clk != p.dio
    requires !st.clk
    ensures Receive(p, st, BitPeriod(p, h)) == Out(Rx(false, h, Extend(st.mode, [h])), [])
  {
    var t := BitPeriod(p, h);
    var s1 := Rx(false, h, st.mode);
    var s2 := Rx(true, h, Extend(st.mode, [h]));
    var s3 := Rx(false, h, Extend(st.mode, [h]));
    assert Receive(p, s3, t[5..]) == Out(s3, []);
    assert Receive(p, s3, t[4..]) == Out(s3, []);
    assert Receive(p, s2, t[3..]) == Out(s3, []);
    assert Receive(p, s2, t[2..]) == Out(s3, []);
    assert Receive(p, s1, t[1..]) == Out(s3, []);
  }

  /** The first k periods of `_write_byte(b)` deliver bits 0..k-1 of b, in that order. */
  lemma {:induction false} ShiftOutSamples(p: Bus, st: Rx, b: int, k: nat)
    requires p.clk != p.dio
    requires !st.clk
    ensures Receive(p, st, ShiftOut(p, b, k)).frames == []
    ensures !Receive(p, st, ShiftOut(p, b, k)).rx.clk
    ensures Receive(p, st, ShiftOut(p, b, k)).rx.mode == Extend(st.mode, Bits(b, k))
  {
    if k == 0 {
      assert Bits(b, 0) == [];
      ExtendAssoc(st.mode, [], []);
    } else {
      ShiftOutSamples(p, st, b, k - 1);
      var o := Receive(p, st, ShiftOut(p, b, k - 1));
      ReceiveAppend(p, st, ShiftOut(p, b, k - 1), BitPeriod(p, Bit(b, k - 1)));
      BitPeriodSamples(p, o.rx, Bit(b, k - 1));
      ExtendAssoc(st.mode, Bits(b, k - 1), [Bit(b, k - 1)]);
      assert Bits(b, k - 1) + [Bit(b, k - 1)] == Bits(b, k);
    }
  }

  /** Every byte of a list is delivered, least significant bit first, one after another. */
  lemma {:induction false} BytesSampled(p: Bus, st: Rx, bs: seq<int>)
    requires p.clk != p.dio
    requires !st.clk
    ensures Receive(p, st, BytesEvents(p, bs)).frames == []
    ensures !Receive(p, st, BytesEvents(p, bs)).rx.clk
    ensures Receive(p, st, BytesEvents(p, bs)).rx.mode == Extend(st.mode, BitsOf(bs))
    decreases |bs|
  {
    if bs == [] {
      ExtendAssoc(st.mode, [], []);
      assert st.mode == Extend(st.mode, []);
    } else {
      ShiftOutSamples(p, st, bs[0], 8);
      var o := Receive(p, st, ByteEvents(p, bs[0]));
      ReceiveAppend(p, st, ByteEvents(p, bs[0]), BytesEvents(p, bs[1..]));
      BytesSampled(p, o.rx, bs[1..]);
      ExtendAssoc(st.mode, Bits(bs[0], 8), BitsOf(bs[1..]));
    }
  }

  /**
   * A stop with the clock low: its clock rise samples one extra low bit,
   * then the data rise closes the frame and the chip latches its bytes.
   */
  lemma StopClosesFrame(p: Bus, st: Rx)
    requires p.clk != p.dio
    requires !st.clk
    ensures Receive(p, st, StopFrame(p)) ==
            Out(Ready, if st.mode.Receiving? then [Bytes(st.mode.bits + [false])] else [])
  {
    var t := StopFrame(p);
    var m := Extend(st.mode, [false]);
    var s1 := Rx(false, false, st.mode);
    var s2 := Rx(true, false, m);
    var f := if st.mode.Receiving? then [Bytes(st.mode.bits + [false])] else [];
    assert Receive(p, Ready, t[5..]) == Out(Ready, []);
    assert Receive(p, s2, t[4..]) == Out(Ready, f);
    assert Receive(p, s2, t[3..]) == Out(Ready, f);
    assert Receive(p, s1, t[2..]) == Out(Ready, f);
    assert Receive(p, s1, t[1..]) == Out(Ready, f);
  }

  /** The bits of whole bytes, with one stray bit after them, latch back to the bytes' low eight bits. */
  lemma {:induction false} BytesOfBitsOf(bs: seq<int>)
    ensures Bytes(BitsOf(bs) + [false]) == Low8s(bs)
    decreases |bs|
  {
    if bs != [] {
      var x := BitsOf(bs) + [false];
      assert x == Bits(bs[0], 8) + (BitsOf(bs[1..]) + [false]);
      assert x[..8] == Bits(bs[0], 8);
      assert x[8..] == BitsOf(bs[1..]) + [false];
      ByteBitsRoundTrip(bs[0]);
      BytesOfBitsOf(bs[1..]);
      assert Low8s(bs) == [Low8(bs[0])] + Low8s(bs[1..]);
    }
  }

  // ---------------------------------------------------------------------
  // Whole transactions

  /** A frame sent from an idle bus is received as exactly its bytes, and the bus is idle again. */
  lemma FrameReceived(p: Bus, st: Rx, payload: seq<int>)
    requires p.clk != p.dio
    requires st.clk && st.dio
    ensures Receive(p, st, Frame(p, payload)) == Out(Ready, [Low8s(payload)])
  {
    var s1 := Rx(false, false, Receiving([]));
    StartOpensFrame(p, st);
    ReceiveAppend(p, st, StartFrame(p), BytesEvents(p, payload));
    BytesSampled(p, s1, payload);
    var o := Receive(p, s1, BytesEvents(p, payload));
    ReceiveAppend(p, st, StartFrame(p) + BytesEvents(p, payload), StopFrame(p));
    StopClosesFrame(p, o.rx);
    assert o.rx.mode == Receiving(BitsOf(payload));
    BytesOfBitsOf(payload);
  }

  /**
   * A frame whose start finds the clock already low and no frame open is
   * invisible to the chip: the bus ends idle and no bytes are latched.
   */
  lemma FrameUnseenWithClockLow(p: Bus, st: Rx, payload: seq<int>)
    requires p.clk != p.dio
    requires !st.clk && st.mode.Idle?
    ensures Receive(p, st, Frame(p, payload)) == Out(Ready, [])
  {
    var s1 := Rx(false, false, Idle);
    StartWithClockLow(p, st);
    ReceiveAppend(p, st, StartFrame(p), BytesEvents(p, payload));
    BytesSampled(p, s1, payload);
    var o := Receive(p, s1, BytesEvents(p, payload));
    ReceiveAppend(p, st, StartFrame(p) + BytesEvents(p, payload), StopFrame(p));
    StopClosesFrame(p, o.rx);
  }

  /**
   * An accepted `write(rows, pos)` on an idle bus is received as three
   * frames: the data command 0x40, the address 0xC0 + pos followed by every
   * row's low byte, and the display control 0x88 + brightness.
   */
  lemma WriteReceived(p: Bus, rows: seq<int>, pos: int, brightness: int)
    requires p.clk != p.dio
    requires 0 <= pos <= MaxPos
    requires 0 <= brightness <= 7
    ensures Receive(p, Ready, WriteTrace(p, rows, pos, brightness)) ==
            Out(Ready, [[0x40], [0xC0 + pos] + Low8s(rows), [0x88 + brightness]])
  {
    ThreeFramesReceived(p, [DataCmd], [AddressCmd(pos)] + Low8s(rows), [DisplayCtrlCmd(brightness)]);
    AddressCmdValue(pos);
    DisplayCtrlCmdValue(brightness);
    assert Low8s([AddressCmd(pos)] + Low8s(rows)) == [0xC0 + pos] + Low8s(rows);
    assert Low8s([DataCmd]) == [0x40];
    assert Low8s([DisplayCtrlCmd(brightness)]) == [0x88 + brightness];
  }

  lemma TwoFramesReceived(p: Bus, x: seq<int>, y: seq<int>)
    requires p.clk != p.dio
    ensures Receive(p, Ready, Frame(p, x) + Frame(p, y)) == Out(Ready, [Low8s(x), Low8s(y)])
  {
    FrameReceived(p, Ready, x);
    FrameReceived(p, Ready, y);
    ReceiveAppend(p, Ready, Frame(p, x), Frame(p, y));
  }

  lemma ThreeFramesReceived(p: Bus, x: seq<int>, y: seq<int>, z: seq<int>)
    requires p.clk != p.dio
    ensures Receive(p, Ready, Frame(p, x) + Frame(p, y) + Frame(p, z)) ==
            Out(Ready, [Low8s(x), Low8s(y), Low8s(z)])
  {
    TwoFramesReceived(p, x, y);
    FrameReceived(p, Ready, z);
    ReceiveAppend(p, Ready, Frame(p, x) + Frame(p, y), Frame(p, z));
  }

  /** A rejected `write` sends nothing, so the chip's state is untouched. */
  lemma RejectedWriteUnseen(p: Bus, st: Rx, rows: seq<int>, pos: int, brightness: int)
    requires 0 <= brightness <= 7
    requires pos < 0 || pos > MaxPos
    ensures Receive(p, st, WriteTrace(p, rows, pos, brightness)) == Out(st, [])
  {
  }

  /** `setBrightness` on an idle bus is received as the data command then the display control. */
  lemma BrightnessReceived(p: Bus, brightness: int)
    requires p.clk != p.dio
    requires 0 <= brightness <= 7
    ensures Receive(p, Ready, BrightnessTrace(p, brightness)) == Out(Ready, [[0x40], [0x88 + brightness]])
  {
    TwoFramesReceived(p, [DataCmd], [DisplayCtrlCmd(brightness)]);
    DisplayCtrlCmdValue(brightness);
    assert Low8s([DataCmd]) == [0x40];
    assert Low8s([DisplayCtrlCmd(brightness)]) == [0x88 + brightness];
  }

  /**
   * The constructor's handshake, whatever the line levels before it (with no
   * frame open): it drives the clock low before its first start, so the
   * chip never sees the data command's start condition and receives only
   * the display control, after which the bus is idle.
   */
  lemma HandshakeReceived(p: Bus, st: Rx, brightness: int)
    requires p.clk != p.dio
    requires st.mode.Idle?
    requires 0 <= brightness <= 7
    ensures Receive(p, st, HandshakeTrace(p, brightness)) == Out(Ready, [[0x88 + brightness]])
  {
    var pre := [DigitalWrite(p.clk, false), DigitalWrite(p.dio, false), Delay];
    var s1 := Rx(false, false, Idle);
    LinesLow(p, st);
    FrameUnseenWithClockLow(p, s1, [DataCmd]);
    FrameReceived(p, Ready, [DisplayCtrlCmd(brightness)]);
    ReceiveAppend(p, st, pre, DataCmdFrame(p));
    ReceiveAppend(p, st, pre + DataCmdFrame(p), DisplayCtrlFrame(p, brightness));
    DisplayCtrlCmdValue(brightness);
    assert Low8s([DisplayCtrlCmd(brightness)]) == [0x88 + brightness];
    assert Receive(p, st, pre + DataCmdFrame(p)) == Out(Ready, []);
  }

  /** Pulling both lines low from an idle receiver starts nothing. */
  lemma LinesLow(p: Bus, st: Rx)
    requires p.clk != p.dio
    requires st.mode.Idle?
    ensures Receive(p, st, [DigitalWrite(p.clk, false), DigitalWrite(p.dio, false), Delay])
            == Out(Rx(false, false, Idle), [])
  {
    var pre := [DigitalWrite(p.clk, false), DigitalWrite(p.dio, false), Delay];
    var s1 := Rx(false, false, Idle);
    assert Receive(p, s1, pre[2..]) == Out(s1, []);
    assert Receive(p, Rx(false, st.dio, Idle), pre[1..]) == Out(s1, []);
  }

  // ---------------------------------------------------------------------
  // A whole session

  /**
   * One transaction the driver issues after its constructor: a `write` (which
   * `refresh`, `showInteger` and `showFloat1` go through) with the brightness
   * then stored, or a `setBrightness` to a new brightness.
   */
  datatype Transaction = WriteTx(rows: seq<int>, pos: int, brightness: int) | BrightnessTx(brightness: int)

  predicate ValidTx(tx: Transaction)
  {
    0 <= tx.brightness <= 7
  }

  predicate AllValid(txs: seq<Transaction>)
  {
    forall i :: 0 <= i < |txs| ==> ValidTx(txs[i])
  }

  function TxTrace(p: Bus, tx: Transaction): seq<Event>
    requires ValidTx(tx)
  {
    match tx
    case WriteTx(rows, pos, b) => WriteTrace(p, rows, pos, b)
    case BrightnessTx(b) => BrightnessTrace(p, b)
  }

  /** The transactions' traces, one after another. */
  function SessionTrace(p: Bus, txs: seq<Transaction>): seq<Event>
    requires AllValid(txs)
  {
    if txs == [] then [] else TxTrace(p, txs[0]) + SessionTrace(p, txs[1..])
  }

  /** The frames each transaction is meant to deliver to the chip. */
  function TxFrames(tx: Transaction): seq<seq<Byte>>
    requires ValidTx(tx)
  {
    match tx
    case WriteTx(rows, pos, b) =>
      if pos < 0 || pos > MaxPos then [] else [[0x40], [0xC0 + pos] + Low8s(rows), [0x88 + b]]
    case BrightnessTx(b) => [[0x40], [0x88 + b]]
  }

  function SessionFrames(txs: seq<Transaction>): seq<seq<Byte>>
    requires AllValid(txs)
  {
    if txs == [] then [] else TxFrames(txs[0]) + SessionFrames(txs[1..])
  }

  /** Each transaction starts and ends on an idle bus and delivers its frames. */
  lemma TxReceived(p: Bus, tx: Transaction)
    requires p.clk != p.dio
    requires ValidTx(tx)
    ensures Receive(p, Ready, TxTrace(p, tx)) == Out(Ready, TxFrames(tx))
  {
    match tx
    case WriteTx(rows, pos, b) =>
      if pos < 0 || pos > MaxPos {
        RejectedWriteUnseen(p, Ready, rows, pos, b);
      } else {
        WriteReceived(p, rows, pos, b);
      }
    case BrightnessTx(b) =>
      BrightnessReceived(p, b);
  }

  /** From an idle bus, a sequence of transactions delivers all of their frames, in order. */
  lemma {:induction false} SessionReceived(p: Bus, txs: seq<Transaction>)
    requires p.clk != p.dio
    requires AllValid(txs)
    ensures Receive(p, Ready, SessionTrace(p, txs)) == Out(Ready, SessionFrames(txs))
  {
    if txs != [] {
      TxReceived(p, txs[0]);
      SessionReceived(p, txs[1..]);
      ReceiveAppend(p, Ready, TxTrace(p, txs[0]), SessionTrace(p, txs[1..]));
    }
  }

  /**
   * A driver's life on the bus: the constructor's handshake delivers only the
   * display control, and every transaction after it delivers all its frames.
   */
  lemma DriverSessionReceived(p: Bus, st: Rx, brightness: int, txs: seq<Transaction>)
    requires p.clk != p.dio
    requires st.mode.Idle?
    requires 0 <= brightness <= 7
    requires AllValid(txs)
    ensures Receive(p, st, HandshakeTrace(p, brightness) + SessionTrace(p, txs)) ==
            Out(Ready, [[0x88 + brightness]] + SessionFrames(txs))
  {
    HandshakeReceived(p, st, brightness);
    SessionReceived(p, txs);
    ReceiveAppend(p, st, HandshakeTrace(p, brightness), SessionTrace(p, txs));
  }
}
