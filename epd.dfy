/**
 * The `EPD` driver class for the Waveshare 4.2 inch V2 e-paper panel.
 *
 * The driver owns the frame buffer and two flags: `busy`, set while a full
 * refresh is being transmitted, and `partial`, the refresh mode. Every bus
 * operation is appended to `trace`; each method is proved to append exactly
 * the trace that `EpdProtocol` specifies for it and to move the flags as the
 * driver does. Drawing into the frame buffer is done by the renderer through
 * `buf` directly.
 */
module Epd {

  import opened Wrappers
  import opened EpdBus
  import opened EpdProtocol

  datatype Outcome = Pass | Fail(error: string)

  const BUSY_ERROR: string := "Cannot refresh: display is busy."

  class EPD {
    /** The frame buffer: EPD_HEIGHT rows of BWIDTH bytes, 1 bit per pixel. */
    const buf: array<byte>
    /** The scratch row that `_line` fills before sending it. */
    const lineBuf: array<byte>
    /** Set from the start of a full refresh until its rows are sent. */
    var busy: bool
    /** The refresh mode: partial when true, full otherwise. */
    var partial: bool
    /** Everything sent on the bus so far, in order. */
    var trace: seq<Event>

    ghost predicate Valid()
      reads this
    {
      buf.Length == BUFFER_SIZE && lineBuf.Length == BWIDTH && buf != lineBuf
    }

    /** Colour mapping for a monochrome panel: any bright channel is white. */
    static function Rgb(r: int, g: int, b: int): (c: int)
      ensures c == 0 || c == 1
      ensures c == 1 <==> r > 127 || g > 127 || b > 127
    {
      if r > 127 || g > 127 || b > 127 then 1 else 0
    }

    /** Construction clears the flags, allocates a zeroed frame buffer and runs
        `init`; the requested mode is kept as given. */
    constructor (partial: bool)
      ensures Valid() && fresh(buf) && fresh(lineBuf)
      ensures buf[..] == seq(BUFFER_SIZE, _ => 0)
      ensures this.partial == partial && !busy
      ensures trace == InitTrace()
    {
      buf := new byte[BUFFER_SIZE](_ => 0);
      lineBuf := new byte[BWIDTH](_ => 0);
      busy := false;
      this.partial := partial;
      trace := [];
      new;
      Init();
    }

    /** Hardware reset: the reset line driven 1, 0, 1 with 20 ms pauses. */
    method Reset()
      modifies this`trace
      ensures trace == old(trace) + [Event.Reset]
    {
      trace := trace + [Event.Reset];
    }

    /** `_command`: one opcode byte with DC low, framed by chip select, then
        the optional payload as a data write. */
    method SendCommand(op: byte, data: Option<seq<byte>> := None)
      modifies this`trace
      ensures trace == old(trace) + [Cmd(op)] + (if data.Some? then [Data(data.value)] else [])
    {
      trace := trace + [Cmd(op)];
      if data.Some? {
        SendData(data.value);
      }
    }

    /** `_data`: one payload write with DC high, framed by chip select. */
    method SendData(bytes: seq<byte>)
      modifies this`trace
      ensures trace == old(trace) + [Data(bytes)]
    {
      trace := trace + [Data(bytes)];
    }

    /** The driver is ready when no refresh is being transmitted and the
        panel's busy pin is not high. */
    function Ready(busyPin: int): (r: bool)
      reads this
      ensures r ==> !busy
      ensures r <==> !busy && busyPin != 1
    {
      !(busy || busyPin == 1)
    }

    /** `wait_until_ready` polls `Ready` every 100 ms until it holds. While
        `busy` is set it would never hold, so it is only called with `busy`
        clear; the wait itself is the `WaitReady` event. */
    method WaitUntilReady()
      requires !busy
      modifies this`trace
      ensures trace == old(trace) + [WaitReady]
    {
      trace := trace + [WaitReady];
    }

    method DisplayOn()
      modifies this`trace
      ensures trace == old(trace) + DisplayOnTrace()
    {
      SendCommand(0x22);
      SendData([0xF7]);
      SendCommand(0x20);
    }

    method DisplayOnPartial()
      modifies this`trace
      ensures trace == old(trace) + DisplayOnPartialTrace()
    {
      SendCommand(0x22);
      SendData([0xFF]);
      SendCommand(0x20);
    }

    /** The RAM window: x bytes 0 .. 0x31, y lines 0 .. 0x012B. */
    method SetWindow()
      modifies this`trace
      ensures trace == old(trace) + WindowTrace()
    {
      SendCommand(0x44);
      SendData([0x00]);
      SendData([0x31]);

      SendCommand(0x45);
      SendData([0x00]);
      SendData([0x00]);
      SendData([0x2B]);
      SendData([0x01]);
    }

    /** The RAM cursor: (0, 0). */
    method SetCursor()
      modifies this`trace
      ensures trace == old(trace) + CursorTrace()
    {
      SendCommand(0x4E);
      SendData([0x00]);

      SendCommand(0x4F);
      SendData([0x00]);
      SendData([0x00]);
    }

    /** Full set-up, blank both image registers, activate. */
    method Init()
      requires Valid() && !busy
      modifies this`trace, this`partial
      ensures partial == old(partial)
      ensures trace == old(trace) + InitTrace()
    {
      SetFull(false, true);
      Clear();
      DisplayOn();
    }

    /** Both image registers are written with blank rows, whatever the frame
        buffer holds. */
    method Clear()
      modifies this`trace
      ensures trace == old(trace) + ClearTrace()
    {
      ghost var t0 := trace;
      SendCommand(0x24);
      for j := 0 to EPD_HEIGHT
        invariant trace == t0 + [Cmd(0x24)] + BlankRows(j)
      {
        SendData(seq(BWIDTH, _ => 0xFF));
        BlankRowsNext(j);
      }
      ghost var t1 := trace;
      SendCommand(0x26);
      for j := 0 to EPD_HEIGHT
        invariant trace == t1 + [Cmd(0x26)] + BlankRows(j)
      {
        SendData(seq(BWIDTH, _ => 0xFF));
        BlankRowsNext(j);
      }
    }

    /** Switch to full mode. The panel is re-initialised only when it was in
        partial mode or the caller forces it; the mode flag is cleared only
        when `updatePartial` is set. */
    method SetFull(updatePartial: bool, forceUpdate: bool)
      requires partial || forceUpdate ==> !busy
      modifies this`trace, this`partial
      ensures partial == (if updatePartial then false else old(partial))
      ensures trace == old(trace) + (if old(partial) || forceUpdate then FullInitTrace() else [])
    {
      if partial || forceUpdate {
        ghost var t0 := trace;
        Reset();
        WaitUntilReady();

        SendCommand(0x12);  // software reset
        WaitUntilReady();
        assert trace == t0 + [Event.Reset, WaitReady, Cmd(0x12), WaitReady];

        FullConfig();
        SetWindow();
        SetCursor();

        WaitUntilReady();
        AppendAssoc(t0, [Event.Reset, WaitReady, Cmd(0x12), WaitReady], FullConfigTrace(),
                    WindowTrace(), CursorTrace(), [WaitReady]);
      }
      partial := if updatePartial then false else partial;
    }

    /** The register writes of `set_full` between the software reset and the
        window. */
    method FullConfig()
      modifies this`trace
      ensures trace == old(trace) + FullConfigTrace()
    {
      SendCommand(0x21);  // display update control
      SendData([0x40]);
      SendData([0x00]);

      SendCommand(0x3C);  // border waveform
      SendData([0x05]);

      SendCommand(0x11);  // data entry mode
      SendData([0x03]);
    }

    method SetPartial()
      modifies this`partial
      ensures partial
    {
      partial := true;
    }

    /** `_line`: fill the scratch row with row `n` of the frame buffer, every
        bit flipped, and send it. The frame buffer itself is not changed. */
    method Line(n: nat)
      requires Valid() && n < EPD_HEIGHT
      modifies this`trace, lineBuf
      ensures lineBuf[..] == Row(buf[..], n)
      ensures trace == old(trace) + [Data(Row(buf[..], n))]
    {
      assert BWIDTH == 50 && BUFFER_SIZE == 15000;
      var s := n * BWIDTH;
      for x := 0 to BWIDTH
        invariant trace == old(trace)
        invariant forall i :: 0 <= i < x ==> lineBuf[i] == buf[s + i] ^ 0xFF
      {
        lineBuf[x] := buf[s + x] ^ 0xFF;
      }
      assert lineBuf[..] == Row(buf[..], n);
      SendData(lineBuf[..]);
    }

    /** Refresh the panel from the frame buffer in the current mode, or fail
        with the busy error, sending nothing, if a refresh is in progress. */
    method Show() returns (res: Outcome)
      requires Valid()
      modifies this`trace, this`busy, lineBuf
      ensures partial == old(partial)
      ensures old(busy) ==> res == Fail(BUSY_ERROR) && busy && trace == old(trace) && lineBuf[..] == old(lineBuf[..])
      ensures !old(busy) ==> res == Pass && !busy
      ensures !old(busy) ==>
        trace == old(trace) + (if partial then PartialShowTrace(buf[..]) else FullShowTrace(buf[..]))
    {
      if busy {
        return Fail(BUSY_ERROR);
      }
      if partial {
        ShowPartial();
      } else {
        ShowFull();
      }
      res := Pass;
    }

    /** `_show_full` on the blocking path: the cooperative path is never
        taken because `asyncio_running()` is constantly false. */
    method ShowFull()
      requires Valid()
      modifies this`trace, this`busy, lineBuf
      ensures !busy
      ensures trace == old(trace) + FullShowTrace(buf[..])
    {
      busy := true;
      ghost var fb := buf[..];
      ghost var t0 := trace;
      SendImage(0x24);
      SendImage(0x26);
      busy := false;

      DisplayOn();
      WaitUntilReady();
      AppendAssoc(t0, [Cmd(0x24)] + Rows(fb, EPD_HEIGHT), [Cmd(0x26)], Rows(fb, EPD_HEIGHT),
                  DisplayOnTrace(), [WaitReady]);
    }

    /** One image register command followed by every row of the frame
        buffer, inverted, in order: each row loop of `_show_full` and
        `_show_partial`. */
    method SendImage(op: byte)
      requires Valid()
      modifies this`trace, lineBuf
      ensures trace == old(trace) + [Cmd(op)] + Rows(buf[..], EPD_HEIGHT)
    {
      SendCommand(op);
      for j := 0 to EPD_HEIGHT
        invariant trace == old(trace) + [Cmd(op)] + Rows(buf[..], j)
      {
        Line(j);
        RowsNext(buf[..], j);
      }
    }

    /** `_show_partial`: re-configure the panel for partial refresh, send the
        frame buffer once to the new-image register, activate with 0xFF. */
    method ShowPartial()
      requires Valid() && !busy
      modifies this`trace, lineBuf
      ensures trace == old(trace) + PartialShowTrace(buf[..])
    {
      ghost var fb := buf[..];
      ghost var start := trace;
      PartialSetup();
      SendImage(0x24);
      DisplayOnPartial();
      WaitUntilReady();
      AppendAssoc(start, PartialSetupTrace(), [Cmd(0x24)], Rows(fb, EPD_HEIGHT),
                  DisplayOnPartialTrace(), [WaitReady]);
    }

    /** The first part of `_show_partial`, up to and including the wait after
        the cursor is set; kept as its own method so that each part of the
        partial refresh is proved on its own. */
    method PartialSetup()
      requires !busy
      modifies this`trace
      ensures trace == old(trace) + PartialSetupTrace()
    {
      Reset();
      WaitUntilReady();
      PartialConfig();
      SetWindow();
      SetCursor();
      WaitUntilReady();
      AppendAssoc(old(trace), [Event.Reset, WaitReady], PartialConfigTrace(),
                  WindowTrace(), CursorTrace(), [WaitReady]);
    }

    /** The register writes of `_show_partial` before the window is set. */
    method PartialConfig()
      modifies this`trace
      ensures trace == old(trace) + PartialConfigTrace()
    {
      SendCommand(0x3C);  // border waveform
      SendData([0x80]);

      SendCommand(0x21);  // display update control
      SendData([0x00]);
      SendData([0x00]);
      assert trace == old(trace) + [Cmd(0x3C), Data([0x80]), Cmd(0x21), Data([0x00]), Data([0x00])];
      ghost var t1 := trace;

      SendCommand(0x3C);  // border waveform
      SendData([0x80]);

      SendCommand(0x11);  // data entry mode
      SendData([0x03]);
      assert trace == t1 + [Cmd(0x3C), Data([0x80]), Cmd(0x11), Data([0x03])];
    }

    /** Deep sleep. */
    method Sleep()
      modifies this`trace
      ensures trace == old(trace) + SleepTrace()
    {
      SendCommand(0x10);
      SendData([0x01]);
    }
  }
}
