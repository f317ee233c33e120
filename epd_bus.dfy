/**
 * The serial link between the host and the e-paper controller.
 *
 * The driver's observable behaviour is an append-only trace of bus events.
 * Each event is framed on the wire by the control lines exactly as the
 * driver's `_command`, `_data`, `reset` and `wait_until_ready` do it; the
 * framing is given by `Frame`, and `Decode` recovers the events from the
 * line activity, so the event trace loses nothing that is on the wire.
 */
module EpdBus {

  import opened Wrappers

  type byte = bv8

  /** One logical bus operation of the driver. */
  datatype Event =
    | Reset                   // reset line pulsed 1, 0, 1
    | Cmd(op: byte)           // one opcode byte with DC low
    | Data(bytes: seq<byte>)  // one payload write with DC high
    | WaitReady               // busy-pin polling until the panel is ready

  /** Line-level activity: control-line levels, raw SPI writes, delays. */
  datatype Signal =
    | Rst(high: bool)
    | DelayMs(ms: nat)
    | Dc(high: bool)
    | Cs(high: bool)
    | Write(bytes: seq<byte>)
    | PollBusy

  /** The line activity of one event. */
  function Frame(e: Event): (s: seq<Signal>)
  {
    match e
    case Reset =>
      [Rst(true), DelayMs(20), Rst(false), DelayMs(20), Rst(true), DelayMs(20)]
    case Cmd(op) => [Dc(false), Cs(false), Write([op]), Cs(true)]
    case Data(bytes) => [Dc(true), Cs(false), Write(bytes), Cs(true)]
    case WaitReady => [PollBusy]
  }

  /** The line activity of a whole trace. */
  function Wire(t: seq<Event>): (s: seq<Signal>)
  {
    if t == [] then [] else Frame(t[0]) + Wire(t[1..])
  }

  /** Recovers the events from line activity, or None if it is not framed. */
  function Decode(s: seq<Signal>): (r: Option<seq<Event>>)
    decreases |s|
  {
    if s == [] then Some([])
    else if |s| >= 6 && s[..6] == Frame(Reset) then Prepend(Reset, Decode(s[6..]))
    else if |s| >= 4 && s[0] == Dc(false) && s[1] == Cs(false) && s[2].Write?
            && |s[2].bytes| == 1 && s[3] == Cs(true)
    then Prepend(Cmd(s[2].bytes[0]), Decode(s[4..]))
    else if |s| >= 4 && s[0] == Dc(true) && s[1] == Cs(false) && s[2].Write?
            && s[3] == Cs(true)
    then Prepend(Data(s[2].bytes), Decode(s[4..]))
    else if s[0] == PollBusy then Prepend(WaitReady, Decode(s[1..]))
    else None
  }

  function Prepend(e: Event, r: Option<seq<Event>>): Option<seq<Event>>
  {
    match r
    case None => None
    case Some(t) => Some([e] + t)
  }

  /** A command is one single-byte write with DC low, bracketed by CS low then
      high; a data write is the same with DC high. */
  lemma FramingShape(e: Event)
    requires e.Cmd? || e.Data?
    ensures |Frame(e)| == 4
    ensures Frame(e)[0] == Dc(e.Data?) && Frame(e)[1] == Cs(false) && Frame(e)[3] == Cs(true)
    ensures Frame(e)[2] == Write(if e.Cmd? then [e.op] else e.bytes)
  {
  }

  lemma {:induction false} DecodeFrame(e: Event, rest: seq<Signal>)
    ensures Decode(Frame(e) + rest) == Prepend(e, Decode(rest))
  {
    var s := Frame(e) + rest;
    match e
    case Reset =>
      assert s[..6] == Frame(Reset);
      assert s[6..] == rest;
    case Cmd(op) =>
      assert s[0] != Frame(Reset)[0];
      assert s[4..] == rest;
    case Data(bytes) =>
      assert s[0] != Frame(Reset)[0];
      assert s[4..] == rest;
    case WaitReady =>
      assert s[1..] == rest;
  }

  /** The wire format is lossless: decoding the line activity of a trace gives
      back exactly that trace. */
  lemma {:induction false} WireRoundTrip(t: seq<Event>)
    ensures Decode(Wire(t)) == Some(t)
  {
    if t != [] {
      WireRoundTrip(t[1..]);
      DecodeFrame(t[0], Wire(t[1..]));
      assert [t[0]] + t[1..] == t;
    }
  }

  /** Appending to the event trace appends to the line activity. */
  lemma {:induction false} WireAppend(a: seq<Event>, b: seq<Event>)
    ensures Wire(a + b) == Wire(a) + Wire(b)
  {
    if a != [] {
      assert (a + b)[1..] == a[1..] + b;
      WireAppend(a[1..], b);
    } else {
      assert a + b == b;
    }
  }
}
