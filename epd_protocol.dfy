/**
 * The command set of the Waveshare 4.2 inch V2 e-paper panel as the driver
 * uses it: the geometry constants, the row encoding of the frame buffer, and
 * the exact bus traces of each driver operation. The traces are the
 * specifications the `EPD` class methods are proved against; the lemmas here
 * state what those traces mean for the panel.
 */
module EpdProtocol {

  import opened EpdBus

  const EPD_WIDTH: nat := 400
  /** Bytes per row: 8 pixels per byte. */
  const BWIDTH: nat := EPD_WIDTH / 8
  const EPD_HEIGHT: nat := 300
  /** Size of the 1-bit-per-pixel frame buffer. */
  const BUFFER_SIZE: nat := EPD_HEIGHT * BWIDTH

  /** Every bit flipped. */
  function Invert(s: seq<byte>): (r: seq<byte>)
    ensures |r| == |s|
  {
    seq(|s|, i requires 0 <= i < |s| => s[i] ^ 0xFF)
  }

  lemma InvertInvolutive(s: seq<byte>)
    ensures Invert(Invert(s)) == s
  {
  }

  lemma InvertAppend(a: seq<byte>, b: seq<byte>)
    ensures Invert(a + b) == Invert(a) + Invert(b)
  {
  }

  /** Row `n` of the frame buffer as sent on the wire: inverted. */
  function Row(fb: seq<byte>, n: nat): (r: seq<byte>)
    requires |fb| == BUFFER_SIZE && n < EPD_HEIGHT
  {
    Invert(fb[n * BWIDTH .. n * BWIDTH + BWIDTH])
  }

  /** The bytes sent for a row have the row width, and inverting them again
      gives back the row as the frame buffer holds it. */
  lemma RowRoundTrip(fb: seq<byte>, n: nat)
    requires |fb| == BUFFER_SIZE && n < EPD_HEIGHT
    ensures |Row(fb, n)| == BWIDTH
    ensures Invert(Row(fb, n)) == fb[n * BWIDTH .. (n + 1) * BWIDTH]
  {
    InvertInvolutive(fb[n * BWIDTH .. n * BWIDTH + BWIDTH]);
  }

  /** The data writes of rows 0 .. k-1, in order. */
  function Rows(fb: seq<byte>, k: nat): (t: seq<Event>)
    requires |fb| == BUFFER_SIZE && k <= EPD_HEIGHT
  {
    seq(k, i requires 0 <= i < k => Data(Row(fb, i)))
  }

  lemma RowsNext(fb: seq<byte>, k: nat)
    requires |fb| == BUFFER_SIZE && k < EPD_HEIGHT
    ensures Rows(fb, k + 1) == Rows(fb, k) + [Data(Row(fb, k))]
  {
  }

  /** A row of fifty 0xFF bytes: blank on the panel. */
  function BlankRow(): (r: seq<byte>)
  {
    seq(BWIDTH, _ => 0xFF)
  }

  function BlankRows(k: nat): (t: seq<Event>)
  {
    seq(k, _ => Data(BlankRow()))
  }

  lemma BlankRowsNext(k: nat)
    ensures BlankRows(k + 1) == BlankRows(k) + [Data(BlankRow())]
  {
  }

  // ---------------------------------------------------------------------
  // Traces of the driver operations

  function DisplayOnTrace(): seq<Event>
  {
    [Cmd(0x22), Data([0xF7]), Cmd(0x20)]
  }

  function DisplayOnPartialTrace(): seq<Event>
  {
    [Cmd(0x22), Data([0xFF]), Cmd(0x20)]
  }

  function WindowTrace(): seq<Event>
  {
    [Cmd(0x44), Data([0x00]), Data([0x31]),
     Cmd(0x45), Data([0x00]), Data([0x00]), Data([0x2B]), Data([0x01])]
  }

  function CursorTrace(): seq<Event>
  {
    [Cmd(0x4E), Data([0x00]), Cmd(0x4F), Data([0x00]), Data([0x00])]
  }

  /** The window is the whole panel: x bytes from 0 to BWIDTH - 1 and lines
      from 0 to EPD_HEIGHT - 1, the line numbers sent low byte first; the
      cursor is put at the window's first byte of its first line. */
  lemma WindowCoversPanel()
    ensures WindowTrace()[0] == Cmd(0x44) && WindowTrace()[3] == Cmd(0x45)
    ensures WindowTrace()[1] == Data([0]) && WindowTrace()[2] == Data([(BWIDTH - 1) as byte])
    ensures WindowTrace()[4] == Data([0]) && WindowTrace()[5] == Data([0])
    ensures WindowTrace()[6] == Data([((EPD_HEIGHT - 1) % 256) as byte])
         && WindowTrace()[7] == Data([((EPD_HEIGHT - 1) / 256) as byte])
    ensures CursorTrace()[0] == Cmd(0x4E) && CursorTrace()[1] == WindowTrace()[1]
    ensures CursorTrace()[2] == Cmd(0x4F) && CursorTrace()[3] == WindowTrace()[4]
         && CursorTrace()[4] == WindowTrace()[5]
  {
    assert BWIDTH - 1 == 49 && (EPD_HEIGHT - 1) % 256 == 43 && (EPD_HEIGHT - 1) / 256 == 1;
  }

  /** Display update control, border waveform and data entry mode for full
      refresh. */
  function FullConfigTrace(): seq<Event>
  {
    [Cmd(0x21), Data([0x40]), Data([0x00]),
     Cmd(0x3C), Data([0x05]),
     Cmd(0x11), Data([0x03])]
  }

  /** The reset/initialisation sequence of `set_full` when it does run. */
  function FullInitTrace(): seq<Event>
  {
    [Reset, WaitReady, Cmd(0x12), WaitReady] + FullConfigTrace()
    + WindowTrace() + CursorTrace() + [WaitReady]
  }

  lemma AppendAssoc(t0: seq<Event>, a: seq<Event>, b: seq<Event>, c: seq<Event>, d: seq<Event>, e: seq<Event>)
    ensures t0 + a + b + c + d + e == t0 + (a + b + c + d + e)
  {
  }

  function ClearTrace(): seq<Event>
  {
    [Cmd(0x24)] + BlankRows(EPD_HEIGHT) + [Cmd(0x26)] + BlankRows(EPD_HEIGHT)
  }

  /** What construction sends: `init` with the forced full set-up. */
  function InitTrace(): seq<Event>
  {
    FullInitTrace() + ClearTrace() + DisplayOnTrace()
  }

  function FullShowTrace(fb: seq<byte>): seq<Event>
    requires |fb| == BUFFER_SIZE
  {
    [Cmd(0x24)] + Rows(fb, EPD_HEIGHT) + [Cmd(0x26)] + Rows(fb, EPD_HEIGHT)
    + DisplayOnTrace() + [WaitReady]
  }

  /** Border waveform, display update control, border waveform again and data
      entry mode for partial refresh. */
  function PartialConfigTrace(): seq<Event>
  {
    [Cmd(0x3C), Data([0x80]),
     Cmd(0x21), Data([0x00]), Data([0x00]),
     Cmd(0x3C), Data([0x80]),
     Cmd(0x11), Data([0x03])]
  }

  /** The set-up part of a partial refresh, before the image is sent. */
  function PartialSetupTrace(): seq<Event>
  {
    [Reset, WaitReady] + PartialConfigTrace()
    + WindowTrace() + CursorTrace() + [WaitReady]
  }

  function PartialShowTrace(fb: seq<byte>): seq<Event>
    requires |fb| == BUFFER_SIZE
  {
    PartialSetupTrace() + [Cmd(0x24)] + Rows(fb, EPD_HEIGHT)
    + DisplayOnPartialTrace() + [WaitReady]
  }

  function SleepTrace(): seq<Event>
  {
    [Cmd(0x10), Data([0x01])]
  }

  // ---------------------------------------------------------------------
  // What a trace tells the controller: each opcode with the payload bytes
  // that follow it up to the next opcode.

  datatype Transaction = Tx(op: byte, payload: seq<byte>)

  /** The payload bytes at the front of a trace, up to its first command. */
  function LeadingData(t: seq<Event>): (d: seq<byte>)
  {
    if t == [] then []
    else match t[0]
      case Cmd(_) => []
      case Data(bytes) => bytes + LeadingData(t[1..])
      case _ => LeadingData(t[1..])
  }

  /** The commands of a trace, each with its payload. */
  function Transactions(t: seq<Event>): (r: seq<Transaction>)
  {
    if t == [] then []
    else match t[0]
      case Cmd(op) => [Tx(op, LeadingData(t[1..]))] + Transactions(t[1..])
      case _ => Transactions(t[1..])
  }

  ghost predicate NoCommands(t: seq<Event>)
  {
    forall i :: 0 <= i < |t| ==> !t[i].Cmd?
  }

  /** The number of full-row data writes in a trace. */
  function RowWrites(t: seq<Event>): (n: nat)
  {
    if t == [] then 0
    else (if t[0].Data? && |t[0].bytes| == BWIDTH then 1 else 0) + RowWrites(t[1..])
  }

  lemma {:induction false} LeadingDataConcat(a: seq<Event>, b: seq<Event>)
    ensures LeadingData(a + b) == LeadingData(a) + (if NoCommands(a) then LeadingData(b) else [])
  {
    if a == [] {
      assert a + b == b;
    } else {
      assert (a + b)[0] == a[0] && (a + b)[1..] == a[1..] + b;
      LeadingDataConcat(a[1..], b);
      assert NoCommands(a) <==> !a[0].Cmd? && NoCommands(a[1..]) by {
        if !a[0].Cmd? && NoCommands(a[1..]) {
          forall i | 0 <= i < |a| ensures !a[i].Cmd? {
            if i > 0 { assert a[i] == a[1..][i - 1]; }
          }
        }
      }
    }
  }

  /** One unfolding of `Transactions` and `LeadingData`. */
  lemma TransactionsStep(t: seq<Event>)
    requires t != []
    ensures Transactions(t) == (match t[0]
      case Cmd(op) => [Tx(op, LeadingData(t[1..]))] + Transactions(t[1..])
      case _ => Transactions(t[1..]))
    ensures LeadingData(t) == (match t[0]
      case Cmd(_) => []
      case Data(bytes) => bytes + LeadingData(t[1..])
      case _ => LeadingData(t[1..]))
  {
  }

  lemma {:induction false} TransactionsConcat(a: seq<Event>, b: seq<Event>)
    requires LeadingData(b) == []
    ensures Transactions(a + b) == Transactions(a) + Transactions(b)
  {
    if a == [] {
      assert a + b == b;
    } else {
      var ab := a + b;
      assert ab[0] == a[0] && ab[1..] == a[1..] + b;
      TransactionsConcat(a[1..], b);
      if a[0].Cmd? {
        var head := [Tx(a[0].op, LeadingData(a[1..]))];
        assert Transactions(ab) == head + Transactions(ab[1..]) by {
          TransactionsStep(ab);
          assert LeadingData(ab[1..]) == LeadingData(a[1..]) by {
            LeadingDataConcat(a[1..], b);
          }
        }
        assert Transactions(a) == head + Transactions(a[1..]) by {
          TransactionsStep(a);
        }
      } else {
        assert Transactions(ab) == Transactions(ab[1..]) by {
          TransactionsStep(ab);
        }
        assert Transactions(a) == Transactions(a[1..]) by {
          TransactionsStep(a);
        }
      }
    }
  }

  lemma {:induction false} TransactionsOfData(t: seq<Event>)
    requires NoCommands(t)
    ensures Transactions(t) == []
  {
    if t != [] {
      assert NoCommands(t[1..]) by {
        forall i | 0 <= i < |t[1..]| ensures !t[1..][i].Cmd? { assert t[1..][i] == t[i + 1]; }
      }
      TransactionsOfData(t[1..]);
    }
  }

  /** A command followed by data writes is one transaction. */
  lemma CommandWithData(op: byte, ds: seq<Event>, rest: seq<Event>)
    requires NoCommands(ds) && LeadingData(rest) == []
    ensures Transactions([Cmd(op)] + ds + rest) == [Tx(op, LeadingData(ds))] + Transactions(rest)
  {
    var t := [Cmd(op)] + ds + rest;
    assert t[0] == Cmd(op) && t[1..] == ds + rest;
    TransactionsStep(t);
    LeadingDataConcat(ds, rest);
    assert LeadingData(ds + rest) == LeadingData(ds);
    TransactionsConcat(ds, rest);
    TransactionsOfData(ds);
    assert Transactions(ds + rest) == Transactions(rest);
  }

  lemma {:induction false} RowWritesConcat(a: seq<Event>, b: seq<Event>)
    ensures RowWrites(a + b) == RowWrites(a) + RowWrites(b)
  {
    if a == [] {
      assert a + b == b;
    } else {
      assert (a + b)[0] == a[0] && (a + b)[1..] == a[1..] + b;
      RowWritesConcat(a[1..], b);
    }
  }

  /** The row writes carry no command, and together they carry the first k
      rows of the frame buffer, inverted, in order. */
  lemma {:induction false} RowsPayload(fb: seq<byte>, k: nat)
    requires |fb| == BUFFER_SIZE && k <= EPD_HEIGHT
    ensures NoCommands(Rows(fb, k))
    ensures LeadingData(Rows(fb, k)) == Invert(fb[..k * BWIDTH])
    ensures RowWrites(Rows(fb, k)) == k
  {
    assert BWIDTH == 50;
    if k == 0 {
      assert fb[..0] == [];
    } else {
      RowsPayload(fb, k - 1);
      RowsNext(fb, k - 1);
      var last := [Data(Row(fb, k - 1))];
      LeadingDataConcat(Rows(fb, k - 1), last);
      RowWritesConcat(Rows(fb, k - 1), last);
      assert LeadingData(last) == Row(fb, k - 1) by {
        assert last[1..] == [];
      }
      assert RowWrites(last) == 1 by {
        assert last[1..] == [];
      }
      assert fb[..k * BWIDTH] == fb[..(k - 1) * BWIDTH] + fb[(k - 1) * BWIDTH .. (k - 1) * BWIDTH + BWIDTH];
      InvertAppend(fb[..(k - 1) * BWIDTH], fb[(k - 1) * BWIDTH .. (k - 1) * BWIDTH + BWIDTH]);
    }
  }

  /** Blank rows are the rows of an all-zero frame buffer. */
  lemma BlankRowsAreZeroBufferRows(k: nat)
    requires k <= EPD_HEIGHT
    ensures BlankRows(k) == Rows(seq(BUFFER_SIZE, _ => 0), k)
  {
    assert BWIDTH == 50 && BUFFER_SIZE == 15000;
    var zeros: seq<byte> := seq(BUFFER_SIZE, _ => 0);
    forall i | 0 <= i < k ensures Row(zeros, i) == BlankRow() {
      var r := Row(zeros, i);
      forall j | 0 <= j < BWIDTH ensures r[j] == 0xFF {
        assert r[j] == zeros[i * BWIDTH + j] ^ 0xFF;
      }
    }
  }

  /** Activation: 0x22 with 0xF7 then 0x20 for a full refresh, 0x22 with
      0xFF then 0x20 for a partial one. */
  lemma ActivationTransactions(b: byte)
    ensures Transactions([Cmd(0x22), Data([b]), Cmd(0x20), WaitReady]) == [Tx(0x22, [b]), Tx(0x20, [])]
    ensures LeadingData([Cmd(0x22), Data([b]), Cmd(0x20), WaitReady]) == []
  {
    var t := [Cmd(0x22), Data([b]), Cmd(0x20), WaitReady];
    TransactionsStep(t);
    TransactionsStep(t[1..]);
    TransactionsStep(t[2..]);
    TransactionsStep(t[3..]);
    assert t[3..][1..] == [];
    assert LeadingData(t[1..]) == [b];
  }

  // ---------------------------------------------------------------------
  // The meaning of the refresh traces

  /** A full refresh writes the whole frame buffer, inverted, to the "new
      image" register (0x24) and again to the "old image" register (0x26),
      then activates with 0x22/0xF7, 0x20. */
  lemma FullShowTransactions(fb: seq<byte>)
    requires |fb| == BUFFER_SIZE
    ensures Transactions(FullShowTrace(fb))
         == [Tx(0x24, Invert(fb)), Tx(0x26, Invert(fb)), Tx(0x22, [0xF7]), Tx(0x20, [])]
  {
    var r := Rows(fb, EPD_HEIGHT);
    RowsPayload(fb, EPD_HEIGHT);
    assert fb[..EPD_HEIGHT * BWIDTH] == fb;
    var tail := DisplayOnTrace() + [WaitReady];
    assert tail == [Cmd(0x22), Data([0xF7]), Cmd(0x20), WaitReady];
    ActivationTransactions(0xF7);
    var rest := [Cmd(0x26)] + r + tail;
    TransactionsStep(rest);
    assert FullShowTrace(fb) == [Cmd(0x24)] + r + rest;
    CommandWithData(0x24, r, rest);
    CommandWithData(0x26, r, tail);
  }

  /** A partial refresh, after its set-up, writes the frame buffer, inverted,
      to the "new image" register only, then activates with 0x22/0xFF, 0x20. */
  lemma PartialShowTransactions(fb: seq<byte>)
    requires |fb| == BUFFER_SIZE
    ensures Transactions(PartialShowTrace(fb))
         == Transactions(PartialSetupTrace()) + [Tx(0x24, Invert(fb)), Tx(0x22, [0xFF]), Tx(0x20, [])]
  {
    var r := Rows(fb, EPD_HEIGHT);
    RowsPayload(fb, EPD_HEIGHT);
    assert fb[..EPD_HEIGHT * BWIDTH] == fb;
    var tail := DisplayOnPartialTrace() + [WaitReady];
    assert tail == [Cmd(0x22), Data([0xFF]), Cmd(0x20), WaitReady];
    ActivationTransactions(0xFF);
    var image := [Cmd(0x24)] + r + tail;
    TransactionsStep(image);
    assert PartialShowTrace(fb) == PartialSetupTrace() + image;
    TransactionsConcat(PartialSetupTrace(), image);
    CommandWithData(0x24, r, tail);
  }

  /** The old-image register 0x26 is written by a full refresh and never by a
      partial one. */
  lemma PartialNeverWritesOldImage(fb: seq<byte>)
    requires |fb| == BUFFER_SIZE
    ensures Cmd(0x26) in FullShowTrace(fb)
    ensures Cmd(0x26) !in PartialShowTrace(fb)
  {
    var r := Rows(fb, EPD_HEIGHT);
    RowsPayload(fb, EPD_HEIGHT);
    assert FullShowTrace(fb)[EPD_HEIGHT + 1] == Cmd(0x26);
    assert Cmd(0x26) !in r by {
      forall i | 0 <= i < |r| ensures r[i] != Cmd(0x26) {
        assert !r[i].Cmd?;
      }
    }
  }

  /** Position by position: a full refresh sends 0x24, exactly EPD_HEIGHT
      inverted rows in order, 0x26, the same rows again, then activation. */
  lemma FullShowLayout(fb: seq<byte>)
    requires |fb| == BUFFER_SIZE
    ensures |FullShowTrace(fb)| == 2 * EPD_HEIGHT + 6
    ensures FullShowTrace(fb)[0] == Cmd(0x24) && FullShowTrace(fb)[EPD_HEIGHT + 1] == Cmd(0x26)
    ensures forall i :: 0 <= i < EPD_HEIGHT ==>
      FullShowTrace(fb)[1 + i] == Data(Row(fb, i)) && FullShowTrace(fb)[EPD_HEIGHT + 2 + i] == Data(Row(fb, i))
    ensures FullShowTrace(fb)[2 * EPD_HEIGHT + 2..] == DisplayOnTrace() + [WaitReady]
    ensures RowWrites(FullShowTrace(fb)) == 2 * EPD_HEIGHT
  {
    var r := Rows(fb, EPD_HEIGHT);
    RowsPayload(fb, EPD_HEIGHT);
    assert FullShowTrace(fb) == ([Cmd(0x24)] + r + [Cmd(0x26)] + r) + (DisplayOnTrace() + [WaitReady]);
    RowWritesConcat([Cmd(0x24)] + r + [Cmd(0x26)] + r, DisplayOnTrace() + [WaitReady]);
    RowWritesConcat([Cmd(0x24)] + r + [Cmd(0x26)], r);
    RowWritesConcat([Cmd(0x24)] + r, [Cmd(0x26)]);
    RowWritesConcat([Cmd(0x24)], r);
    RowWritesStep([Cmd(0x24)]);
    RowWritesStep([Cmd(0x26)]);
    assert [Cmd(0x24)][1..] == [] && [Cmd(0x26)][1..] == [];
    assert DisplayOnTrace() + [WaitReady] == [Cmd(0x22), Data([0xF7]), Cmd(0x20), WaitReady];
    ActivationRowWrites(0xF7);
  }

  /** Position by position: a partial refresh sends its set-up, 0x24, exactly
      EPD_HEIGHT inverted rows in order, then activation. */
  lemma PartialShowLayout(fb: seq<byte>)
    requires |fb| == BUFFER_SIZE
    ensures |PartialSetupTrace()| == 25
    ensures |PartialShowTrace(fb)| == 25 + EPD_HEIGHT + 5
    ensures PartialShowTrace(fb)[..25] == PartialSetupTrace() && PartialShowTrace(fb)[25] == Cmd(0x24)
    ensures forall i :: 0 <= i < EPD_HEIGHT ==> PartialShowTrace(fb)[26 + i] == Data(Row(fb, i))
    ensures PartialShowTrace(fb)[26 + EPD_HEIGHT..] == DisplayOnPartialTrace() + [WaitReady]
  {
  }

  lemma RowWritesStep(t: seq<Event>)
    requires t != []
    ensures RowWrites(t) == (if t[0].Data? && |t[0].bytes| == BWIDTH then 1 else 0) + RowWrites(t[1..])
  {
  }

  lemma ActivationRowWrites(b: byte)
    ensures RowWrites([Cmd(0x22), Data([b]), Cmd(0x20), WaitReady]) == 0
  {
    var t := [Cmd(0x22), Data([b]), Cmd(0x20), WaitReady];
    RowWritesStep(t);
    RowWritesStep(t[1..]);
    RowWritesStep(t[2..]);
    RowWritesStep(t[3..]);
    assert t[3..][1..] == [];
  }

  /** `clear` sends what a full refresh of an all-zero frame buffer sends to
      the two image registers: 0xFF bytes, BUFFER_SIZE of them to each. */
  lemma ClearIsBlankImage()
    ensures ClearTrace() == FullShowTrace(seq(BUFFER_SIZE, _ => 0))[..2 * EPD_HEIGHT + 2]
    ensures Transactions(ClearTrace()) == [Tx(0x24, seq(BUFFER_SIZE, _ => 0xFF)), Tx(0x26, seq(BUFFER_SIZE, _ => 0xFF))]
  {
    var zeros: seq<byte> := seq(BUFFER_SIZE, _ => 0);
    BlankRowsAreZeroBufferRows(EPD_HEIGHT);
    var r := Rows(zeros, EPD_HEIGHT);
    assert ClearTrace() == [Cmd(0x24)] + r + [Cmd(0x26)] + r;
    assert FullShowTrace(zeros) == ([Cmd(0x24)] + r + [Cmd(0x26)] + r) + (DisplayOnTrace() + [WaitReady]);
    RowsPayload(zeros, EPD_HEIGHT);
    assert zeros[..EPD_HEIGHT * BWIDTH] == zeros;
    assert Invert(zeros) == seq(BUFFER_SIZE, _ => 0xFF);
    var rest := [Cmd(0x26)] + r;
    TransactionsStep(rest);
    assert ClearTrace() == [Cmd(0x24)] + r + rest;
    CommandWithData(0x24, r, rest);
    assert rest == [Cmd(0x26)] + r + [];
    CommandWithData(0x26, r, []);
  }
}
