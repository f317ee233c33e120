# gps-clock in Dafny

A model of the core of gps-clock, a MicroPython clock for the Raspberry Pi
Pico. It shows a clock face on a Waveshare 4.2 inch V2 e-paper panel and sets
its real-time clock from a GPS receiver on I2C. The model covers:

- **The e-paper driver** (`drivers/epaper/pico_epaper_42_v2.py`), in files
  `epd_bus.dfy`, `epd_protocol.dfy` and `epd.dfy`.
  - The `EPD` class has its frame buffer, its `_line` scratch row, the
    `busy` and `partial` flags, and the trace of everything sent to the panel.
  - Every method is proved to append exactly the bus trace that
    `EpdProtocol` specifies for it.
  - Lemmas then state what those traces mean for the controller:
    - which register gets which bytes;
    - how many rows are sent;
    - that a partial refresh never writes the old-image register;
    - that `clear` sends the image of an all-zero frame buffer.
  - `EpdBus` gives the line-level framing (DC, CS, reset line, busy polling)
    and proves that it can be decoded back into the event trace.
- **The clock logic of `main.py`** (`clock.dfy`):
  - Zeller's weekday computation, proved against an independent Gregorian
    calendar: the day after any date is the next weekday, and 22 May 2024 is
    3, so 0 is Sunday;
  - the year `int(f"20{yy}")`;
  - the test that decides whether a GPS reading sets the clock, on start-up and in the periodic
    update;
  - the start-up loop;
  - the full/partial refresh rule;
  - the capability check on the display.
- **The GPS reader** (`mgps/micro_gps.py`, `gps.dfy`):
  - the chunked read of the receiver's 255-byte buffer;
  - splitting and reassembling NMEA sentences;
  - the update of the class-wide table of the latest fix.
- **The I2C wrapper** (`mgps/micro_i2c.py`, `i2c.dfy`):
  - the little-endian codec of `readWord`, `writeWord`, `writeByte` and
    `writeCommand`, with its overflow errors;
  - the read-only `i2cbus` attribute and its lazy connection;
  - the class-level `scan`.

Bytes are `bv8`. Python's `//` and `%` appear only with positive constant
divisors, where they agree with Dafny's `/` and `%`.

Behaviour of the code that the model makes explicit:

- **Construction keeps the requested mode.** The constructor runs `init`, and
  `init` calls `set_full(update_partial=False, ...)`. A driver built with
  `partial=True` therefore stays in partial mode: the mode after construction
  is the one requested, not always full.
- **Only a full refresh sets `busy`.** `_show_full` sets `busy` before it
  sends the first image and clears it before it turns the display on; a
  partial refresh never touches it. The cooperative path is never taken
  (`asyncio_running()` returns false). An exception raised between setting
  and clearing the flag (drivers/epaper/pico_epaper_42_v2.py:222-239, for
  example a failing SPI write) would leave `busy` set for good, and every
  later `show` would then fail with the busy error. `Epd.EPD.Show` models
  both of its branches.
- **The year field.** The year is "20" followed by the digits of the field. A
  one-digit field gives a three-digit year (a field of 5 gives 205). A
  negative field raises `ValueError`, which the program treats like an
  invalid reading.
- **The date check is a range check.** It accepts dates such as 31 February.
- **`get_raw_data` repeats text.** After every read it appends everything read
  so far, not just the new chunk. A full read of 255 bytes therefore yields
  1151 characters, and the first chunk appears eight times.

## Model

| member | source | states |
|---|---|---|
| EpdBus.FramingShape | drivers/epaper/pico_epaper_42_v2.py:117-129 | a command is one single-byte write with DC low between CS low and CS high; a data write is the same with DC high |
| EpdBus.DecodeFrame | drivers/epaper/pico_epaper_42_v2.py:112-129 | decoding the framing of one event followed by any line activity yields that event first |
| EpdBus.WireRoundTrip | drivers/epaper/pico_epaper_42_v2.py:112-129 | the line activity of any event trace decodes to exactly that trace, so the event trace loses nothing on the wire |
| EpdBus.WireAppend | drivers/epaper/pico_epaper_42_v2.py:117-129 | the line activity of two traces in sequence is the activity of the first followed by that of the second |
| EpdProtocol.InvertInvolutive | drivers/epaper/pico_epaper_42_v2.py:194 | flipping every bit twice gives the bytes back |
| EpdProtocol.InvertAppend | drivers/epaper/pico_epaper_42_v2.py:193-194 | inverting a concatenation inverts each part |
| EpdProtocol.RowRoundTrip | drivers/epaper/pico_epaper_42_v2.py:190-195 | the bytes sent for row n are 50 long, and inverting them gives row n of the frame buffer |
| EpdProtocol.RowsNext | drivers/epaper/pico_epaper_42_v2.py:234-235 | the row writes of rows 0..k are those of rows 0..k-1 followed by row k |
| EpdProtocol.BlankRowsNext | drivers/epaper/pico_epaper_42_v2.py:151-152 | `clear`'s blank rows grow by one blank row per step |
| EpdProtocol.LeadingDataConcat | drivers/epaper/pico_epaper_42_v2.py:117-129 | the payload at the front of a concatenation is the first part's payload, continued by the second's only when the first has no command |
| EpdProtocol.TransactionsConcat | drivers/epaper/pico_epaper_42_v2.py:117-129 | when the second trace begins with a command, grouping a concatenation groups each part |
| EpdProtocol.TransactionsOfData | drivers/epaper/pico_epaper_42_v2.py:125-129 | a trace of data writes only holds no command |
| EpdProtocol.CommandWithData | drivers/epaper/pico_epaper_42_v2.py:117-129 | a command followed by data writes is one command whose payload is all those bytes |
| EpdProtocol.RowWritesConcat | drivers/epaper/pico_epaper_42_v2.py:190-195 | the number of row writes of a concatenation is the sum of the parts' |
| EpdProtocol.RowsPayload | drivers/epaper/pico_epaper_42_v2.py:190-195 | the first k row writes hold no command, exactly k rows, and together carry the first k rows of the frame buffer inverted, in order |
| EpdProtocol.BlankRowsAreZeroBufferRows | drivers/epaper/pico_epaper_42_v2.py:149-155 | `clear`'s 0xFF rows are the rows an all-zero frame buffer is sent as |
| EpdProtocol.ActivationTransactions | drivers/epaper/pico_epaper_42_v2.py:131-139 | activation is 0x22 with one byte (0xF7 full, 0xFF partial) then 0x20 with no payload |
| EpdProtocol.FullShowTransactions | drivers/epaper/pico_epaper_42_v2.py:221-248 | a full refresh writes the whole inverted frame buffer to 0x24, again to 0x26, then activates with 0x22/0xF7 and 0x20 |
| EpdProtocol.PartialShowTransactions | drivers/epaper/pico_epaper_42_v2.py:251-288 | after its set-up, a partial refresh writes the inverted frame buffer to 0x24 only, then activates with 0x22/0xFF and 0x20 |
| EpdProtocol.PartialNeverWritesOldImage | drivers/epaper/pico_epaper_42_v2.py:233-275 | the old-image command 0x26 is in every full refresh and in no partial refresh |
| EpdProtocol.FullShowLayout | drivers/epaper/pico_epaper_42_v2.py:233-248 | position by position: 0x24, the 300 inverted rows in order, 0x26, the same rows, activation; 600 row writes |
| EpdProtocol.PartialShowLayout | drivers/epaper/pico_epaper_42_v2.py:251-288 | position by position: the 25-event set-up, 0x24, the 300 inverted rows in order, partial activation |
| EpdProtocol.ActivationRowWrites | drivers/epaper/pico_epaper_42_v2.py:131-139 | activation sends no row |
| EpdProtocol.ClearIsBlankImage | drivers/epaper/pico_epaper_42_v2.py:149-155 | `clear` sends what a full refresh of an all-zero frame buffer sends to both image registers: 15000 bytes of 0xFF to each |
| EpdProtocol.WindowCoversPanel | drivers/epaper/pico_epaper_42_v2.py:300-317 | the window runs from x byte 0 to BWIDTH - 1 (0x31) and from line 0 to EPD_HEIGHT - 1 (299, sent low byte first as 0x2B, 0x01); the cursor is set to x byte 0, line 0, the window's first position |
| Epd.EPD.Rgb | drivers/epaper/pico_epaper_42_v2.py:74-75 | the colour is 1 exactly when some channel is above 127, else 0 |
| Epd.EPD.constructor | drivers/epaper/pico_epaper_42_v2.py:77-109 | a zeroed 15000-byte frame buffer, not busy, the requested mode, and the initialisation trace sent |
| Epd.EPD.Reset | drivers/epaper/pico_epaper_42_v2.py:112-115 | appends one reset pulse to the trace |
| Epd.EPD.SendCommand | drivers/epaper/pico_epaper_42_v2.py:117-123 | appends one command to the trace, followed by one data write of the payload when one is given and nothing else otherwise |
| Epd.EPD.SendData | drivers/epaper/pico_epaper_42_v2.py:125-129 | appends one data write to the trace |
| Epd.EPD.Ready | drivers/epaper/pico_epaper_42_v2.py:187-188 | ready exactly when no refresh is in flight and the busy pin is not 1 |
| Epd.EPD.WaitUntilReady | drivers/epaper/pico_epaper_42_v2.py:290-292 | appends one wait for the panel |
| Epd.EPD.DisplayOn | drivers/epaper/pico_epaper_42_v2.py:131-134 | appends 0x22, 0xF7, 0x20 |
| Epd.EPD.DisplayOnPartial | drivers/epaper/pico_epaper_42_v2.py:136-139 | appends 0x22, 0xFF, 0x20 |
| Epd.EPD.SetWindow | drivers/epaper/pico_epaper_42_v2.py:300-309 | appends the window x 0..0x31, y 0..0x012B |
| Epd.EPD.SetCursor | drivers/epaper/pico_epaper_42_v2.py:311-317 | appends the cursor (0, 0) |
| Epd.EPD.Init | drivers/epaper/pico_epaper_42_v2.py:141-147 | forced full set-up, blank image, activation; the mode flag is unchanged |
| Epd.EPD.Clear | drivers/epaper/pico_epaper_42_v2.py:149-155 | appends 0x24 with 300 blank rows, then 0x26 with 300 blank rows |
| Epd.EPD.SetFull | drivers/epaper/pico_epaper_42_v2.py:157-181 | re-initialises exactly when in partial mode or forced; the mode becomes full only when `update_partial` is set |
| Epd.EPD.FullConfig | drivers/epaper/pico_epaper_42_v2.py:166-174 | appends update control 0x40 0x00, border waveform 0x05, data entry mode 0x03 |
| Epd.EPD.SetPartial | drivers/epaper/pico_epaper_42_v2.py:183-185 | the mode becomes partial, nothing is sent |
| Epd.EPD.Line | drivers/epaper/pico_epaper_42_v2.py:190-195 | the scratch row holds row n inverted and exactly that is sent; the frame buffer is not changed |
| Epd.EPD.Show | drivers/epaper/pico_epaper_42_v2.py:211-219 | busy: the busy error, nothing sent, still busy, scratch row unchanged; otherwise the full or partial refresh trace of the current frame buffer, by mode, ending not busy, mode unchanged |
| Epd.EPD.ShowFull | drivers/epaper/pico_epaper_42_v2.py:221-248 | appends the full refresh trace and ends not busy |
| Epd.EPD.ShowPartial | drivers/epaper/pico_epaper_42_v2.py:251-288 | appends the partial refresh trace |
| Epd.EPD.SendImage | drivers/epaper/pico_epaper_42_v2.py:233-238 | appends one image register command, then every row of the frame buffer, inverted, in order |
| Epd.EPD.PartialSetup | drivers/epaper/pico_epaper_42_v2.py:252-271 | appends reset, wait, the partial register writes, window, cursor, wait |
| Epd.EPD.PartialConfig | drivers/epaper/pico_epaper_42_v2.py:255-266 | appends border 0x80, update control 0x00 0x00, border 0x80, data entry mode 0x03 |
| Epd.EPD.Sleep | drivers/epaper/pico_epaper_42_v2.py:295-297 | appends deep sleep 0x10 with 0x01 |
| Clock.Weekday | main.py:161-171 | the weekday is between 0 and 6 |
| Clock.Renumber | main.py:171 | the renumbered weekday is between 0 and 6 |
| Clock.WeekdayEarlyMonths | main.py:164-166 | January and February count as months 13 and 14 of the previous year |
| Clock.WeekdayNextDay | main.py:161-171 | within a month, the next day is the next weekday |
| Clock.YearTermsStep | main.py:167-170 | from one year to the next the year terms grow by one, plus one into a leap year, except at a century where they fall by 118 |
| Clock.WeekdayIntoMarch | main.py:161-171 | 1 March follows the last day of February by one weekday, in leap and common years |
| Clock.WeekdayIntoMonth | main.py:161-171 | the first of a month follows the last day of the month before by one weekday |
| Clock.WeekdayIntoJanuary | main.py:161-171 | 1 January follows 31 December by one weekday |
| Clock.WeekdaySuccessor | main.py:161-171 | for every calendar date, the computed weekday of the next day is the next weekday |
| Clock.KnownWednesday | main.py:161-171 | 22 May 2024, a Wednesday, gets 3, so the numbering is 0 for Sunday to 6 for Saturday |
| Clock.WeekdayAddDays | main.py:161-171 | n days on from any date, the weekday has moved on by n modulo 7 |
| Clock.WeekdayCountsDays | main.py:161-171 | every date n days after 22 May 2024 gets weekday (3 + n) mod 7 |
| Clock.NatString | main.py:82 | `str` of a non-negative number is a non-empty string of digits |
| Clock.IntString | main.py:82 | `str` of an integer starts with '-' exactly when it is negative |
| Clock.ParseInt | main.py:82 | `int` of a string succeeds exactly for digits with an optional sign |
| Clock.NatStringValue | main.py:82 | reading the digits of a number back gives the number |
| Clock.DigitsValueAppend | main.py:82 | the value of a concatenation of digit strings is the first scaled by 10 to the length of the second, plus the second |
| Clock.YearFromField | main.py:82 | the year fails exactly for a negative field; otherwise it is 20 followed by the field's digits, 20 · 10^(number of digits) + yy |
| Clock.YearFromFieldValue | main.py:82 | a two-digit field gives 2000 + yy and a one-digit field 200 + yy |
| Clock.SettingOf | main.py:102 | the clock gets the year, month, day, the computed weekday, hour, minute, second and 0 sub-seconds |
| Clock.InRange | main.py:90-94 | every calendar date, whatever its year, with a time of day passes the range check |
| Clock.InitialAttempt | main.py:74-110 | no fix exactly when the read failed or the time or date is all zero; accepted exactly when the year parses and every field is in range, with that setting |
| Clock.PeriodicUpdate | main.py:120-156 | the clock changes only for a usable fix whose year parses and whose fields are in range |
| Clock.UpdateAgreesWithStartUp | main.py:80-153 | the periodic update accepts the same readings as start-up and sets the same value; otherwise the clock keeps its setting |
| Clock.AcceptsFebruaryThirtyFirst | main.py:90-94 | the range check accepts 31 February 2024, which is not a calendar date |
| Clock.GpsInitialize | main.py:61-111 | stops at the first accepted reading and sets the clock from it; when none is accepted, every reading was consumed and the clock is unset |
| Clock.RefreshFor | main.py:210 | the refresh is full exactly in minute 30 |
| Clock.ChooseRefresh | main.py:210-214 | the mode is partial exactly when the minute asks for partial; re-initialisation only when going from partial to full; then a wait |
| Clock.CheckDisplay | main.py:40-42 | the check fails, with its message, exactly for an e-paper display without `set_partial`; otherwise it reports whether the display is e-paper |
| Clock.DriverPassesCheck | main.py:40-42 | the modelled driver passes the check as an e-paper display |
| MicroI2c.FromLittleEndian | mgps/micro_i2c.py:62-68 | the value of n bytes is below 256 to the n |
| MicroI2c.ToBytes | mgps/micro_i2c.py:62-68 | `to_bytes(n, 'little')` succeeds exactly for 0 <= value < 256^n, giving n bytes whose little-endian value is the value; otherwise `OverflowError` |
| MicroI2c.ToBytesOfValue | mgps/micro_i2c.py:62-68 | encoding the little-endian value of any bytes at their length gives those bytes back |
| MicroI2c.ShiftOr | mgps/micro_i2c.py:52 | shifting the high byte up by 8 and or-ing the low byte adds them |
| MicroI2c.DecodeWord | mgps/micro_i2c.py:50-52 | `readWord`'s value is the two bytes read as a little-endian number, between 0 and 65535 |
| MicroI2c.WordRoundTrip | mgps/micro_i2c.py:64-65 | `writeWord` sends the low byte first, and decoding what it sends gives the value back |
| MicroI2c.ByteEncoding | mgps/micro_i2c.py:61-68 | a one-byte encoding succeeds exactly for 0..255 and is that single byte |
| MicroI2c.I2cClass.constructor | mgps/micro_i2c.py:14 | the class attribute holds the connection made when the class is created |
| MicroI2c.I2cClass.Scan | mgps/micro_i2c.py:74-84 | connects the class attribute only when it is `None`; returns the bus's devices, or nothing when there is still no bus |
| MicroI2c.MicroPythonI2C.constructor | mgps/micro_i2c.py:16-17 | a new wrapper on the class, with no instance attribute and no traffic |
| MicroI2c.MicroPythonI2C.BusAttribute | mgps/micro_i2c.py:30-32 | `self._i2cbus` is the instance attribute when there is one, otherwise the class attribute |
| MicroI2c.MicroPythonI2C.SetAttr | mgps/micro_i2c.py:44-47 | assigning `i2cbus` changes nothing; any other name is stored on the instance |
| MicroI2c.MicroPythonI2C.I2cBus | mgps/micro_i2c.py:29-32 | connects only when `_i2cbus` is `None`, storing the result on the instance and never on the class, and returns `_i2cbus` |
| MicroI2c.MicroPythonI2C.GetAttr | mgps/micro_i2c.py:28-36 | `i2cbus` gives the lazily connected bus; any other missing name raises `AttributeError` and changes nothing |
| MicroI2c.MicroPythonI2C.ReadWord | mgps/micro_i2c.py:50-52 | without a bus: `AttributeError` and no traffic; with one: one two-byte read and the little-endian value of the reply |
| MicroI2c.MicroPythonI2C.Write | mgps/micro_i2c.py:61-68 | a missing bus is reported before an overflow; a value that fits is sent as one transfer of its encoding |
| MicroI2c.MicroPythonI2C.WriteCommand | mgps/micro_i2c.py:61-62 | without a bus `AttributeError`; a code 0..255 is written as that one byte; any other raises `OverflowError` with nothing sent |
| MicroI2c.MicroPythonI2C.WriteWord | mgps/micro_i2c.py:64-65 | without a bus `AttributeError`; 0..65535 is written to the register low byte first; any other raises `OverflowError` with nothing sent |
| MicroI2c.MicroPythonI2C.WriteByte | mgps/micro_i2c.py:67-68 | without a bus `AttributeError`; 0..255 is written to the register as one byte; any other raises `OverflowError` with nothing sent |
| MicroGps.Tracker | mgps/micro_gps.py:30-40 | the buffer counter reaches 0 exactly after the eighth read |
| MicroGps.ReceivedCount | mgps/micro_gps.py:30-40 | bytes received plus bytes left is always 255 |
| MicroGps.ScheduleDrainsBuffer | mgps/micro_gps.py:32-40 | the counter is never exactly 32, where the loop would make no progress; each read asks for 32 or the remainder, and the counter drops by it |
| MicroGps.ReceivedLength | mgps/micro_gps.py:34-39 | after n reads, the bytes received number 32 n, or 255 after the last |
| MicroGps.RawTextLength | mgps/micro_gps.py:43-44 | after n < 8 passes the text has 16 n (n + 1) characters; after all eight, 1151 |
| MicroGps.FullReadText | mgps/micro_gps.py:28-45 | a full read is 1151 characters; the last 255 are the bytes received, in order; the first 32 are the first chunk |
| MicroGps.PrefixOfRawText | mgps/micro_gps.py:43-44 | the text after m passes is a prefix of the text after any later pass |
| MicroGps.RawDataText | mgps/micro_gps.py:28-45 | no text exactly when the first byte is a newline; otherwise 1151 characters ending with the 255 bytes received, in order |
| MicroGps.Split | mgps/micro_gps.py:50 | splitting yields at least one piece |
| MicroGps.SplitJoin | mgps/micro_gps.py:50 | no piece contains the newline, and joining the pieces with it gives the text back |
| MicroGps.NonEmpty | mgps/micro_gps.py:51-53 | the kept pieces are no more than the pieces and none is empty; NonEmptyAppend and NonEmptySingle fix the result exactly |
| MicroGps.NonEmptyKeepsText | mgps/micro_gps.py:51-53 | dropping the empty pieces loses no character |
| MicroGps.NonEmptyAppend | mgps/micro_gps.py:51-53 | filtering a concatenation filters each part and concatenates the results |
| MicroGps.NonEmptySingle | mgps/micro_gps.py:51-53 | one piece is kept exactly when it is not empty |
| MicroGps.NonEmptyMembers | mgps/micro_gps.py:51-53 | a string is kept exactly when it is one of the pieces and is not empty |
| MicroGps.Reassembled | mgps/micro_gps.py:54-59 | one output sentence per cleaned piece |
| MicroGps.ReassembledShape | mgps/micro_gps.py:54-59 | each sentence is non-empty and ends with its piece; a piece after the first that does not start with `$` is joined to the one before, any other is kept as is |
| MicroGps.NoSentencesAfterNewline | mgps/micro_gps.py:46-60 | a read whose first byte is a newline yields no sentence |
| MicroGps.Sentences | mgps/micro_gps.py:46-60 | no more sentences than newline-separated pieces of the read text, none empty and none containing a newline |
| MicroGps.GnssTable.constructor | mgps/micro_gps.py:7-20 | the table starts with its twelve keys at 0 or "" |
| MicroGps.FieldsCoverTable | mgps/micro_gps.py:63-74 | the twelve assignments set twelve distinct keys, which are exactly the table's keys |
| MicroGps.Present | mgps/micro_gps.py:62-78 | the assignments made are those before the first missing attribute |
| MicroGps.ApplyMeaning | mgps/micro_gps.py:63-74 | after the first n assignments those keys hold the sentence's attributes and every other key is unchanged |
| MicroGps.GPS.constructor | mgps/micro_gps.py:23-25 | a new I2C wrapper, device address 0x10 |
| MicroGps.GPS.GetRawData | mgps/micro_gps.py:28-45 | reads 32 bytes and stops with no text when the first byte is a newline; otherwise makes the eight reads (7 × 32 and 31) and returns the text of all eight passes |
| MicroGps.GPS.AppendChars | mgps/micro_gps.py:43-44 | the text gains `chr` of every byte, in order |
| MicroGps.GPS.PrepareData | mgps/micro_gps.py:46-60 | the sentences are the read text split at newlines, without empty pieces, with broken sentences joined; none after a leading newline |
| MicroGps.GPS.CleanPieces | mgps/micro_gps.py:51-53 | keeps exactly the non-empty pieces in order |
| MicroGps.GPS.JoinBroken | mgps/micro_gps.py:54-59 | yields exactly the reassembled sentences |
| MicroGps.GPS.AddToGnssMessages | mgps/micro_gps.py:61-79 | answers true; the table gets the assignments up to the first missing attribute and nothing else |
| MicroGps.PresentStops | mgps/micro_gps.py:62-78 | once an attribute is missing no later assignment is made |
| MicroGps.PresentAll | mgps/micro_gps.py:63-74 | with every attribute present all twelve assignments are made |
| MicroGps.CompleteSentence | mgps/micro_gps.py:63-74 | a complete sentence sets all twelve entries to its values and the table keeps exactly its keys |
| MicroGps.PartialSentence | mgps/micro_gps.py:62-78 | with an attribute missing the entries before it are updated and the later ones keep their values |

## Left out

- The cooperative refresh `_as_show_full` (pico_epaper_42_v2.py:197-209), its `asyncio` events and the undefined `self._updated` it uses are not modelled. `asyncio_running()` always returns false, so they are never reached.
- The 4-gray and LUT code (`EPD_LUT_ALL` and the commented-out code), the unused `_ibuf`, and the `framebuf`/`BoolPalette` drawing base are not modelled. The renderer writes into `buf` directly.
- The model has no failing SPI write or other exception inside a full refresh, so it never reaches the state where `busy` stays set for good.
- Epd.EPD.ShowFull: the contract states only that `busy` is clear on return. The model is sequential, so nothing can observe `busy` while the rows are sent, and no contract says that it is set during the transmission. The body does set it before the first image and clear it before `display_on`, as pico_epaper_42_v2.py:222 and 239 do.
- Pin objects, SPI set-up and every `time.sleep_ms` pause are not modelled. The pauses of `reset` appear only in the line framing of `EpdBus`.
- Epd.EPD.WaitUntilReady: the 100 ms polling loop is one `WaitReady` event, and the model says nothing about when the loop ends. The method requires `busy` to be clear, because with `busy` set `ready()` never holds and the loop never ends.
- Epd.EPD.Line: `_line`'s default scratch buffer belongs to the function, so every driver shares it. In the model each driver has its own `lineBuf`.
- Python's `is not ''` and `is not 0` are taken as `!=`. MicroPython interns these constants.
- The NMEA parser (`NmeaParser`, `parser.update`) and the `int(x)` conversion of its fields are not modelled. A reading is given as the converted fields, or as a failed read.
- A failing `int(x)` is not modelled either. At start-up (main.py:74-75) the conversion sits outside any `try`, so a failure there ends the program, whereas `gps_update` (main.py:119-156) catches it and waits for the next pass. The model shows neither path, so Clock.UpdateAgreesWithStartUp covers only readings whose fields convert.
- Clock.ParseInt: `int`'s acceptance of surrounding whitespace and of `_` between digits is not modelled. Its input here is always "20" followed by `str` of an integer.
- Clock.GpsInitialize: the source loops until a reading is accepted, sleeping 5 s between attempts. The model consumes a given finite sequence of readings and reports the clock unset if they run out.
- Clock.PeriodicUpdate: one pass of `gps_update`'s endless loop. The 12-hour sleep, the asyncio tasks, `clock_writer`'s rendering and all printing are left out.
- All console output is left out: `print` in `set_full`, `set_partial` and `show` (pico_epaper_42_v2.py:158, 184, 215, 218), in `gps_initialize` (main.py:65-111) and `gps_update` (main.py:117-156), `clock_writer`'s local time (main.py:209), and every `sys.print_exception`.
- `readByte`, `readBlock` and `writeBlock` are not modelled as methods. `readByte` returns the first byte of a one-byte read, `readBlock` returns the bytes of the bus read unchanged, and `writeBlock` converts its value with `bytes()` before writing it.
- `_connectToI2CBus` is a parameter: the handle a connection attempt produces, or `None`. `I2CDriver`, the base class, is not part of this model, and its initialiser is taken to store no attribute.
- MicroI2c.ToBytes: follows CPython's `int.to_bytes`, which raises `OverflowError` for a value that does not fit. Some MicroPython ports truncate instead, and that is not modelled.
- MicroI2c.MicroPythonI2C.GetAttr: requires that the name is not an instance attribute and is not `_i2cbus`. Python calls `__getattr__` only when ordinary lookup fails.
- MicroGps.GPS.GetRawData: requires each read to return exactly the bytes requested. The reads go through `readBlock` to a working bus, and the bytes are a parameter. A short or failing read is not modelled.
- MicroGps.GPS.AddToGnssMessages: the twelve assignments are written as a loop over the table `FIELDS`. A sentence is a map from attribute names to values, and a missing name stands for `AttributeError`. The `KeyError` handler cannot fire on assignment and is not modelled.
- `color_setup.py` and the other parts of `main.py` (fonts, widgets, the clock face) are not modelled.
