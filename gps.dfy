/**
 * The GPS reader (`mgps/micro_gps.py`): the chunked read of the receiver's
 * output buffer over I2C, the reassembly of NMEA sentences from the text
 * read, and the update of the class-wide table of the latest fix.
 *
 * The bytes each I2C read returns come from the receiver; here they are a
 * parameter, one chunk per read in the order the reads are made.
 */
module MicroGps {

  import opened MicroI2c

  const MAX_I2C_BUFFER := 32
  const MAX_GPS_BUFFER := 255

  /** The sizes of the reads `get_raw_data` makes when it does not stop
      early: seven full I2C buffers and the 31 bytes left of the receiver's
      255-byte buffer. */
  const SCHEDULE: seq<nat> := [32, 32, 32, 32, 32, 32, 32, 31]

  /** `buffer_tracker` after n reads of the schedule. */
  function Tracker(n: nat): (t: nat)
    requires n <= |SCHEDULE|
    ensures t == 0 <==> n == |SCHEDULE|
  {
    if n < 7 then MAX_GPS_BUFFER - MAX_I2C_BUFFER * n else if n == 7 then 31 else 0
  }

  /** The number of bytes received after n reads of the schedule. */
  function ReceivedCount(n: nat): (c: nat)
    requires n <= |SCHEDULE|
    ensures c + Tracker(n) == MAX_GPS_BUFFER
  {
    if n < 8 then MAX_I2C_BUFFER * n else MAX_GPS_BUFFER
  }

  /** The schedule drains the receiver's buffer exactly: the counter never
      sits at exactly one I2C buffer, where the read loop would spin. */
  lemma ScheduleDrainsBuffer(n: nat)
    requires n < |SCHEDULE|
    ensures Tracker(n) != MAX_I2C_BUFFER
    ensures SCHEDULE[n] == if Tracker(n) > MAX_I2C_BUFFER then MAX_I2C_BUFFER else Tracker(n)
    ensures Tracker(n + 1) == Tracker(n) - SCHEDULE[n]
  {
  }

  /** The chunks have the sizes of the reads that produce them. */
  ghost predicate WellSized(chunks: seq<seq<byte>>)
  {
    |chunks| == |SCHEDULE| && forall i :: 0 <= i < |chunks| ==> |chunks[i]| == SCHEDULE[i]
  }

  /** `raw_data` after n reads: all bytes read so far, in order. */
  function Received(chunks: seq<seq<byte>>, n: nat): seq<byte>
    requires n <= |chunks|
  {
    if n == 0 then [] else Received(chunks, n - 1) + chunks[n - 1]
  }

  /** `chr` of each byte. */
  function Chars(bs: seq<byte>): (s: string)
    ensures |s| == |bs|
  {
    seq(|bs|, i requires 0 <= i < |bs| => (bs[i] as int) as char)
  }

  /** The text after n passes of the loop: every pass appends all the bytes
      received so far, not just the new chunk. */
  function RawText(chunks: seq<seq<byte>>, n: nat): string
    requires n <= |chunks|
  {
    if n == 0 then "" else RawText(chunks, n - 1) + Chars(Received(chunks, n))
  }

  /** What `get_raw_data` returns: nothing when the first byte is a newline,
      otherwise the text of all eight passes. */
  function RawDataText(chunks: seq<seq<byte>>): (t: string)
    requires WellSized(chunks)
    ensures t == "" <==> chunks[0][0] == 0x0A
    ensures t != "" ==> |t| == 1151 && t[1151 - MAX_GPS_BUFFER..] == Chars(Received(chunks, |SCHEDULE|))
  {
    FullReadText(chunks);
    if chunks[0][0] == 0x0A then "" else RawText(chunks, |SCHEDULE|)
  }

  lemma {:induction false} ReceivedLength(chunks: seq<seq<byte>>, n: nat)
    requires WellSized(chunks) && n <= |SCHEDULE|
    ensures |Received(chunks, n)| == ReceivedCount(n)
  {
    if n > 0 {
      ReceivedLength(chunks, n - 1);
    }
  }

  /** After k passes the text holds 16 k (k + 1) characters, so a full read
      yields 1151 characters for the 255 bytes received. */
  lemma {:induction false} RawTextLength(chunks: seq<seq<byte>>, n: nat)
    requires WellSized(chunks) && n <= |SCHEDULE|
    ensures n < |SCHEDULE| ==> |RawText(chunks, n)| == 16 * n * (n + 1)
    ensures n == |SCHEDULE| ==> |RawText(chunks, n)| == 1151
  {
    if n > 0 {
      RawTextLength(chunks, n - 1);
      ReceivedLength(chunks, n);
    }
  }

  /** The last 255 characters of a full read are all the bytes received, each
      once and in order; the first 32 are the first chunk, which the text
      repeats once per pass. */
  lemma FullReadText(chunks: seq<seq<byte>>)
    requires WellSized(chunks)
    ensures |RawText(chunks, 8)| == 1151
    ensures RawText(chunks, 8)[1151 - MAX_GPS_BUFFER..] == Chars(Received(chunks, 8))
    ensures RawText(chunks, 8)[..32] == Chars(chunks[0])
  {
    RawTextLength(chunks, 8);
    RawTextLength(chunks, 7);
    assert Received(chunks, 1) == [] + chunks[0] == chunks[0];
    assert RawText(chunks, 1) == "" + Chars(Received(chunks, 1)) == Chars(chunks[0]);
    PrefixOfRawText(chunks, 1, 8);
  }

  lemma {:induction false} PrefixOfRawText(chunks: seq<seq<byte>>, m: nat, n: nat)
    requires m <= n <= |chunks|
    ensures |RawText(chunks, m)| <= |RawText(chunks, n)|
    ensures RawText(chunks, n)[..|RawText(chunks, m)|] == RawText(chunks, m)
    decreases n
  {
    if m < n {
      PrefixOfRawText(chunks, m, n - 1);
      PrefixOfAppend(RawText(chunks, n - 1), Chars(Received(chunks, n)), |RawText(chunks, m)|);
    }
  }

  lemma PrefixOfAppend(x: string, y: string, k: nat)
    requires k <= |x|
    ensures (x + y)[..k] == x[..k]
  {
  }

  // ---------------------------------------------------------------------
  // Splitting and reassembling sentences

  /** `str.split` on one separator character. */
  function Split(s: string, sep: char): (parts: seq<string>)
    ensures |parts| >= 1
    decreases |s|
  {
    if s == [] then [""]
    else
      var rest := Split(s[1..], sep);
      if s[0] == sep then [""] + rest else [[s[0]] + rest[0]] + rest[1..]
  }

  /** `sep.join`. */
  function Join(parts: seq<string>, sep: char): string
    requires |parts| >= 1
    decreases |parts|
  {
    if |parts| == 1 then parts[0] else parts[0] + [sep] + Join(parts[1..], sep)
  }

  /** No piece contains the separator, and joining the pieces gives the
      text back. */
  lemma {:induction false} SplitJoin(s: string, sep: char)
    ensures forall k :: 0 <= k < |Split(s, sep)| ==> sep !in Split(s, sep)[k]
    ensures Join(Split(s, sep), sep) == s
    decreases |s|
  {
    if s != [] {
      var rest := Split(s[1..], sep);
      SplitJoin(s[1..], sep);
      if s[0] == sep {
        assert Join([""] + rest, sep) == [sep] + Join(rest, sep) by {
          assert ([""] + rest)[1..] == rest;
        }
        assert [sep] + s[1..] == s;
      } else {
        var parts := [[s[0]] + rest[0]] + rest[1..];
        if |rest| > 1 {
          assert parts[1..] == rest[1..];
          assert Join(parts, sep) == [s[0]] + (rest[0] + [sep] + Join(rest[1..], sep));
        }
        assert [s[0]] + s[1..] == s;
        forall k | 0 <= k < |parts| ensures sep !in parts[k] {
          if k > 0 { assert parts[k] == rest[k]; }
        }
      }
    }
  }

  /** The non-empty pieces, in order. */
  function NonEmpty(parts: seq<string>): (clean: seq<string>)
    ensures |clean| <= |parts|
    ensures forall k :: 0 <= k < |clean| ==> clean[k] != ""
    decreases |parts|
  {
    if parts == [] then []
    else NonEmpty(parts[..|parts| - 1]) + (if parts[|parts| - 1] != "" then [parts[|parts| - 1]] else [])
  }

  /** The non-empty pieces of two lists in sequence are those of the first
      followed by those of the second. */
  lemma {:induction false} NonEmptyAppend(a: seq<string>, b: seq<string>)
    ensures NonEmpty(a + b) == NonEmpty(a) + NonEmpty(b)
    decreases |b|
  {
    if b == [] {
      assert a + b == a;
    } else {
      var ab := a + b;
      assert ab[..|ab| - 1] == a + b[..|b| - 1] && ab[|ab| - 1] == b[|b| - 1];
      NonEmptyAppend(a, b[..|b| - 1]);
    }
  }

  /** A single piece is kept exactly when it is not empty. Together with
      `NonEmptyAppend` this fixes `NonEmpty` on every list: it keeps the
      non-empty pieces, each once, in their order. */
  lemma NonEmptySingle(p: string)
    ensures NonEmpty([p]) == if p == "" then [] else [p]
  {
    assert [p][..0] == [];
  }

  /** A string is kept exactly when it is one of the pieces and not empty. */
  lemma {:induction false} NonEmptyMembers(parts: seq<string>)
    ensures forall x :: x in NonEmpty(parts) <==> x in parts && x != ""
    decreases |parts|
  {
    if parts != [] {
      var init := parts[..|parts| - 1];
      NonEmptyMembers(init);
      assert parts == init + [parts[|parts| - 1]];
    }
  }

  /** The concatenation of a list of strings. */
  function Concat(parts: seq<string>): string
    decreases |parts|
  {
    if parts == [] then "" else Concat(parts[..|parts| - 1]) + parts[|parts| - 1]
  }

  /** Dropping the empty pieces loses no character. */
  lemma {:induction false} NonEmptyKeepsText(parts: seq<string>)
    ensures Concat(NonEmpty(parts)) == Concat(parts)
    decreases |parts|
  {
    if parts != [] {
      var init, last := parts[..|parts| - 1], parts[|parts| - 1];
      NonEmptyKeepsText(init);
      var c := NonEmpty(init);
      if last != "" {
        assert (c + [last])[..|c + [last]| - 1] == c;
      } else {
        assert NonEmpty(parts) == c + [] == c;
        assert Concat(parts) == Concat(init) + "";
      }
    }
  }

  /** A sentence that does not start with `$` is the tail of the one before
      it, cut by a read boundary, and is joined to the previous cleaned
      piece; the first piece and pieces starting with `$` pass unchanged. */
  function Reassembled(clean: seq<string>): (out: seq<string>)
    ensures |out| == |clean|
  {
    seq(|clean|, i requires 0 <= i < |clean| =>
      if !(|clean[i]| >= 1 && clean[i][0] == '$') && i != 0 then clean[i - 1] + clean[i] else clean[i])
  }

  /** Every reassembled sentence ends with its own piece, starts with the
      piece before it exactly when it was joined, and is non-empty. */
  lemma ReassembledShape(clean: seq<string>)
    requires forall k :: 0 <= k < |clean| ==> clean[k] != ""
    ensures forall i :: 0 <= i < |clean| ==> Reassembled(clean)[i] != ""
    ensures forall i :: 0 <= i < |clean| ==>
      var o := Reassembled(clean)[i];
      |clean[i]| <= |o| && o[|o| - |clean[i]|..] == clean[i]
    ensures forall i :: 0 < i < |clean| && clean[i][0] != '$' ==>
      Reassembled(clean)[i] == clean[i - 1] + clean[i]
    ensures forall i :: 0 <= i < |clean| && (i == 0 || clean[i][0] == '$') ==>
      Reassembled(clean)[i] == clean[i]
  {
    forall i | 0 <= i < |clean| {
      ReassembledAt(clean, i);
    }
  }

  lemma ReassembledAt(clean: seq<string>, i: nat)
    requires i < |clean| && forall k :: 0 <= k < |clean| ==> clean[k] != ""
    ensures Reassembled(clean)[i] != ""
    ensures |clean[i]| <= |Reassembled(clean)[i]|
    ensures Reassembled(clean)[i][|Reassembled(clean)[i]| - |clean[i]|..] == clean[i]
    ensures i > 0 && clean[i][0] != '$' ==> Reassembled(clean)[i] == clean[i - 1] + clean[i]
    ensures (i == 0 || clean[i][0] == '$') ==> Reassembled(clean)[i] == clean[i]
  {
    var o := Reassembled(clean)[i];
    assert clean[i] != "";
    if i > 0 && clean[i][0] != '$' {
      assert o == clean[i - 1] + clean[i];
    } else {
      assert o == clean[i];
    }
  }

  /** `prepare_data` on the chunks a full read returns. */
  function Sentences(chunks: seq<seq<byte>>): (sentences: seq<string>)
    requires WellSized(chunks)
    ensures |sentences| <= |Split(RawDataText(chunks), '\n')|
    ensures forall i :: 0 <= i < |sentences| ==> sentences[i] != "" && '\n' !in sentences[i]
  {
    var parts := Split(RawDataText(chunks), '\n');
    var clean := NonEmpty(parts);
    SplitJoin(RawDataText(chunks), '\n');
    NonEmptyMembers(parts);
    assert forall k :: 0 <= k < |clean| ==> '\n' !in clean[k] by {
      forall k | 0 <= k < |clean| ensures '\n' !in clean[k] {
        assert clean[k] in parts;
      }
    }
    ReassembledShape(clean);
    Reassembled(clean)
  }

  /** A read that starts with a newline yields no sentence at all. */
  lemma NoSentencesAfterNewline(chunks: seq<seq<byte>>)
    requires WellSized(chunks) && chunks[0][0] == 0x0A
    ensures Sentences(chunks) == []
  {
    assert Split("", '\n') == [""];
    assert NonEmpty([""]) == NonEmpty([]) + [];
  }

  // ---------------------------------------------------------------------
  // The table of the latest fix

  /** Values taken from a parsed sentence. */
  datatype Value = Number(n: int) | Text(s: string)

  /** The table of the latest fix: a class attribute of `GPS`, one
      dictionary shared by every reader. */
  class GnssTable {
    var entries: map<string, Value>

    constructor()
      ensures entries == INITIAL_ENTRIES
    {
      entries := INITIAL_ENTRIES;
    }
  }

  const INITIAL_ENTRIES: map<string, Value> := map[
    "Time" := Number(0), "Latitude" := Number(0), "Lat" := Number(0),
    "Lat_Direction" := Text(""), "Longitude" := Number(0), "Long" := Number(0),
    "Long_Direction" := Text(""), "Altitude" := Number(0), "Altitude_Units" := Text(""),
    "Sat_Number" := Number(0), "Geo_Separation" := Number(0), "Geo_Sep_Units" := Text("")]

  /** The keys `add_to_gnss_messages` sets, in the order it sets them, each
      with the sentence attribute it copies. */
  const FIELDS: seq<(string, string)> := [
    ("Time", "timestamp"), ("Lat_Direction", "lat_dir"), ("Long_Direction", "lon_dir"),
    ("Latitude", "latitude"), ("Lat", "lat"), ("Longitude", "longitude"), ("Long", "lon"),
    ("Altitude", "altitude"), ("Altitude_Units", "altitude_units"), ("Sat_Number", "num_sats"),
    ("Geo_Separation", "geo_sep"), ("Geo_Sep_Units", "geo_sep_units")]

  /** The keys name the twelve entries of the table, each once. */
  lemma FieldsCoverTable()
    ensures forall i, j :: 0 <= i < j < |FIELDS| ==> FIELDS[i].0 != FIELDS[j].0
    ensures (set i | 0 <= i < |FIELDS| :: FIELDS[i].0) == INITIAL_ENTRIES.Keys
  {
    var keys := set i | 0 <= i < |FIELDS| :: FIELDS[i].0;
    assert forall k :: k in INITIAL_ENTRIES.Keys ==> k in keys by {
      assert FIELDS[0].0 in keys && FIELDS[1].0 in keys && FIELDS[2].0 in keys;
      assert FIELDS[3].0 in keys && FIELDS[4].0 in keys && FIELDS[5].0 in keys;
      assert FIELDS[6].0 in keys && FIELDS[7].0 in keys && FIELDS[8].0 in keys;
      assert FIELDS[9].0 in keys && FIELDS[10].0 in keys && FIELDS[11].0 in keys;
    }
  }

  /** How many leading fields the sentence has attributes for: the
      assignments stop at the first missing one, which raises
      `AttributeError`. */
  function Present(sentence: map<string, Value>, n: nat): (p: nat)
    requires n <= |FIELDS|
    ensures p <= n
    ensures forall i :: 0 <= i < p ==> FIELDS[i].1 in sentence
    ensures p < n ==> FIELDS[p].1 !in sentence
  {
    if n == 0 then 0
    else if Present(sentence, n - 1) == n - 1 && FIELDS[n - 1].1 in sentence then n
    else Present(sentence, n - 1)
  }

  /** The table after the first n assignments. */
  function Apply(entries: map<string, Value>, sentence: map<string, Value>, n: nat): map<string, Value>
    requires n <= |FIELDS| && forall i :: 0 <= i < n ==> FIELDS[i].1 in sentence
  {
    if n == 0 then entries
    else Apply(entries, sentence, n - 1)[FIELDS[n - 1].0 := sentence[FIELDS[n - 1].1]]
  }

  /** After the first n assignments, the first n keys hold the sentence's
      attributes and every other key is as it was. */
  lemma {:induction false} ApplyMeaning(entries: map<string, Value>, sentence: map<string, Value>, n: nat)
    requires n <= |FIELDS| && forall i :: 0 <= i < n ==> FIELDS[i].1 in sentence
    ensures forall i :: 0 <= i < n ==>
      FIELDS[i].0 in Apply(entries, sentence, n) && Apply(entries, sentence, n)[FIELDS[i].0] == sentence[FIELDS[i].1]
    ensures forall k :: (forall i :: 0 <= i < n ==> FIELDS[i].0 != k) ==>
      (k in Apply(entries, sentence, n) <==> k in entries) &&
      (k in entries ==> Apply(entries, sentence, n)[k] == entries[k])
  {
    if n > 0 {
      ApplyMeaning(entries, sentence, n - 1);
      FieldsCoverTable();
    }
  }

  class GPS {
    const i2c: MicroPythonI2C
    const address: int
    /** The class attribute `gnss_messages`. */
    const messages: GnssTable

    constructor(cls: I2cClass, messages: GnssTable)
      ensures fresh(i2c) && i2c.cls == cls && i2c.Valid()
      ensures address == 0x10 && this.messages == messages
    {
      i2c := new MicroPythonI2C(cls);
      address := 0x10;
      this.messages := messages;
    }

    /** `get_raw_data`: reads the receiver's buffer in I2C-sized chunks,
        stopping after the first read when it starts with a newline, and
        after every read appends the text of all bytes read so far.
        `requests` are the sizes of the reads made. */
    method GetRawData(chunks: seq<seq<byte>>) returns (requests: seq<nat>, text: string)
      requires WellSized(chunks)
      ensures chunks[0][0] == 0x0A ==> requests == [MAX_I2C_BUFFER] && text == ""
      ensures chunks[0][0] != 0x0A ==> requests == SCHEDULE && text == RawText(chunks, |SCHEDULE|)
      ensures text == RawDataText(chunks)
    {
      text := "";
      var tracker := MAX_GPS_BUFFER;
      var rawData: seq<byte> := [];
      requests := [];
      var n := 0;
      while tracker != 0
        invariant 0 <= n <= |SCHEDULE| && tracker == Tracker(n)
        invariant requests == SCHEDULE[..n] && rawData == Received(chunks, n)
        invariant n >= 1 ==> rawData[0] == chunks[0][0] && chunks[0][0] != 0x0A
        invariant text == RawText(chunks, n)
        decreases tracker
      {
        ScheduleDrainsBuffer(n);
        if tracker > MAX_I2C_BUFFER {
          rawData := rawData + chunks[n];
          requests := requests + [MAX_I2C_BUFFER];
          n := n + 1;
          tracker := tracker - MAX_I2C_BUFFER;
          if rawData[0] == 0x0A {
            break;
          }
        } else if tracker < MAX_I2C_BUFFER {
          rawData := rawData + chunks[n];
          requests := requests + [tracker];
          n := n + 1;
          tracker := 0;
          if rawData[0] == 0x0A {
            break;
          }
        }
        text := AppendChars(text, rawData);
      }
    }

    /** The inner loop of `get_raw_data`: appends `chr` of every byte. */
    static method AppendChars(text: string, bytes: seq<byte>) returns (r: string)
      ensures r == text + Chars(bytes)
    {
      r := text;
      var i := 0;
      while i < |bytes|
        invariant 0 <= i <= |bytes|
        invariant r == text + Chars(bytes[..i])
      {
        r := r + [(bytes[i] as int) as char];
        i := i + 1;
        assert Chars(bytes[..i]) == Chars(bytes[..i - 1]) + [(bytes[i - 1] as int) as char];
      }
      assert bytes[..i] == bytes;
    }

    /** `prepare_data`: the text read, split at newlines, without empty
        pieces, with broken sentences joined. */
    method PrepareData(chunks: seq<seq<byte>>) returns (requests: seq<nat>, sentences: seq<string>)
      requires WellSized(chunks)
      ensures sentences == Sentences(chunks)
      ensures chunks[0][0] == 0x0A ==> requests == [MAX_I2C_BUFFER] && sentences == []
      ensures chunks[0][0] != 0x0A ==> requests == SCHEDULE
    {
      var text;
      requests, text := GetRawData(chunks);
      var clean := CleanPieces(Split(text, '\n'));
      sentences := JoinBroken(clean);
      if chunks[0][0] == 0x0A {
        NoSentencesAfterNewline(chunks);
      }
    }

    /** The first loop of `prepare_data`: keeps the non-empty pieces. */
    static method CleanPieces(parts: seq<string>) returns (clean: seq<string>)
      ensures clean == NonEmpty(parts)
    {
      clean := [];
      var i := 0;
      while i < |parts|
        invariant 0 <= i <= |parts| && clean == NonEmpty(parts[..i])
      {
        if parts[i] != "" {
          clean := clean + [parts[i]];
        }
        i := i + 1;
        assert parts[..i][..i - 1] == parts[..i - 1];
      }
      assert parts[..i] == parts;
    }

    /** The second loop of `prepare_data`: joins each piece that does not
        start with `$` to the piece before it. */
    static method JoinBroken(clean: seq<string>) returns (sentences: seq<string>)
      ensures sentences == Reassembled(clean)
    {
      sentences := [];
      var index := 0;
      while index < |clean|
        invariant 0 <= index <= |clean| && sentences == Reassembled(clean)[..index]
      {
        var sentence := clean[index];
        if !(|sentence| >= 1 && sentence[0] == '$') && index != 0 {
          var joined := clean[index - 1] + sentence;
          sentences := sentences + [joined];
        } else {
          sentences := sentences + [sentence];
        }
        index := index + 1;
      }
      assert Reassembled(clean)[..index] == Reassembled(clean);
    }

    /** `add_to_gnss_messages`: copies the sentence's attributes into the
        shared table in order, until an attribute is missing; always
        answers true. */
    method AddToGnssMessages(sentence: map<string, Value>) returns (ok: bool)
      modifies messages
      ensures ok
      ensures messages.entries == Apply(old(messages.entries), sentence, Present(sentence, |FIELDS|))
    {
      ghost var start := messages.entries;
      var i := 0;
      while i < |FIELDS|
        invariant 0 <= i <= |FIELDS| && Present(sentence, i) == i
        invariant messages.entries == Apply(start, sentence, i)
      {
        var (key, attribute) := FIELDS[i];
        if attribute !in sentence {
          assert Present(sentence, |FIELDS|) == i by {
            PresentStops(sentence, i, |FIELDS|);
          }
          return true;
        }
        messages.entries := messages.entries[key := sentence[attribute]];
        i := i + 1;
      }
      return true;
    }
  }

  /** Once an attribute is missing, no later field is reached. */
  lemma {:induction false} PresentStops(sentence: map<string, Value>, p: nat, n: nat)
    requires p < n <= |FIELDS| && Present(sentence, p) == p && FIELDS[p].1 !in sentence
    ensures Present(sentence, n) == p
    decreases n
  {
    if n > p + 1 {
      PresentStops(sentence, p, n - 1);
    }
  }

  /** With every attribute present, all twelve entries take the sentence's
      values and the table keeps exactly its twelve keys. */
  lemma CompleteSentence(entries: map<string, Value>, sentence: map<string, Value>)
    requires entries.Keys == INITIAL_ENTRIES.Keys
    requires forall i :: 0 <= i < |FIELDS| ==> FIELDS[i].1 in sentence
    ensures Present(sentence, |FIELDS|) == |FIELDS|
    ensures Apply(entries, sentence, |FIELDS|).Keys == INITIAL_ENTRIES.Keys
    ensures forall i :: 0 <= i < |FIELDS| ==> Apply(entries, sentence, |FIELDS|)[FIELDS[i].0] == sentence[FIELDS[i].1]
  {
    PresentAll(sentence, |FIELDS|);
    ApplyMeaning(entries, sentence, |FIELDS|);
    FieldsCoverTable();
  }

  lemma {:induction false} PresentAll(sentence: map<string, Value>, n: nat)
    requires n <= |FIELDS| && forall i :: 0 <= i < n ==> FIELDS[i].1 in sentence
    ensures Present(sentence, n) == n
  {
    if n > 0 {
      PresentAll(sentence, n - 1);
    }
  }

  /** With an attribute missing, the entries before it are updated and the
      rest keep their values. */
  lemma PartialSentence(entries: map<string, Value>, sentence: map<string, Value>)
    requires Present(sentence, |FIELDS|) < |FIELDS|
    ensures var p := Present(sentence, |FIELDS|);
      var updated := Apply(entries, sentence, p);
      FIELDS[p].1 !in sentence &&
      (forall i :: 0 <= i < p ==> FIELDS[i].0 in updated && updated[FIELDS[i].0] == sentence[FIELDS[i].1]) &&
      (forall i :: p <= i < |FIELDS| && FIELDS[i].0 in entries ==>
         FIELDS[i].0 in updated && updated[FIELDS[i].0] == entries[FIELDS[i].0])
  {
    var p := Present(sentence, |FIELDS|);
    ApplyMeaning(entries, sentence, p);
    FieldsCoverTable();
  }
}
