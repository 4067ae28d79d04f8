/** The frontmatter reader of `src/main.rs` (`parse_frontmatter`): the
    `key: value` lines between the first two thematic breaks of a post,
    read off the post's event stream. The events after the closing break
    are left for the body. */
module Frontmatter {
  import opened Wrappers
  import opened Errors
  import opened Text
  import opened Events
  import opened Utf8

  type Fields = map<string, string>

  /** The fields read, and the events not consumed. */
  datatype Parsed = Parsed(fields: Fields, rest: seq<Event>)

  /** A value as stored: no whitespace at either end. */
  predicate Trimmed(v: string) {
    |v| == 0 || (!IsWhitespace(v[0]) && !IsWhitespace(v[|v| - 1]))
  }

  /** Rust's `trim` leaves a trimmed string. */
  lemma TrimIsTrimmed(s: string)
    ensures Trimmed(Trim(s))
  {
    var t := TrimStart(s);
    var r := TrimEnd(t);
    if |r| > 0 {
      assert r == t[..|r|];
      assert r[0] == t[0];
    }
  }

  /** A trimmed string is its own trim, even behind a run of spaces. */
  lemma TrimSpaced(v: string)
    requires Trimmed(v)
    ensures Trim(" " + v) == v
  {
    assert (" " + v)[1..] == v;
    assert TrimStart(" " + v) == TrimStart(v);
  }

  /** Stores one collected line: the key is everything before the first
      colon, the value everything after it, trimmed. A line without a
      colon is the panic of the `unwrap`. */
  function Flush(fields: Fields, line: string): (r: Result<Fields, Error>)
    ensures r.Failure? <==> ':' !in line
    ensures r.Failure? ==> r.error == MissingColon(line)
  {
    match IndexOf(line, ':')
    case None => Failure(MissingColon(line))
    case Some(pos) => Success(fields[line[..pos] := Trim(line[pos + 1..])])
  }

  /** Keys without colons and trimmed values: what `Flush` stores. */
  predicate WellFormed(fields: Fields) {
    forall k :: k in fields ==> ':' !in k && Trimmed(fields[k])
  }

  lemma FlushWellFormed(fields: Fields, line: string)
    requires WellFormed(fields)
    ensures Flush(fields, line).Success? ==> WellFormed(Flush(fields, line).value)
  {
    var i := IndexOf(line, ':');
    if i.Some? {
      var key := line[..i.value];
      var value := Trim(line[i.value + 1..]);
      TrimIsTrimmed(line[i.value + 1..]);
      assert ':' !in key;
      var stored := fields[key := value];
      FlushAt(fields, line, i.value);
      forall k | k in stored
        ensures ':' !in k && Trimmed(stored[k])
      {
        if k != key {
          assert k in fields;
        }
      }
    }
  }

  /** `rest` is what is left of `events` after some of them were consumed. */
  predicate IsSuffix(rest: seq<Event>, events: seq<Event>) {
    |rest| <= |events| && rest == events[|events| - |rest|..]
  }

  /** The loop of `parse_frontmatter` from a given state: `reading` once the
      opening break has been seen, `line` the text collected for the current
      line. Before the opening break only a soft break is tolerated, and it
      stores the (empty) line like any other; inside, soft breaks and the end
      of any element store the line, text is collected, the closing break
      ends the loop, and other events are ignored. Running out of events
      ends it too. */
  function ParseFrom(events: seq<Event>, reading: bool, fields: Fields, line: string): (r: Result<Parsed, Error>)
    ensures r.Success? ==> IsSuffix(r.value.rest, events)
    decreases |events|
  {
    if |events| == 0 then Success(Parsed(fields, []))
    else
      var e := events[0];
      if !reading && e.Rule? then ParseFrom(events[1..], true, fields, line)
      else if !reading && !e.SoftBreak? then Failure(FrontmatterNotFound)
      else if e.SoftBreak? || e.End? then
        var stored :- Flush(fields, line);
        ParseFrom(events[1..], reading, stored, "")
      else if e.Text? then ParseFrom(events[1..], reading, fields, line + e.text)
      else if e.Rule? then Success(Parsed(fields, events[1..]))
      else ParseFrom(events[1..], reading, fields, line)
  }

  /** `parse_frontmatter`: the fields of a post and the events of its body. */
  function ParseFrontmatter(events: seq<Event>): Result<Parsed, Error> {
    ParseFrom(events, false, map[], "")
  }

  /** Every field read has a colon-free key and a trimmed value. */
  lemma {:induction false} ParseWellFormed(events: seq<Event>, reading: bool, fields: Fields, line: string)
    requires WellFormed(fields)
    ensures var r := ParseFrom(events, reading, fields, line);
      r.Success? ==> WellFormed(r.value.fields)
    decreases |events|
  {
    if |events| > 0 {
      var e := events[0];
      if !reading && e.Rule? {
        ParseWellFormed(events[1..], true, fields, line);
      } else if !reading && !e.SoftBreak? {
      } else if e.SoftBreak? || e.End? {
        FlushWellFormed(fields, line);
        if Flush(fields, line).Success? {
          ParseWellFormed(events[1..], reading, Flush(fields, line).value, "");
        }
      } else if e.Text? {
        ParseWellFormed(events[1..], reading, fields, line + e.text);
      } else if !e.Rule? {
        ParseWellFormed(events[1..], reading, fields, line);
      }
    }
  }

  /** One `key: value` line of a frontmatter block. */
  datatype Entry = Entry(key: string, value: string)

  /** An entry the reader can give back unchanged. */
  predicate Readable(e: Entry) {
    ':' !in e.key && Trimmed(e.value)
  }

  /** The entries stored one after the other into `fields`: a later entry
      overwrites an earlier one with the same key. */
  function Store(fields: Fields, entries: seq<Entry>): Fields
    decreases |entries|
  {
    if |entries| == 0 then fields else Store(fields[entries[0].key := entries[0].value], entries[1..])
  }

  /** An event that neither stores the current line nor ends the block:
      text, which is collected, and everything the reader ignores (the
      start of an element, raw HTML, other events). */
  predicate InLine(e: Event) {
    !e.SoftBreak? && !e.End? && !e.Rule?
  }

  /** The text collected from a run of events: the `Text` events joined, the
      rest contributing nothing. */
  function TextOf(events: seq<Event>): string
    decreases |events|
  {
    if |events| == 0 then ""
    else (if events[0].Text? then events[0].text else "") + TextOf(events[1..])
  }

  /** One frontmatter line as it arrives: the events of the line, then the
      event that stores it. */
  datatype WrittenLine = WrittenLine(entry: Entry, events: seq<Event>, close: Event)

  /** `l` writes its entry: a readable entry whose `key: value` text is
      spread over the line's events in any number of pieces, closed by a
      soft break or the end of any element (the last line of a paragraph
      is closed by the paragraph's end). */
  predicate WritesEntry(l: WrittenLine) {
    && Readable(l.entry)
    && (forall k :: 0 <= k < |l.events| ==> InLine(l.events[k]))
    && TextOf(l.events) == l.entry.key + ": " + l.entry.value
    && (l.close.SoftBreak? || l.close.End?)
  }

  /** Every line writes its entry. */
  predicate AllWritten(lines: seq<WrittenLine>) {
    forall k :: 0 <= k < |lines| ==> WritesEntry(lines[k])
  }

  /** The entries the lines write, in order. */
  function EntriesOf(lines: seq<WrittenLine>): seq<Entry>
    decreases |lines|
  {
    if |lines| == 0 then [] else [lines[0].entry] + EntriesOf(lines[1..])
  }

  /** The events of the lines, one after the other. */
  function LineEvents(lines: seq<WrittenLine>): seq<Event>
    decreases |lines|
  {
    if |lines| == 0 then [] else lines[0].events + [lines[0].close] + LineEvents(lines[1..])
  }

  /** A post's frontmatter block: the lines between two breaks. */
  function Block(lines: seq<WrittenLine>): seq<Event> {
    [Rule] + LineEvents(lines) + [Rule]
  }

  /** The simplest way to write entries: each line one text closed by a soft
      break. */
  function PlainLines(entries: seq<Entry>): (r: seq<WrittenLine>)
    ensures |r| == |entries|
    decreases |entries|
  {
    if |entries| == 0 then []
    else [WrittenLine(entries[0], [Text(entries[0].key + ": " + entries[0].value)], SoftBreak)] + PlainLines(entries[1..])
  }

  /** Plain lines write exactly the given readable entries. */
  lemma {:induction false} PlainLinesWrite(entries: seq<Entry>)
    requires forall k :: 0 <= k < |entries| ==> Readable(entries[k])
    ensures AllWritten(PlainLines(entries)) && EntriesOf(PlainLines(entries)) == entries
    decreases |entries|
  {
    if |entries| > 0 {
      var e := entries[0];
      var l := WrittenLine(e, [Text(e.key + ": " + e.value)], SoftBreak);
      PlainLinesWrite(entries[1..]);
      assert TextOf(l.events) == e.key + ": " + e.value + "";
      assert WritesEntry(l);
      var rest := PlainLines(entries[1..]);
      assert PlainLines(entries) == [l] + rest;
      forall k | 0 <= k < |[l] + rest|
        ensures WritesEntry(([l] + rest)[k])
      {
        if k > 0 {
          assert ([l] + rest)[k] == rest[k - 1];
        }
      }
      assert entries == [e] + entries[1..];
    }
  }

  /** A single line is stored under its key with its value. */
  lemma FlushEntry(fields: Fields, e: Entry)
    requires Readable(e)
    ensures Flush(fields, e.key + ": " + e.value) == Success(fields[e.key := e.value])
  {
    var spaced := " " + e.value;
    var rest := ": " + e.value;
    assert rest == [':'] + spaced;
    var line := e.key + rest;
    assert e.key + ": " + e.value == line;
    IndexOfAfterFree(e.key, rest, ':');
    LineParts(e.key, rest);
    assert rest[1..] == spaced;
    TrimSpaced(e.value);
    FlushAt(fields, line, |e.key|);
  }

  lemma LineParts(key: string, rest: string)
    requires |rest| > 0
    ensures (key + rest)[..|key|] == key && (key + rest)[|key| + 1..] == rest[1..]
  {
  }

  /** `Flush` where the first colon is at `pos`. */
  lemma FlushAt(fields: Fields, line: string, pos: nat)
    requires IndexOf(line, ':') == Some(pos)
    ensures Flush(fields, line) == Success(fields[line[..pos] := Trim(line[pos + 1..])])
  {
    var key, value := line[..pos], Trim(line[pos + 1..]);
    assert Flush(fields, line) == Success(fields[key := value]);
  }

  /** `Flush` as the source writes it: the colon's position is counted in
      characters (`chars().position`) but then used as a byte offset to
      slice the line, so slicing panics when that offset falls inside a
      character and cuts the line in the wrong place otherwise. */
  function FlushAsWritten(fields: Fields, line: string): (r: Result<Fields, Error>)
    ensures r.Failure? ==> r.error == MissingColon(line) || r.error.NotCharBoundary?
  {
    match IndexOf(line, ':')
    case None => Failure(MissingColon(line))
    case Some(pos) =>
      match ByteCut(line, pos)
      case Failure(e) => Failure(e)
      case Success((keyEnd, valueStart)) => Success(fields[line[..keyEnd] := Trim(line[valueStart..])])
  }

  /** The numbers of characters before byte offsets `pos` and `pos + 1`,
      or the first of those offsets that falls inside a character. */
  function ByteCut(line: string, pos: nat): (r: Result<(nat, nat), Error>)
    ensures r.Success? ==> r.value.0 <= |line| && r.value.1 <= |line|
    ensures r.Failure? ==> r.error.NotCharBoundary?
  {
    match CharsInBytes(line, pos)
    case None => Failure(NotCharBoundary(line, pos))
    case Some(keyEnd) =>
      match CharsInBytes(line, pos + 1)
      case None => Failure(NotCharBoundary(line, pos + 1))
      case Some(valueStart) => Success((keyEnd, valueStart))
  }

  /** `FlushAsWritten` where the colon is character `pos` and bytes `pos`
      and `pos + 1` fall after `keyEnd` and `valueStart` characters. */
  lemma {:induction false} FlushAsWrittenAt(fields: Fields, line: string, pos: nat, keyEnd: nat, valueStart: nat)
    requires IndexOf(line, ':') == Some(pos)
    requires CharsInBytes(line, pos) == Some(keyEnd) && CharsInBytes(line, pos + 1) == Some(valueStart)
    ensures FlushAsWritten(fields, line) == Success(fields[line[..keyEnd] := Trim(line[valueStart..])])
  {
    var key, value := line[..keyEnd], Trim(line[valueStart..]);
    assert ByteCut(line, pos) == Success((keyEnd, valueStart));
    assert FlushAsWritten(fields, line) == Success(fields[key := value]);
  }

  /** On ASCII lines characters and bytes coincide and the source's reading
      is the intended one. */
  lemma FlushAsWrittenAscii(fields: Fields, line: string)
    requires Ascii(line)
    ensures FlushAsWritten(fields, line) == Flush(fields, line)
  {
    var i := IndexOf(line, ':');
    if i.Some? {
      var pos := i.value;
      AsciiBytes(line, pos);
      AsciiBytes(line, pos + 1);
      FlushAsWrittenAt(fields, line, pos, pos, pos + 1);
      FlushAt(fields, line, pos);
    }
  }

  /** A key with a character beyond ASCII is never read back as written:
      the line panics or is stored under a shorter key. */
  lemma NonAsciiKeyMisread(e: Entry)
    requires Readable(e) && !Ascii(e.key)
    ensures FlushAsWritten(map[], e.key + ": " + e.value) != Success(map[e.key := e.value])
  {
    var rest := ": " + e.value;
    var line := e.key + rest;
    assert e.key + ": " + e.value == line;
    IndexOfAfterFree(e.key, rest, ':');
    MisreadLine(e.key, line, map[e.key := e.value]);
  }

  lemma MisreadLine(key: string, line: string, intended: Fields)
    requires |key| < |line| && line[..|key|] == key && !Ascii(key)
    requires IndexOf(line, ':') == Some(|key|)
    requires intended.Keys == {key}
    ensures FlushAsWritten(map[], line) != Success(intended)
  {
    var pos := |key|;
    var keyEnd := CharsInBytes(line, pos);
    var valueStart := CharsInBytes(line, pos + 1);
    if keyEnd.None? {
      FlushAsWrittenSplits(map[], line, pos);
    } else if valueStart.None? {
      FlushAsWrittenSplits(map[], line, pos);
    } else {
      CharsInBytesSome(line, pos);
      KeyCutShort(line, key, keyEnd.value);
      FlushAsWrittenAt(map[], line, pos, keyEnd.value, valueStart.value);
      var stored := map[][line[..keyEnd.value] := Trim(line[valueStart.value..])];
      assert key !in stored;
    }
  }

  /** `FlushAsWritten` panics when either byte offset it slices at falls
      inside a character. */
  lemma FlushAsWrittenSplits(fields: Fields, line: string, pos: nat)
    requires IndexOf(line, ':') == Some(pos)
    requires CharsInBytes(line, pos).None? || CharsInBytes(line, pos + 1).None?
    ensures FlushAsWritten(fields, line).Failure?
    ensures CharsInBytes(line, pos).None? ==> FlushAsWritten(fields, line) == Failure(NotCharBoundary(line, pos))
  {
  }

  /** Byte offset `|key|` of a line starting with a non-ASCII `key` ends
      before the key does. */
  lemma KeyCutShort(line: string, key: string, keyEnd: nat)
    requires |key| <= |line| && line[..|key|] == key && !Ascii(key)
    requires keyEnd <= |line| && ByteLength(line[..keyEnd]) == |key|
    ensures keyEnd < |key|
  {
    NonAsciiLonger(key);
    if keyEnd >= |key| {
      PrefixBytes(line, |key|, keyEnd);
    }
  }

  lemma PrefixBytes(s: string, i: nat, j: nat)
    requires i <= j <= |s|
    ensures ByteLength(s[..i]) <= ByteLength(s[..j])
  {
    assert s[..j] == s[..i] + s[i..j];
    ByteLengthAppend(s[..i], s[i..j]);
  }

  /** `"\u{e9}: x"`: the colon is the second character, and byte 1 lies
      inside the two-byte `\u{e9}`, so the source panics where the key
      `"\u{e9}"` was meant. */
  lemma AccentedKeyExample(line: string)
    requires line == "\U{E9}: x"
    ensures Flush(map[], line) == Success(map["\U{E9}" := "x"])
    ensures FlushAsWritten(map[], line) == Failure(NotCharBoundary(line, 1))
  {
    var e := Entry("\U{E9}", "x");
    assert Readable(e);
    assert e.key + ": " + e.value == line;
    FlushEntry(map[], e);
    AccentedSplit(line);
  }

  lemma AccentedSplit(line: string)
    requires line == "\U{E9}: x"
    ensures FlushAsWritten(map[], line) == Failure(NotCharBoundary(line, 1))
  {
    assert IndexOf(line[1..], ':') == Some(0);
    assert IndexOf(line, ':') == Some(1);
    assert Width(line[0]) == 2;
    assert CharsInBytes(line, 1) == None;
    FlushAsWrittenSplits(map[], line, 1);
  }

  /** Reading events inside a line collects their text and stores nothing. */
  lemma {:induction false} ReadPieces(events: seq<Event>, rest: seq<Event>, fields: Fields, line: string)
    requires forall k :: 0 <= k < |events| ==> InLine(events[k])
    ensures ParseFrom(events + rest, true, fields, line) == ParseFrom(rest, true, fields, line + TextOf(events))
    decreases |events|
  {
    if |events| == 0 {
      assert events + rest == rest;
      assert line + TextOf(events) == line;
    } else {
      var e := events[0];
      var t := if e.Text? then e.text else "";
      assert events + rest == [e] + (events[1..] + rest);
      ReadInLine(e, events[1..] + rest, fields, line);
      ReadPieces(events[1..], rest, fields, line + t);
      JoinAssoc(line, t, TextOf(events[1..]));
    }
  }

  lemma JoinAssoc(a: string, b: string, c: string)
    ensures a + b + c == a + (b + c)
  {
  }

  /** One event inside a line: text is added to the line, anything else is
      ignored. */
  lemma ReadInLine(e: Event, rest: seq<Event>, fields: Fields, line: string)
    requires InLine(e)
    ensures ParseFrom([e] + rest, true, fields, line) == ParseFrom(rest, true, fields, line + (if e.Text? then e.text else ""))
  {
    assert ([e] + rest)[0] == e && ([e] + rest)[1..] == rest;
    assert line + "" == line;
  }

  /** A soft break or the end of any element stores the current line. */
  lemma ReadClose(e: Event, rest: seq<Event>, fields: Fields, line: string, stored: Fields)
    requires e.SoftBreak? || e.End?
    requires Flush(fields, line) == Success(stored)
    ensures ParseFrom([e] + rest, true, fields, line) == ParseFrom(rest, true, stored, "")
  {
    assert ([e] + rest)[0] == e && ([e] + rest)[1..] == rest;
  }

  /** A written line is stored under its entry's key with its value. */
  lemma ReadLine(l: WrittenLine, after: seq<Event>, fields: Fields)
    requires WritesEntry(l)
    ensures ParseFrom(l.events + ([l.close] + after), true, fields, "")
      == ParseFrom(after, true, fields[l.entry.key := l.entry.value], "")
  {
    var text := l.entry.key + ": " + l.entry.value;
    ReadPieces(l.events, [l.close] + after, fields, "");
    assert "" + TextOf(l.events) == text;
    FlushEntry(fields, l.entry);
    ReadClose(l.close, after, fields, text, fields[l.entry.key := l.entry.value]);
  }

  /** Reading written lines stores their entries in order and stops at
      whatever follows them. */
  lemma {:induction false} ReadLines(lines: seq<WrittenLine>, tail: seq<Event>, fields: Fields)
    requires AllWritten(lines)
    ensures ParseFrom(LineEvents(lines) + tail, true, fields, "") == ParseFrom(tail, true, Store(fields, EntriesOf(lines)), "")
    decreases |lines|
  {
    if |lines| > 0 {
      var l := lines[0];
      var after := LineEvents(lines[1..]) + tail;
      LineEventsCons(lines, tail);
      ReadLine(l, after, fields);
      assert AllWritten(lines[1..]) by {
        forall k | 0 <= k < |lines[1..]| ensures WritesEntry(lines[1..][k]) {
          assert lines[1..][k] == lines[k + 1];
        }
      }
      ReadLines(lines[1..], tail, fields[l.entry.key := l.entry.value]);
      StoreCons(fields, lines);
    } else {
      assert LineEvents(lines) + tail == tail;
    }
  }

  lemma LineEventsCons(lines: seq<WrittenLine>, tail: seq<Event>)
    requires |lines| > 0
    ensures LineEvents(lines) + tail == lines[0].events + ([lines[0].close] + (LineEvents(lines[1..]) + tail))
  {
  }

  lemma StoreCons(fields: Fields, lines: seq<WrittenLine>)
    requires |lines| > 0
    ensures Store(fields, EntriesOf(lines)) == Store(fields[lines[0].entry.key := lines[0].entry.value], EntriesOf(lines[1..]))
  {
    assert EntriesOf(lines)[1..] == EntriesOf(lines[1..]);
  }

  /** A frontmatter block of written lines is read back as their entries,
      the last one winning for a repeated key, and everything after the
      block is left for the post's body. */
  lemma BlockRoundTrip(lines: seq<WrittenLine>, body: seq<Event>)
    requires AllWritten(lines)
    ensures ParseFrontmatter(Block(lines) + body) == Success(Parsed(Store(map[], EntriesOf(lines)), body))
  {
    var closing := [Rule] + body;
    var inner := LineEvents(lines) + closing;
    BlockAppend(lines, body);
    OpeningRule(inner, map[], "");
    ReadLines(lines, closing, map[]);
    ClosingRule(body, Store(map[], EntriesOf(lines)), "");
  }

  lemma BlockAppend(lines: seq<WrittenLine>, body: seq<Event>)
    ensures Block(lines) + body == [Rule] + (LineEvents(lines) + ([Rule] + body))
  {
  }

  /** The opening break starts the block. */
  lemma OpeningRule(rest: seq<Event>, fields: Fields, line: string)
    ensures ParseFrom([Rule] + rest, false, fields, line) == ParseFrom(rest, true, fields, line)
  {
    assert ([Rule] + rest)[0] == Rule && ([Rule] + rest)[1..] == rest;
  }

  /** The closing break ends the block and leaves what follows. */
  lemma ClosingRule(body: seq<Event>, fields: Fields, line: string)
    ensures ParseFrom([Rule] + body, true, fields, line) == Success(Parsed(fields, body))
  {
    assert ([Rule] + body)[0] == Rule && ([Rule] + body)[1..] == body;
  }

  /** Without its closing break a block is still read, and nothing is left
      for the body. */
  lemma UnclosedBlock(lines: seq<WrittenLine>)
    requires AllWritten(lines)
    ensures ParseFrontmatter([Rule] + LineEvents(lines)) == Success(Parsed(Store(map[], EntriesOf(lines)), []))
  {
    assert LineEvents(lines) == LineEvents(lines) + [];
    OpeningRule(LineEvents(lines), map[], "");
    ReadLines(lines, [], map[]);
  }

  /** A block as a Markdown parser gives it: the lines sit in a paragraph,
      the first one's text arrives in two pieces, and the last line is
      stored by the paragraph's end rather than by a soft break. */
  lemma ParagraphBlock(a: Entry, b: Entry, body: seq<Event>)
    requires Readable(a) && Readable(b)
    ensures ParseFrontmatter([Rule, Start(OtherTag("paragraph")), Text(a.key + ":"), Text(" " + a.value), SoftBreak,
                              Text(b.key + ": " + b.value), End(OtherTag("paragraph")), Rule] + body)
      == Success(Parsed(map[a.key := a.value][b.key := b.value], body))
  {
    var first := WrittenLine(a, [Start(OtherTag("paragraph")), Text(a.key + ":"), Text(" " + a.value)], SoftBreak);
    var second := WrittenLine(b, [Text(b.key + ": " + b.value)], End(OtherTag("paragraph")));
    FirstPieces(a, first);
    SecondPieces(b, second);
    var lines := [first, second];
    assert AllWritten(lines);
    ParagraphEvents(first, second, body);
    BlockRoundTrip(lines, body);
    StoreTwo(lines);
  }

  lemma TextOfCons(events: seq<Event>)
    requires |events| > 0
    ensures TextOf(events) == (if events[0].Text? then events[0].text else "") + TextOf(events[1..])
  {
  }

  lemma FirstPieces(a: Entry, l: WrittenLine)
    requires Readable(a)
    requires l == WrittenLine(a, [Start(OtherTag("paragraph")), Text(a.key + ":"), Text(" " + a.value)], SoftBreak)
    ensures WritesEntry(l)
  {
    var e := l.events;
    TextOfCons(e);
    TextOfCons(e[1..]);
    TextOfCons(e[1..][1..]);
    assert e[1..][1..][1..] == [];
    assert TextOf(e) == "" + ((a.key + ":") + ((" " + a.value) + ""));
    assert a.key + ":" + (" " + a.value) == a.key + ": " + a.value;
  }

  lemma SecondPieces(b: Entry, l: WrittenLine)
    requires Readable(b)
    requires l == WrittenLine(b, [Text(b.key + ": " + b.value)], End(OtherTag("paragraph")))
    ensures WritesEntry(l)
  {
    TextOfCons(l.events);
    assert l.events[1..] == [];
  }

  lemma ParagraphEvents(first: WrittenLine, second: WrittenLine, body: seq<Event>)
    requires first.events == [Start(OtherTag("paragraph")), Text(first.entry.key + ":"), Text(" " + first.entry.value)]
    requires first.close == SoftBreak
    requires second.events == [Text(second.entry.key + ": " + second.entry.value)]
    requires second.close == End(OtherTag("paragraph"))
    ensures Block([first, second]) + body
      == [Rule, Start(OtherTag("paragraph")), Text(first.entry.key + ":"), Text(" " + first.entry.value), SoftBreak,
          Text(second.entry.key + ": " + second.entry.value), End(OtherTag("paragraph")), Rule] + body
  {
    assert [first, second][1..] == [second];
    assert LineEvents([second]) == second.events + [second.close];
    assert LineEvents([first, second]) == first.events + [first.close] + second.events + [second.close];
  }

  lemma StoreTwo(lines: seq<WrittenLine>)
    requires |lines| == 2
    ensures Store(map[], EntriesOf(lines)) == map[lines[0].entry.key := lines[0].entry.value][lines[1].entry.key := lines[1].entry.value]
  {
    var a, b := lines[0].entry, lines[1].entry;
    assert lines[1..][1..] == [];
    assert EntriesOf(lines[1..][1..]) == [];
    assert EntriesOf(lines[1..]) == [b] + [];
    assert EntriesOf(lines) == [a] + [b];
    var s1 := map[][a.key := a.value];
    assert Store(map[], [a] + [b]) == Store(s1, [b]);
    assert Store(s1, [b]) == Store(s1[b.key := b.value], []);
  }

  /** The last entry for a key decides its value. */
  lemma {:induction false} LastEntryWins(fields: Fields, entries: seq<Entry>, last: Entry)
    ensures last.key in Store(fields, entries + [last])
    ensures Store(fields, entries + [last])[last.key] == last.value
    decreases |entries|
  {
    if |entries| == 0 {
      assert Store(fields, [last]) == Store(fields[last.key := last.value], []);
    } else {
      assert (entries + [last])[1..] == entries[1..] + [last];
      LastEntryWins(fields[entries[0].key := entries[0].value], entries[1..], last);
    }
  }

  /** Exactly the keys of the entries are stored, besides those present. */
  lemma {:induction false} StoreKeys(fields: Fields, entries: seq<Entry>)
    ensures Store(fields, entries).Keys == fields.Keys + set k | 0 <= k < |entries| :: entries[k].key
    decreases |entries|
  {
    if |entries| > 0 {
      StoreKeys(fields[entries[0].key := entries[0].value], entries[1..]);
      var all := set k | 0 <= k < |entries| :: entries[k].key;
      var later := set k | 0 <= k < |entries[1..]| :: entries[1..][k].key;
      assert all == {entries[0].key} + later by {
        forall x | x in all ensures x in {entries[0].key} + later {
          var k :| 0 <= k < |entries| && entries[k].key == x;
          if k > 0 { assert entries[1..][k - 1].key == x; }
        }
      }
    }
  }

  /** A post must open with its frontmatter block: any other first event
      than a break or a soft break is an error. */
  lemma NoBlock(e: Event, body: seq<Event>)
    requires !e.Rule? && !e.SoftBreak?
    ensures ParseFrontmatter([e] + body) == Failure(FrontmatterNotFound)
  {
  }

  /** A soft break before the block stores an empty line, which has no
      colon. */
  lemma LeadingSoftBreak(body: seq<Event>)
    ensures ParseFrontmatter([SoftBreak] + body) == Failure(MissingColon(""))
  {
  }

  /** Two breaks in a row are an empty block. */
  lemma EmptyBlock(body: seq<Event>)
    ensures ParseFrontmatter([Rule, Rule] + body) == Success(Parsed(map[], body))
  {
    assert [Rule, Rule] + body == [Rule] + ([Rule] + body);
    OpeningRule([Rule] + body, map[], "");
    ClosingRule(body, map[], "");
  }
}
