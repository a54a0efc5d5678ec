/** Incremental splitting of a server-sent event stream and the transcript shown from it. */
module Sse {
  import opened Basics
  import opened Json
  import opened Text

  // ---------------------------------------------------------------- cutting at blank lines

  /** The text before and after the first "\n\n". */
  function Cut(s: string): (r: Option<(string, string)>)
    ensures r.Some? ==> |r.value.1| + 2 <= |s|
  {
    if |s| < 2 then None
    else if s[0] == '\n' && s[1] == '\n' then Some(("", s[2..]))
    else
      match Cut(s[1..])
      case Some((a, b)) => Some(([s[0]] + a, b))
      case None => None
  }

  /** The complete events of a text: all pieces of `split("\n\n")` but the last. */
  function Events(s: string): seq<string>
    decreases |s|
  {
    match Cut(s)
    case Some((a, b)) => [a] + Events(b)
    case None => []
  }

  /** The last piece, which the next chunk continues. */
  function Rest(s: string): string
    decreases |s|
  {
    match Cut(s)
    case Some((_, b)) => Rest(b)
    case None => s
  }

  // ---------------------------------------------------------------- reading one event

  /** ECMAScript white space and line terminators. */
  predicate IsJsSpace(c: char) {
    var n := c as int;
    || 0x9 <= n <= 0xD
    || n == 0x20 || n == 0xA0 || n == 0xFEFF || n == 0x1680
    || 0x2000 <= n <= 0x200A
    || n == 0x2028 || n == 0x2029 || n == 0x202F || n == 0x205F || n == 0x3000
  }

  /** Rust's white space without the next-line character and with the byte order mark. */
  lemma JsSpaceExact(c: char)
    ensures IsJsSpace(c) <==> (IsWhitespace(c) && c as int != 0x85) || c as int == 0xFEFF
  {
  }

  function TrimJsStart(s: string): string {
    if s != "" && IsJsSpace(s[0]) then TrimJsStart(s[1..]) else s
  }

  function SplitLines(s: string): (r: seq<string>)
    ensures r != []
  {
    if s == "" then [""]
    else
      var rest := SplitLines(s[1..]);
      if s[0] == '\n' then [""] + rest else [[s[0]] + rest[0]] + rest[1..]
  }

  function DataLines(lines: seq<string>): seq<string> {
    if lines == [] then []
    else (if "data:" <= lines[0] then [TrimJsStart(lines[0][5..])] else []) + DataLines(lines[1..])
  }

  function JoinLines(lines: seq<string>): string {
    if lines == [] then ""
    else if |lines| == 1 then lines[0]
    else lines[0] + "\n" + JoinLines(lines[1..])
  }

  function Data(event: string): string {
    JoinLines(DataLines(SplitLines(event)))
  }

  predicate Skipped(event: string) {
    Data(event) == "" || Data(event) == "[DONE]"
  }

  /** `JSON.parse`; `None` is a thrown syntax error. */
  type JsonParse = string -> Option<Value>

  /** The payloads of the events in order, or `None` when one of them does not parse. */
  function Payloads(parse: JsonParse, events: seq<string>): Option<seq<Value>> {
    if events == [] then Some([])
    else if Skipped(events[0]) then Payloads(parse, events[1..])
    else
      var first :- parse(Data(events[0]));
      var rest :- Payloads(parse, events[1..]);
      Some([first] + rest)
  }

  datatype Split = Split(payloads: seq<Value>, rest: string)

  /** `splitSse`: the payloads completed by this chunk and the new buffer; `None` throws. */
  method SplitSse(parse: JsonParse, buffer: string, chunk: string) returns (r: Option<Split>)
    ensures
      var payloads := Payloads(parse, Events(buffer + chunk));
      r == if payloads.Some? then Some(Split(payloads.value, Rest(buffer + chunk))) else None
  {
    var next := buffer + chunk;
    var events := Events(next);
    var payloads := [];
    assert events[0..] == events;
    AfterNothing(Payloads(parse, events));
    for k := 0 to |events|
      invariant Payloads(parse, events) == After(payloads, Payloads(parse, events[k..]))
    {
      assert events[k..][1..] == events[k + 1..];
      if Skipped(events[k]) { continue; }
      var parsed := parse(Data(events[k]));
      if parsed.None? { return None; }
      AfterAppend(payloads, parsed.value, Payloads(parse, events[k + 1..]));
      payloads := payloads + [parsed.value];
    }
    assert payloads + [] == payloads;
    return Some(Split(payloads, Rest(next)));
  }

  function After(done: seq<Value>, rest: Option<seq<Value>>): Option<seq<Value>> {
    match rest
    case Some(vs) => Some(done + vs)
    case None => None
  }

  lemma AfterNothing(rest: Option<seq<Value>>)
    ensures After([], rest) == rest
  {
    if rest.Some? { assert [] + rest.value == rest.value; }
  }

  lemma AfterAppend(done: seq<Value>, v: Value, rest: Option<seq<Value>>)
    ensures After(done + [v], rest) == After(done, After([v], rest))
  {
    if rest.Some? { assert done + [v] + rest.value == done + ([v] + rest.value); }
  }

  // ---------------------------------------------------------------- the transcript

  /** The value a JavaScript object holds under a key: the last member wins. */
  function Property(v: Value, key: string): Option<Value> {
    if !v.Obj? then None else LastOf(v.members, key)
  }

  function LastOf(ms: seq<Member>, key: string): Option<Value> {
    if ms == [] then None
    else if ms[|ms| - 1].key == key then Some(ms[|ms| - 1].value)
    else LastOf(ms[..|ms| - 1], key)
  }

  /** `contentTextFromPayload`; `None` is the error thrown for an error payload. */
  function ContentText(v: Value): Option<string> {
    if Property(v, "type") == Some(Str("error")) then None
    else if Property(v, "type") == Some(Str("content")) then
      match Property(v, "text")
      case Some(Str(t)) => Some(t)
      case _ => Some("")
    else Some("")
  }

  /** The members of this key, the last of which counts. */
  predicate LastMember(v: Value, key: string, value: Value) {
    v.Obj? && exists i :: 0 <= i < |v.members| && IsLast(v.members, i, key) && v.members[i].value == value
  }

  predicate IsLast(ms: seq<Member>, i: nat, key: string)
    requires i < |ms|
  {
    ms[i].key == key && forall j :: i < j < |ms| ==> ms[j].key != key
  }

  lemma {:induction false} LastOfFound(ms: seq<Member>, key: string) returns (i: nat)
    ensures LastOf(ms, key).Some? ==>
      i < |ms| && IsLast(ms, i, key) && LastOf(ms, key).value == ms[i].value
    ensures LastOf(ms, key).None? ==> forall j :: 0 <= j < |ms| ==> ms[j].key != key
  {
    if ms == [] {
      i := 0;
    } else if ms[|ms| - 1].key == key {
      i := |ms| - 1;
    } else {
      i := LastOfFound(ms[..|ms| - 1], key);
    }
  }

  lemma LastOfExact(ms: seq<Member>, key: string, value: Value)
    ensures LastOf(ms, key) == Some(value) <==> LastMember(Obj(ms), key, value)
  {
    var k := LastOfFound(ms, key);
    if i :| 0 <= i < |ms| && IsLast(ms, i, key) && ms[i].value == value {
      assert LastOf(ms, key).Some? ==> i == k;
    }
  }

  /** WHAT A PAYLOAD SHOWS: an error payload fails; a content payload with a text shows that text;
      every other payload shows nothing. */
  lemma ContentExact(v: Value, t: string)
    ensures ContentText(v).None? <==> LastMember(v, "type", Str("error"))
    ensures LastMember(v, "type", Str("content")) && LastMember(v, "text", Str(t)) ==> ContentText(v) == Some(t)
    ensures ContentText(v) == Some(t) && t != "" ==>
      LastMember(v, "type", Str("content")) && LastMember(v, "text", Str(t))
  {
    if v.Obj? {
      LastOfExact(v.members, "type", Str("error"));
      LastOfExact(v.members, "type", Str("content"));
      LastOfExact(v.members, "text", Str(t));
    }
  }

  /** The text of the payloads up to the first error payload, and whether there was none. */
  function Shown(payloads: seq<Value>): (string, bool) {
    if payloads == [] then ("", true)
    else
      match ContentText(payloads[0])
      case None => ("", false)
      case Some(t) =>
        var rest := Shown(payloads[1..]);
        (t + rest.0, rest.1)
  }

  datatype Client =
    | Reading(buffer: string, payloads: seq<Value>, transcript: string)
    | Failed(transcript: string)

  /** One turn of the reading loop. */
  function Receive(parse: JsonParse, c: Client, chunk: string): Client {
    match c
    case Failed(_) => c
    case Reading(buffer, payloads, transcript) =>
      match Payloads(parse, Events(buffer + chunk))
      case None => Failed(transcript)
      case Some(more) =>
        var shown := Shown(more);
        if shown.1 then Reading(Rest(buffer + chunk), payloads + more, transcript + shown.0)
        else Failed(transcript + shown.0)
  }

  function ReceiveAll(parse: JsonParse, chunks: seq<string>): Client {
    if chunks == [] then Reading("", [], "")
    else Receive(parse, ReceiveAll(parse, chunks[..|chunks| - 1]), chunks[|chunks| - 1])
  }

  function Concat(chunks: seq<string>): string {
    if chunks == [] then "" else Concat(chunks[..|chunks| - 1]) + chunks[|chunks| - 1]
  }

  // ---------------------------------------------------------------- chunking does not matter

  lemma {:induction false} CutAppend(s: string, t: string)
    requires Cut(s).Some?
    ensures Cut(s + t) == Some((Cut(s).value.0, Cut(s).value.1 + t))
  {
    if s[0] == '\n' && s[1] == '\n' {
      assert (s + t)[2..] == s[2..] + t;
    } else {
      assert (s + t)[1..] == s[1..] + t;
      CutAppend(s[1..], t);
    }
  }

  /** Splitting in two steps, carrying the rest over, is splitting once. */
  lemma {:induction false} SplitAppend(s: string, t: string)
    ensures Events(s + t) == Events(s) + Events(Rest(s) + t)
    ensures Rest(s + t) == Rest(Rest(s) + t)
    decreases |s|
  {
    if Cut(s).Some? {
      CutAppend(s, t);
      SplitAppend(Cut(s).value.1, t);
    }
  }

  lemma {:induction false} PayloadsAppend(parse: JsonParse, a: seq<string>, b: seq<string>)
    ensures Payloads(parse, a + b) ==
      if Payloads(parse, a).Some? then After(Payloads(parse, a).value, Payloads(parse, b)) else None
  {
    if a == [] {
      assert a + b == b;
      AfterNothing(Payloads(parse, b));
    } else {
      assert (a + b)[1..] == a[1..] + b;
      PayloadsAppend(parse, a[1..], b);
      if !Skipped(a[0]) && parse(Data(a[0])).Some? && Payloads(parse, a[1..]).Some? && Payloads(parse, b).Some? {
        var v, x, y := parse(Data(a[0])).value, Payloads(parse, a[1..]).value, Payloads(parse, b).value;
        assert [v] + (x + y) == [v] + x + y;
      }
    }
  }

  lemma {:induction false} ShownAppend(a: seq<Value>, b: seq<Value>)
    ensures Shown(a + b) == if Shown(a).1 then (Shown(a).0 + Shown(b).0, Shown(b).1) else Shown(a)
  {
    if a == [] {
      assert a + b == b;
      assert "" + Shown(b).0 == Shown(b).0;
    } else {
      assert (a + b)[1..] == a[1..] + b;
      ShownAppend(a[1..], b);
      if ContentText(a[0]).Some? && Shown(a[1..]).1 {
        var t := ContentText(a[0]).value;
        assert t + (Shown(a[1..]).0 + Shown(b).0) == t + Shown(a[1..]).0 + Shown(b).0;
      }
    }
  }

  /** Every complete event of the text parses and none is an error. */
  predicate AllGood(parse: JsonParse, text: string) {
    var p := Payloads(parse, Events(text));
    p.Some? && Shown(p.value).1
  }

  /** CHUNKING DOES NOT MATTER: however a text is cut, the client is still reading iff every
      complete event of the whole text is good, and then its buffer, payloads and transcript
      are those of the whole text. */
  lemma {:induction false} ChunkingIrrelevant(parse: JsonParse, chunks: seq<string>)
    ensures
      var c, text := ReceiveAll(parse, chunks), Concat(chunks);
      && (c.Reading? <==> AllGood(parse, text))
      && (c.Reading? ==>
            var p := Payloads(parse, Events(text)).value; c == Reading(Rest(text), p, Shown(p).0))
    decreases |chunks|
  {
    if chunks != [] {
      var before, chunk := chunks[..|chunks| - 1], chunks[|chunks| - 1];
      ChunkingIrrelevant(parse, before);
      var text := Concat(before);
      SplitAppend(text, chunk);
      PayloadsAppend(parse, Events(text), Events(Rest(text) + chunk));
      if Payloads(parse, Events(text)).Some? && Payloads(parse, Events(Rest(text) + chunk)).Some? {
        ShownAppend(Payloads(parse, Events(text)).value, Payloads(parse, Events(Rest(text) + chunk)).value);
      }
    }
  }

  /** In particular two ways of cutting one text fail together, and while they do not fail they
      agree in buffer, payloads and transcript. */
  lemma CuttingsAgree(parse: JsonParse, a: seq<string>, b: seq<string>)
    requires Concat(a) == Concat(b)
    ensures ReceiveAll(parse, a).Reading? == ReceiveAll(parse, b).Reading?
    ensures ReceiveAll(parse, a).Reading? ==> ReceiveAll(parse, a) == ReceiveAll(parse, b)
  {
    ChunkingIrrelevant(parse, a);
    ChunkingIrrelevant(parse, b);
  }

  // ---------------------------------------------------------------- the transcript of a failed read

  /** The text of the events before the first one that does not parse or is an error. */
  function GoodText(parse: JsonParse, events: seq<string>): string {
    if events == [] then ""
    else if Skipped(events[0]) then GoodText(parse, events[1..])
    else
      match parse(Data(events[0]))
      case None => ""
      case Some(v) =>
        match ContentText(v)
        case None => ""
        case Some(t) => t + GoodText(parse, events[1..])
  }

  lemma {:induction false} GoodTextShown(parse: JsonParse, events: seq<string>)
    requires Payloads(parse, events).Some?
    ensures GoodText(parse, events) == Shown(Payloads(parse, events).value).0
  {
    if events != [] {
      GoodTextShown(parse, events[1..]);
      if !Skipped(events[0]) {
        var v, rest := parse(Data(events[0])).value, Payloads(parse, events[1..]).value;
        assert ([v] + rest)[1..] == rest;
      }
    }
  }

  predicate GoodEvents(parse: JsonParse, events: seq<string>) {
    var p := Payloads(parse, events);
    p.Some? && Shown(p.value).1
  }

  lemma {:induction false} GoodTextAppend(parse: JsonParse, a: seq<string>, b: seq<string>)
    ensures GoodText(parse, a + b) ==
      if GoodEvents(parse, a) then GoodText(parse, a) + GoodText(parse, b) else GoodText(parse, a)
  {
    if a == [] {
      assert a + b == b;
    } else {
      assert (a + b)[1..] == a[1..] + b;
      GoodTextAppend(parse, a[1..], b);
      GoodEventsCons(parse, a);
      if !Skipped(a[0]) && parse(Data(a[0])).Some? && ContentText(parse(Data(a[0])).value).Some? {
        var t := ContentText(parse(Data(a[0])).value).value;
        Associative(t, GoodText(parse, a[1..]), GoodText(parse, b));
      }
    }
  }

  lemma GoodEventsCons(parse: JsonParse, events: seq<string>)
    requires events != []
    ensures GoodEvents(parse, events) <==>
      && GoodEvents(parse, events[1..])
      && (Skipped(events[0]) ||
          (parse(Data(events[0])).Some? && ContentText(parse(Data(events[0])).value).Some?))
  {
    if !Skipped(events[0]) && parse(Data(events[0])).Some? && Payloads(parse, events[1..]).Some? {
      var v, rest := parse(Data(events[0])).value, Payloads(parse, events[1..]).value;
      assert ([v] + rest)[1..] == rest;
    }
  }

  /** The good text of the chunk in which the read fails, if that chunk completes an event that
      does not parse: splitting throws before any payload of the chunk is shown. */
  function Lost(parse: JsonParse, chunks: seq<string>): string {
    if chunks == [] then ""
    else
      var before := chunks[..|chunks| - 1];
      if !AllGood(parse, Concat(before)) then Lost(parse, before)
      else
        var completed := Events(Rest(Concat(before)) + chunks[|chunks| - 1]);
        if Payloads(parse, completed).None? then GoodText(parse, completed) else ""
  }

  /** WHAT A READ SHOWS, failed or not: the good text of the whole stream without the part that
      the failing chunk loses. */
  lemma {:induction false} ShownUpToLoss(parse: JsonParse, chunks: seq<string>)
    ensures ReceiveAll(parse, chunks).transcript + Lost(parse, chunks) == GoodText(parse, Events(Concat(chunks)))
    decreases |chunks|
  {
    if chunks != [] {
      var before, chunk := chunks[..|chunks| - 1], chunks[|chunks| - 1];
      var text := Concat(before);
      ShownUpToLoss(parse, before);
      ChunkingIrrelevant(parse, before);
      SplitAppend(text, chunk);
      GoodTextAppend(parse, Events(text), Events(Rest(text) + chunk));
      if AllGood(parse, text) {
        GoodTextShown(parse, Events(text));
        LossOfChunk(parse, ReceiveAll(parse, before), chunk);
      }
    }
  }

  lemma LossOfChunk(parse: JsonParse, c: Client, chunk: string)
    requires c.Reading?
    ensures
      var completed := Events(c.buffer + chunk);
      Receive(parse, c, chunk).transcript
        + (if Payloads(parse, completed).None? then GoodText(parse, completed) else "")
      == c.transcript + GoodText(parse, completed)
  {
    var completed := Events(c.buffer + chunk);
    if Payloads(parse, completed).Some? { GoodTextShown(parse, completed); }
  }

  /** WHEN CUTTINGS SHOW THE SAME: two ways of cutting one text end with the same transcript iff
      they lose equally much; nothing is lost unless the read fails. */
  lemma TranscriptsAgreeIff(parse: JsonParse, a: seq<string>, b: seq<string>)
    requires Concat(a) == Concat(b)
    ensures ReceiveAll(parse, a).transcript == ReceiveAll(parse, b).transcript <==>
      |Lost(parse, a)| == |Lost(parse, b)|
    ensures AllGood(parse, Concat(a)) ==> Lost(parse, a) == ""
  {
    ShownUpToLoss(parse, a);
    ShownUpToLoss(parse, b);
    var x, y := ReceiveAll(parse, a).transcript, ReceiveAll(parse, b).transcript;
    SamePrefix(x, Lost(parse, a), y, Lost(parse, b));
    if AllGood(parse, Concat(a)) {
      ChunkingIrrelevant(parse, a);
      GoodTextShown(parse, Events(Concat(a)));
    }
  }

  lemma SamePrefix(x: string, u: string, y: string, v: string)
    requires x + u == y + v
    ensures x == y <==> |u| == |v|
  {
    if |u| == |v| { assert x == (x + u)[..|x|] && y == (y + v)[..|y|]; }
  }

  /** If every event of the stream parses, and it fails only by an error payload, no cutting
      loses anything. */
  lemma {:induction false} NothingLostIfAllParse(parse: JsonParse, chunks: seq<string>)
    requires Payloads(parse, Events(Concat(chunks))).Some?
    ensures Lost(parse, chunks) == ""
    decreases |chunks|
  {
    if chunks != [] {
      var before, chunk := chunks[..|chunks| - 1], chunks[|chunks| - 1];
      SplitAppend(Concat(before), chunk);
      PayloadsAppend(parse, Events(Concat(before)), Events(Rest(Concat(before)) + chunk));
      NothingLostIfAllParse(parse, before);
    }
  }

  // ---------------------------------------------------------------- what the server sends

  /** A frame as the server emits it. */
  function Frame(payload: string): string {
    "data: " + payload + "\n\n"
  }

  function Frames(payloads: seq<string>): string {
    if payloads == [] then "" else Frame(payloads[0]) + Frames(payloads[1..])
  }

  /** A payload of one line that does not start with a blank and is not the end marker. */
  predicate Sendable(payload: string) {
    && '\n' !in payload && payload != "" && payload != "[DONE]" && !IsJsSpace(payload[0])
  }

  lemma {:induction false} CutFirst(event: string, rest: string)
    requires '\n' !in event
    ensures Cut(event + "\n\n" + rest) == Some((event, rest))
  {
    var s := event + "\n\n" + rest;
    if event == "" {
      assert s[2..] == rest;
    } else {
      assert s[0] == event[0] && s[1..] == event[1..] + "\n\n" + rest;
      CutFirst(event[1..], rest);
      assert [event[0]] + event[1..] == event;
    }
  }

  lemma {:induction false} SplitOneLine(line: string)
    requires '\n' !in line
    ensures SplitLines(line) == [line]
  {
    if line != "" {
      SplitOneLine(line[1..]);
      assert [line[0]] + line[1..] == line;
    }
  }

  /** The data of a frame is its payload. */
  lemma FrameData(payload: string)
    requires Sendable(payload)
    ensures Data("data: " + payload) == payload
  {
    var event := "data: " + payload;
    SplitOneLine(event);
    assert event[..5] == "data:" && event[5..] == " " + payload;
    assert (" " + payload)[1..] == payload;
    assert TrimJsStart(" " + payload) == TrimJsStart(payload) == payload;
    OneDataLine(event);
  }

  lemma OneDataLine(event: string)
    requires "data:" <= event
    ensures DataLines([event]) == [TrimJsStart(event[5..])]
  {
    var after: seq<string> := [event][1..];
    assert after == [] && DataLines(after) == [];
  }

  /** Splitting undoes joining. */
  lemma {:induction false} SplitJoined(lines: seq<string>)
    requires lines != [] && forall i :: 0 <= i < |lines| ==> '\n' !in lines[i]
    ensures SplitLines(JoinLines(lines)) == lines
  {
    if |lines| == 1 {
      SplitOneLine(lines[0]);
    } else {
      SplitJoined(lines[1..]);
      SplitFirstLine(lines[0], JoinLines(lines[1..]));
      assert lines == [lines[0]] + lines[1..];
    }
  }

  lemma {:induction false} SplitFirstLine(line: string, rest: string)
    requires '\n' !in line
    ensures SplitLines(line + "\n" + rest) == [line] + SplitLines(rest)
  {
    var s := line + "\n" + rest;
    if line == "" {
      assert s[1..] == rest;
    } else {
      assert s[1..] == line[1..] + "\n" + rest;
      SplitFirstLine(line[1..], rest);
      assert [line[0]] + line[1..] == line;
    }
  }

  function DataPrefixed(lines: seq<string>): seq<string> {
    if lines == [] then [] else ["data: " + lines[0]] + DataPrefixed(lines[1..])
  }

  lemma {:induction false} DataLinesOf(lines: seq<string>)
    requires forall i :: 0 <= i < |lines| ==> Sendable(lines[i])
    ensures DataLines(DataPrefixed(lines)) == lines
    ensures forall i :: 0 <= i < |DataPrefixed(lines)| ==> '\n' !in DataPrefixed(lines)[i]
    ensures |DataPrefixed(lines)| == |lines|
  {
    if lines != [] {
      DataLinesOf(lines[1..]);
      var event := "data: " + lines[0];
      assert event[..5] == "data:" && event[5..] == " " + lines[0] && (" " + lines[0])[1..] == lines[0];
      assert TrimJsStart(" " + lines[0]) == TrimJsStart(lines[0]) == lines[0];
      assert DataPrefixed(lines)[1..] == DataPrefixed(lines[1..]);
      assert lines == [lines[0]] + lines[1..];
    }
  }

  /** A payload of several lines, each sent as a data line of one event, is read back with its
      line breaks. */
  lemma ManyDataLines(lines: seq<string>)
    requires lines != [] && forall i :: 0 <= i < |lines| ==> Sendable(lines[i])
    ensures Data(JoinLines(DataPrefixed(lines))) == JoinLines(lines)
  {
    DataLinesOf(lines);
    SplitJoined(DataPrefixed(lines));
  }

  /** The end marker and events without a data line yield no payload. */
  lemma NothingToRead(parse: JsonParse, line: string, rest: seq<string>)
    requires '\n' !in line && (line == "data: [DONE]" || !("data:" <= line))
    ensures Payloads(parse, [line] + rest) == Payloads(parse, rest)
  {
    SplitOneLine(line);
    assert ([line] + rest)[1..] == rest;
    if line == "data: [DONE]" {
      OneDataLine(line);
      assert line[5..] == " [DONE]" && " [DONE]"[1..] == "[DONE]";
      assert TrimJsStart(" [DONE]") == TrimJsStart("[DONE]") == "[DONE]";
    } else {
      var none: seq<string> := [line][1..];
      assert none == [] && DataLines(none) == [] && DataLines([line]) == [];
    }
  }

  lemma FirstFrame(payload: string, rest: string)
    requires Sendable(payload)
    ensures Events(Frame(payload) + rest) == ["data: " + payload] + Events(rest)
    ensures Rest(Frame(payload) + rest) == Rest(rest)
  {
    CutFirst("data: " + payload, rest);
  }

  function ParseAll(parse: JsonParse, payloads: seq<string>): Option<seq<Value>> {
    if payloads == [] then Some([])
    else
      var first :- parse(payloads[0]);
      var rest :- ParseAll(parse, payloads[1..]);
      Some([first] + rest)
  }

  lemma {:induction false} FramesReadBack(parse: JsonParse, payloads: seq<string>)
    requires forall i :: 0 <= i < |payloads| ==> Sendable(payloads[i])
    ensures Payloads(parse, Events(Frames(payloads))) == ParseAll(parse, payloads)
    ensures Rest(Frames(payloads)) == ""
  {
    if payloads != [] {
      FramesReadBack(parse, payloads[1..]);
      FirstFrame(payloads[0], Frames(payloads[1..]));
      FrameData(payloads[0]);
      var tail := Events(Frames(payloads[1..]));
      assert (["data: " + payloads[0]] + tail)[1..] == tail;
    }
  }

  /** END TO END: whatever frames the server sends and however the network cuts them, the
      client ends with an empty buffer, every payload in order and their text as transcript;
      it fails iff some payload does not parse or is an error. */
  lemma StreamDelivered(parse: JsonParse, payloads: seq<string>, chunks: seq<string>)
    requires forall i :: 0 <= i < |payloads| ==> Sendable(payloads[i])
    requires Concat(chunks) == Frames(payloads)
    ensures
      var sent, c := ParseAll(parse, payloads), ReceiveAll(parse, chunks);
      if sent.Some? && Shown(sent.value).1 then c == Reading("", sent.value, Shown(sent.value).0) else c.Failed?
  {
    ChunkingIrrelevant(parse, chunks);
    FramesReadBack(parse, payloads);
  }

  /** A good frame and one that does not parse: read in two chunks the good text is shown, read
      in one it is lost. */
  lemma OneChunkLosesText(parse: JsonParse, good: string, bad: string, v: Value, t: string)
    requires Sendable(good) && Sendable(bad)
    requires parse(good) == Some(v) && ContentText(v) == Some(t) && parse(bad) == None
    ensures ReceiveAll(parse, [Frame(good), Frame(bad)]) == Failed(t)
    ensures ReceiveAll(parse, [Frame(good) + Frame(bad)]) == Failed("")
  {
    FrameEvents(parse, good);
    FrameEvents(parse, bad);
    FirstFrame(good, Frame(bad));
    var one, two := [Frame(good) + Frame(bad)], [Frame(good), Frame(bad)];
    assert one[..0] == [] && two[..1] == [Frame(good)] && two[..1][..0] == [];
    assert "" + (Frame(good) + Frame(bad)) == Frame(good) + Frame(bad) && "" + Frame(good) == Frame(good);
    assert "" + Frame(bad) == Frame(bad);
    FirstBad(parse, good, bad);
    assert Shown([v]) == (t, true) by { assert [v][1..] == [] && t + "" == t; }
    assert ReceiveAll(parse, [Frame(good)]) == Reading("", [v], t) by {
      assert [Frame(good)][..0] == [] && [] + [v] == [v] && "" + t == t;
    }
  }

  lemma FrameEvents(parse: JsonParse, payload: string)
    requires Sendable(payload)
    ensures Events(Frame(payload)) == ["data: " + payload] && Rest(Frame(payload)) == ""
    ensures Payloads(parse, Events(Frame(payload))) ==
      if parse(payload).Some? then Some([parse(payload).value]) else None
  {
    FirstFrame(payload, "");
    FrameData(payload);
    assert Frame(payload) + "" == Frame(payload);
    var none: seq<string> := ["data: " + payload][1..];
    assert none == [] && Payloads(parse, none) == Some([]);
    if parse(payload).Some? { assert [parse(payload).value] + [] == [parse(payload).value]; }
  }

  lemma FirstBad(parse: JsonParse, good: string, bad: string)
    requires Sendable(good) && Sendable(bad) && parse(bad) == None
    ensures Payloads(parse, Events(Frame(good) + Frame(bad))) == None
  {
    FirstFrame(good, Frame(bad));
    FrameEvents(parse, good);
    FrameEvents(parse, bad);
    PayloadsAppend(parse, ["data: " + good], Events(Frame(bad)));
  }
}
