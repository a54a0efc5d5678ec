/** ACP messages as newline-delimited JSON-RPC 2.0 frames. */
module AcpWire {
  import opened Basics
  import opened Text
  import opened Json
  import opened JcsCanonical

  type i64 = n: int | -0x8000_0000_0000_0000 <= n <= 0x7fff_ffff_ffff_ffff

  datatype RequestId = Name(s: string) | Number(n: i64)
  datatype ErrorObject = ErrorObject(code: i64, message: string, data: Option<Value>)

  datatype Message =
    | Request(jsonrpc: string, id: RequestId, verb: string, params: Option<Value>)
    | Response(jsonrpc: string, id: RequestId, result: Option<Value>, error: Option<ErrorObject>)
    | Notification(jsonrpc: string, verb: string, params: Option<Value>)

  datatype AcpError =
    | InvalidVersion | InvalidMessage | EmbeddedNewline | EmptyFrame | BadJson | NonObjectFrame

  const JSONRPC_VERSION := "2.0"

  // ---------------------------------------------------------------- validation

  datatype Payload = Success(value: Value) | Failure(error: ErrorObject)

  function PayloadOf(result: Option<Value>, error: Option<ErrorObject>): Result<Payload, AcpError> {
    match (result, error)
    case (Some(v), None) => Ok(Success(v))
    case (None, Some(e)) => Ok(Failure(e))
    case (_, _) => Err(InvalidMessage)
  }

  function Validate(m: Message): Result<(), AcpError> {
    if m.jsonrpc != JSONRPC_VERSION then Err(InvalidVersion)
    else
      match m
      case Response(_, _, result, error) =>
        var _ :- PayloadOf(result, error);
        Ok(())
      case _ => if Trim(m.verb) == "" then Err(InvalidMessage) else Ok(())
  }

  /** WHICH MESSAGES ARE VALID: version "2.0", and a verb that is not blank, or in a response
      exactly one of result and error. */
  lemma ValidIff(m: Message)
    ensures Validate(m).Ok? <==>
      && m.jsonrpc == "2.0"
      && if m.Response? then m.result.Some? != m.error.Some? else !Blank(m.verb)
    ensures Validate(m) == Err(InvalidVersion) <==> m.jsonrpc != "2.0"
    ensures Validate(m).Err? ==> Validate(m).error in {InvalidVersion, InvalidMessage}
  {
    if !m.Response? { TrimBlank(m.verb); }
  }

  // ---------------------------------------------------------------- messages as JSON values

  /** A field that is skipped when absent. */
  function Optional(key: string, v: Option<Value>): seq<Member> {
    match v
    case Some(value) => [Member(key, value)]
    case None => []
  }

  function IdValue(id: RequestId): Value {
    match id
    case Name(s) => Str(s)
    case Number(n) => Num(n)
  }

  function ErrorValue(e: ErrorObject): Value {
    Obj([Member("code", Num(e.code)), Member("message", Str(e.message))] + Optional("data", e.data))
  }

  function ToValue(m: Message): Value {
    match m
    case Request(rpc, id, verb, params) =>
      Obj([Member("jsonrpc", Str(rpc)), Member("id", IdValue(id)), Member("method", Str(verb))]
          + Optional("params", params))
    case Response(rpc, id, result, error) =>
      Obj([Member("jsonrpc", Str(rpc)), Member("id", IdValue(id))] + Optional("result", result)
          + Optional("error", if error.Some? then Some(ErrorValue(error.value)) else None))
    case Notification(rpc, verb, params) =>
      Obj([Member("jsonrpc", Str(rpc)), Member("method", Str(verb))] + Optional("params", params))
  }

  function Field(ms: seq<Member>, key: string): Option<Value> {
    if ms == [] then None
    else if ms[0].key == key then Some(ms[0].value)
    else Field(ms[1..], key)
  }

  /** An optional field: absent and `null` both read as nothing. */
  function Present(v: Option<Value>): Option<Value> {
    if v == Some(Null) then None else v
  }

  function ReadText(v: Option<Value>): Option<string> {
    if v.Some? && v.value.Str? then Some(v.value.s) else None
  }

  function ReadId(v: Option<Value>): Option<RequestId> {
    match v
    case Some(Str(s)) => Some(Name(s))
    case Some(Num(n)) => if I64_MIN <= n <= I64_MAX then Some(Number(n)) else None
    case _ => None
  }

  function ReadError(v: Value): Option<ErrorObject> {
    if !v.Obj? then None
    else
      var message :- ReadText(Field(v.members, "message"));
      match Field(v.members, "code")
      case Some(Num(n)) =>
        if I64_MIN <= n <= I64_MAX then Some(ErrorObject(n, message, Present(Field(v.members, "data")))) else None
      case _ => None
  }

  function ReadRequest(ms: seq<Member>): Option<Message> {
    var rpc :- ReadText(Field(ms, "jsonrpc"));
    var id :- ReadId(Field(ms, "id"));
    var verb :- ReadText(Field(ms, "method"));
    Some(Request(rpc, id, verb, Present(Field(ms, "params"))))
  }

  function ReadResponse(ms: seq<Member>): Option<Message> {
    var rpc :- ReadText(Field(ms, "jsonrpc"));
    var id :- ReadId(Field(ms, "id"));
    var result := Present(Field(ms, "result"));
    var error := Present(Field(ms, "error"));
    if error.None? then Some(Response(rpc, id, result, None))
    else
      var e :- ReadError(error.value);
      Some(Response(rpc, id, result, Some(e)))
  }

  function ReadNotification(ms: seq<Member>): Option<Message> {
    var rpc :- ReadText(Field(ms, "jsonrpc"));
    var verb :- ReadText(Field(ms, "method"));
    Some(Notification(rpc, verb, Present(Field(ms, "params"))))
  }

  /** The untagged enum: the first variant that fits, in declaration order. */
  function FromMembers(ms: seq<Member>): Option<Message> {
    var request := ReadRequest(ms);
    var response := ReadResponse(ms);
    if request.Some? then request
    else if response.Some? then response
    else ReadNotification(ms)
  }

  // ---------------------------------------------------------------- frames

  function Encode(m: Message): Result<string, AcpError> {
    var _ :- Validate(m);
    var json := Print(ToValue(m));
    if '\n' in json || '\r' in json then Err(EmbeddedNewline) else Ok(json + "\n")
  }

  /** Without one character `c` at the end. */
  function StripLast(s: string, c: char): string {
    if s != "" && s[|s| - 1] == c then s[..|s| - 1] else s
  }

  function StripLineEnding(line: string): string {
    StripLast(StripLast(line, '\n'), '\r')
  }

  /** `serde_json::from_str`, whatever it accepts beyond compact text. */
  type JsonReader = string -> Option<Value>

  function Decode(read: JsonReader, line: string): Result<Message, AcpError> {
    var text := StripLineEnding(line);
    if text == "" then Err(EmptyFrame)
    else if '\n' in text || '\r' in text then Err(EmbeddedNewline)
    else
      match read(text)
      case None => Err(BadJson)
      case Some(v) =>
        if !v.Obj? then Err(NonObjectFrame)
        else
          match FromMembers(v.members)
          case None => Err(BadJson)
          case Some(m) =>
            var _ :- Validate(m);
            Ok(m)
  }

  /** The line is the text and a line ending, or the text alone. */
  predicate LineOf(line: string, text: string) {
    line == text || line == text + "\n" || line == text + "\r\n" || line == text + "\r"
  }

  /** No line ending at the end. */
  predicate Unended(text: string) {
    text == "" || (text[|text| - 1] != '\n' && text[|text| - 1] != '\r')
  }

  lemma StripAppended(text: string, c: char)
    ensures StripLast(text + [c], c) == text
  {
    assert (text + [c])[..|text|] == text;
  }

  lemma StripExact(line: string, text: string)
    requires LineOf(line, text) && Unended(text)
    ensures StripLineEnding(line) == text
  {
    StripAppended(text, '\r');
    if line == text + "\r\n" {
      StripAppended(text + "\r", '\n');
      assert line == text + "\r" + "\n";
    } else if line == text + "\n" {
      StripAppended(text, '\n');
    } else if line == text + "\r" {
      assert StripLast(line, '\n') == line;
    }
  }

  /** WHICH LINES DECODE, with or without a line ending: a text without line breaks that reads as
      an object of a valid message; and which error each other line gives. */
  lemma DecodesExactly(read: JsonReader, line: string, text: string, m: Message)
    requires LineOf(line, text) && Unended(text)
    ensures Decode(read, line) == Ok(m) <==>
      && text != "" && '\n' !in text && '\r' !in text
      && read(text).Some? && read(text).value.Obj?
      && FromMembers(read(text).value.members) == Some(m) && Validate(m).Ok?
    ensures Decode(read, line) == Err(EmptyFrame) <==> text == ""
    ensures Decode(read, line) == Err(EmbeddedNewline) <==> '\n' in text || '\r' in text
    ensures Decode(read, line) == Err(NonObjectFrame) <==>
      text != "" && '\n' !in text && '\r' !in text && read(text).Some? && !read(text).value.Obj?
  {
    StripExact(line, text);
    var v := read(text);
    if v.Some? && v.value.Obj? && FromMembers(v.value.members).Some? { ValidIff(FromMembers(v.value.members).value); }
  }

  /** `read_until(b'\n')`: through the first newline, or to the end. */
  function FrameLength(s: string): (n: nat)
    ensures n <= |s| && (s != "" ==> n > 0)
  {
    if s == "" then 0 else if s[0] == '\n' then 1 else 1 + FrameLength(s[1..])
  }

  class FrameReader {
    var inner: string

    constructor (stream: string)
      ensures inner == stream
    { inner := stream; }

    /** The next message, `None` at the end of the stream; the stream advances one frame. */
    method ReadMessage(read: JsonReader) returns (r: Result<Option<Message>, AcpError>)
      modifies this
      ensures inner == old(inner[FrameLength(inner)..])
      ensures r == Ok(None) <==> old(inner) == ""
      ensures old(inner) != "" ==>
        var d := Decode(read, old(inner[..FrameLength(inner)]));
        r == if d.Ok? then Ok(Some(d.value)) else Err(d.error)
    {
      var frame := inner[..FrameLength(inner)];
      inner := inner[FrameLength(inner)..];
      if frame == "" { return Ok(None); }
      var d := Decode(read, frame);
      if d.Err? { return Err(d.error); }
      return Ok(Some(d.value));
    }
  }

  class FrameWriter {
    var inner: string

    constructor ()
      ensures inner == ""
    { inner := ""; }

    /** Appends the frame, or nothing when the message is invalid. */
    method WriteMessage(m: Message) returns (r: Result<(), AcpError>)
      modifies this
      ensures r.Ok? <==> Encode(m).Ok?
      ensures inner == if Encode(m).Ok? then old(inner) + Encode(m).value else old(inner)
    {
      var frame := Encode(m);
      if frame.Err? { return Err(frame.error); }
      inner := inner + frame.value;
      return Ok(());
    }
  }

  // ---------------------------------------------------------------- rendered JSON is one line

  /** No control character, in particular no line ending. */
  predicate Plain(s: string) {
    forall i :: 0 <= i < |s| ==> s[i] as int >= 0x20
  }

  lemma {:induction false} EscapePlain(s: string)
    ensures Plain(Escape(s))
  {
    if s != "" { EscapePlain(s[1..]); }
  }

  lemma IntPlain(n: int)
    ensures Plain(IntText(n))
  {
    var m := if n < 0 then -n else n;
    NatTextValue(m);
    assert forall i :: 0 <= i < |NatText(m)| ==> IsDigit(NatText(m)[i]);
  }

  lemma {:induction false} PrintPlain(v: Value)
    ensures Plain(Print(v))
  {
    match v {
      case Num(n) => IntPlain(n);
      case Str(s) => EscapePlain(s);
      case Arr(items) => ItemsPlain(items);
      case Obj(members) => MembersPlain(members);
      case _ =>
    }
  }

  lemma {:induction false} ItemsPlain(items: seq<Value>)
    ensures Plain(PrintItems(items)) && Plain(PrintMore(items))
  {
    if items != [] {
      PrintPlain(items[0]);
      ItemsPlain(items[1..]);
    }
  }

  lemma {:induction false} MembersPlain(members: seq<Member>)
    ensures Plain(PrintMembers(members)) && Plain(PrintMoreMembers(members))
  {
    if members != [] {
      EscapePlain(members[0].key);
      PrintPlain(members[0].value);
      MembersPlain(members[1..]);
    }
  }

  /** Encoding fails only for invalid messages: rendered JSON never holds a line ending. */
  lemma EncodeSucceeds(m: Message)
    ensures Encode(m).Ok? <==> Validate(m).Ok?
    ensures Encode(m).Ok? ==> Encode(m).value == Print(ToValue(m)) + "\n"
  {
    PrintPlain(ToValue(m));
  }

  // ---------------------------------------------------------------- one message

  /** The message with every `null` payload field dropped. */
  function WithoutNulls(m: Message): Message {
    match m
    case Request(rpc, id, verb, params) => Request(rpc, id, verb, Present(params))
    case Notification(rpc, verb, params) => Notification(rpc, verb, Present(params))
    case Response(rpc, id, result, error) =>
      Response(rpc, id, Present(result),
               if error.Some? then Some(error.value.(data := Present(error.value.data))) else None)
  }

  predicate NoNullPayload(m: Message) {
    match m
    case Response(_, _, result, error) => result != Some(Null) && (error.Some? ==> error.value.data != Some(Null))
    case _ => m.params != Some(Null)
  }

  lemma FieldOf(a: seq<Member>, b: seq<Member>, key: string)
    ensures Field(a + b, key) == if Field(a, key).Some? then Field(a, key) else Field(b, key)
  {
    if a == [] {
      assert a + b == b;
    } else {
      assert (a + b)[1..] == a[1..] + b;
    }
  }

  lemma FieldOfTwo(a: Member, b: Member, key: string)
    ensures Field([a, b], key) == if a.key == key then Some(a.value) else if b.key == key then Some(b.value) else None
  {
    assert [a, b][1..] == [b] && [b][1..] == [];
    assert Field([b], key) == if b.key == key then Some(b.value) else Field([], key);
  }

  lemma FieldOfThree(a: Member, b: Member, c: Member, key: string)
    ensures Field([a, b, c], key) ==
      if a.key == key then Some(a.value)
      else if b.key == key then Some(b.value)
      else if c.key == key then Some(c.value)
      else None
  {
    assert [a, b, c][1..] == [b, c];
    FieldOfTwo(b, c, key);
  }

  lemma OptionalField(name: string, v: Option<Value>, key: string)
    ensures Field(Optional(name, v), key) == if key == name then v else None
  {
  }

  lemma ErrorReadsBack(e: ErrorObject)
    ensures ReadError(ErrorValue(e)) == Some(e.(data := Present(e.data)))
  {
    var head := [Member("code", Num(e.code)), Member("message", Str(e.message))];
    assert head[1..] == [head[1]];
    var tail := Optional("data", e.data);
    FieldOf(head, tail, "code");
    FieldOf(head, tail, "message");
    FieldOf(head, tail, "data");
    OptionalField("data", e.data, "data");
  }

  /** Request, response and notification are told apart by the fields present. */
  lemma MembersReadBack(m: Message)
    ensures FromMembers(ToValue(m).members) == Some(WithoutNulls(m))
  {
    match m
    case Request(rpc, id, verb, params) => RequestReadsBack(m);
    case Response(rpc, id, result, error) => ResponseReadsBack(m);
    case Notification(rpc, verb, params) => NotificationReadsBack(m);
  }

  lemma RequestReadsBack(m: Message)
    requires m.Request?
    ensures ReadRequest(ToValue(m).members) == Some(WithoutNulls(m))
  {
    var head := [Member("jsonrpc", Str(m.jsonrpc)), Member("id", IdValue(m.id)), Member("method", Str(m.verb))];
    var tail := Optional("params", m.params);
    FieldOfThree(head[0], head[1], head[2], "jsonrpc");
    FieldOfThree(head[0], head[1], head[2], "id");
    FieldOfThree(head[0], head[1], head[2], "method");
    FieldOfThree(head[0], head[1], head[2], "params");
    FieldOf(head, tail, "jsonrpc");
    FieldOf(head, tail, "id");
    FieldOf(head, tail, "method");
    FieldOf(head, tail, "params");
    OptionalField("params", m.params, "params");
  }

  lemma NotificationReadsBack(m: Message)
    requires m.Notification?
    ensures FromMembers(ToValue(m).members) == Some(WithoutNulls(m))
  {
    var head := [Member("jsonrpc", Str(m.jsonrpc)), Member("method", Str(m.verb))];
    var tail := Optional("params", m.params);
    assert head[1..] == [head[1]];
    FieldOf(head, tail, "jsonrpc");
    FieldOf(head, tail, "id");
    FieldOf(head, tail, "method");
    FieldOf(head, tail, "params");
    OptionalField("params", m.params, "params");
    OptionalField("params", m.params, "id");
  }

  lemma ResponseReadsBack(m: Message)
    requires m.Response?
    ensures FromMembers(ToValue(m).members) == Some(WithoutNulls(m))
  {
    var head := [Member("jsonrpc", Str(m.jsonrpc)), Member("id", IdValue(m.id))];
    FieldOfTwo(head[0], head[1], "jsonrpc");
    FieldOfTwo(head[0], head[1], "id");
    FieldOfTwo(head[0], head[1], "method");
    FieldOfTwo(head[0], head[1], "result");
    FieldOfTwo(head[0], head[1], "error");
    var result := Optional("result", m.result);
    var errorValue := if m.error.Some? then Some(ErrorValue(m.error.value)) else None;
    var error := Optional("error", errorValue);
    ResponseField(head, m.result, errorValue, "jsonrpc");
    ResponseField(head, m.result, errorValue, "id");
    ResponseField(head, m.result, errorValue, "method");
    ResponseField(head, m.result, errorValue, "result");
    ResponseField(head, m.result, errorValue, "error");
    var ms := ToValue(m).members;
    assert Field(ms, "jsonrpc") == Some(Str(m.jsonrpc)) && ReadId(Field(ms, "id")) == Some(m.id);
    assert Field(ms, "method").None? && ReadRequest(ms).None?;
    assert Field(ms, "result") == m.result && Field(ms, "error") == errorValue;
    if m.error.Some? { ErrorReadsBack(m.error.value); }
  }

  lemma ResponseField(head: seq<Member>, result: Option<Value>, error: Option<Value>, key: string)
    ensures Field(head + Optional("result", result) + Optional("error", error), key) ==
      if Field(head, key).Some? then Field(head, key)
      else if key == "result" && result.Some? then result
      else if key == "error" then error else None
  {
    FieldOf(head + Optional("result", result), Optional("error", error), key);
    FieldOf(head, Optional("result", result), key);
    OptionalField("result", result, key);
    OptionalField("error", error, key);
  }

  // ---------------------------------------------------------------- messages as data

  /** Payloads are compared as data, whatever order their object members stand in. */
  ghost predicate SameOption(a: Option<Value>, b: Option<Value>) {
    (a.Some? <==> b.Some?) && (a.Some? ==> SameContent(a.value, b.value))
  }

  ghost predicate SameError(a: Option<ErrorObject>, b: Option<ErrorObject>) {
    && (a.Some? <==> b.Some?)
    && (a.Some? ==>
          && a.value.code == b.value.code && a.value.message == b.value.message
          && SameOption(a.value.data, b.value.data))
  }

  ghost predicate SameMessage(m: Message, n: Message) {
    && m.jsonrpc == n.jsonrpc
    && match (m, n)
       case (Request(_, i, v, p), Request(_, j, w, q)) => i == j && v == w && SameOption(p, q)
       case (Response(_, i, r, e), Response(_, j, s, f)) => i == j && SameOption(r, s) && SameError(e, f)
       case (Notification(_, v, p), Notification(_, w, q)) => v == w && SameOption(p, q)
       case (_, _) => false
  }

  lemma {:induction false} FieldMember(ms: seq<Member>, key: string)
    ensures Field(ms, key).Some? <==> key in Keys(ms)
    ensures Field(ms, key).Some? ==>
      exists i :: 0 <= i < |ms| && ms[i].key == key && Field(ms, key).value == ms[i].value
  {
    if ms != [] && ms[0].key != key {
      FieldMember(ms[1..], key);
      if key in Keys(ms) {
        var i :| 0 <= i < |ms| && ms[i].key == key;
        assert ms[1..][i - 1].key == key;
      }
      if Field(ms[1..], key).Some? {
        var i :| 0 <= i < |ms[1..]| && ms[1..][i].key == key && Field(ms[1..], key).value == ms[1..][i].value;
        assert ms[i + 1].key == key && Field(ms, key).value == ms[i + 1].value;
      }
    }
  }

  /** Objects with the same content have the same content in every field. */
  lemma FieldSame(a: seq<Member>, b: seq<Member>, key: string)
    requires SameContent(Obj(a), Obj(b)) && WellFormed(Obj(b))
    ensures SameOption(Field(a, key), Field(b, key))
  {
    FieldMember(a, key);
    FieldMember(b, key);
    if Field(a, key).Some? {
      var i :| 0 <= i < |a| && a[i].key == key && Field(a, key).value == a[i].value;
      var j := IndexOf(b, key);
      var k :| 0 <= k < |b| && b[k].key == key && Field(b, key).value == b[k].value;
      assert j == k;
    }
  }

  lemma FieldWellFormed(ms: seq<Member>, key: string)
    requires WellFormed(Obj(ms))
    ensures Field(ms, key).Some? ==> WellFormed(Field(ms, key).value)
  {
    FieldMember(ms, key);
  }

  lemma ReadErrorSame(v: Value, w: Value)
    requires SameContent(v, w) && WellFormed(w)
    ensures SameError(ReadError(v), ReadError(w))
  {
    if v.Obj? {
      FieldSame(v.members, w.members, "message");
      FieldSame(v.members, w.members, "code");
      FieldSame(v.members, w.members, "data");
    }
  }

  ghost predicate SameReading(m: Option<Message>, n: Option<Message>) {
    (m.Some? <==> n.Some?) && (m.Some? ==> SameMessage(m.value, n.value))
  }

  /** Texts and ids are read alike from fields with the same content, and `null` is dropped
      alike. */
  lemma ScalarSame(a: Option<Value>, b: Option<Value>)
    requires SameOption(a, b)
    ensures ReadText(a) == ReadText(b) && ReadId(a) == ReadId(b) && SameOption(Present(a), Present(b))
  {
  }

  lemma HeaderSame(a: seq<Member>, b: seq<Member>)
    requires SameContent(Obj(a), Obj(b)) && WellFormed(Obj(b))
    ensures ReadText(Field(a, "jsonrpc")) == ReadText(Field(b, "jsonrpc"))
    ensures ReadId(Field(a, "id")) == ReadId(Field(b, "id"))
    ensures ReadText(Field(a, "method")) == ReadText(Field(b, "method"))
  {
    FieldSame(a, b, "jsonrpc");
    FieldSame(a, b, "id");
    FieldSame(a, b, "method");
    ScalarSame(Field(a, "jsonrpc"), Field(b, "jsonrpc"));
    ScalarSame(Field(a, "id"), Field(b, "id"));
    ScalarSame(Field(a, "method"), Field(b, "method"));
  }

  lemma PayloadSame(a: seq<Member>, b: seq<Member>, key: string)
    requires SameContent(Obj(a), Obj(b)) && WellFormed(Obj(b))
    ensures SameOption(Present(Field(a, key)), Present(Field(b, key)))
    ensures Present(Field(b, key)).Some? ==> WellFormed(Present(Field(b, key)).value)
  {
    FieldSame(a, b, key);
    FieldWellFormed(b, key);
    ScalarSame(Field(a, key), Field(b, key));
  }

  lemma RequestSame(a: seq<Member>, b: seq<Member>)
    requires SameContent(Obj(a), Obj(b)) && WellFormed(Obj(b))
    ensures SameReading(ReadRequest(a), ReadRequest(b)) && SameReading(ReadNotification(a), ReadNotification(b))
  {
    HeaderSame(a, b);
    PayloadSame(a, b, "params");
  }

  lemma ResponseSame(a: seq<Member>, b: seq<Member>)
    requires SameContent(Obj(a), Obj(b)) && WellFormed(Obj(b))
    ensures SameReading(ReadResponse(a), ReadResponse(b))
  {
    HeaderSame(a, b);
    PayloadSame(a, b, "result");
    PayloadSame(a, b, "error");
    var e, f := Present(Field(a, "error")), Present(Field(b, "error"));
    if e.Some? { ReadErrorSame(e.value, f.value); }
  }

  /** The reading of a frame depends on its content only, not on the order of its members. */
  lemma FromMembersSame(a: seq<Member>, b: seq<Member>)
    requires SameContent(Obj(a), Obj(b)) && WellFormed(Obj(b))
    ensures SameReading(FromMembers(a), FromMembers(b))
  {
    RequestSame(a, b);
    ResponseSame(a, b);
  }

  // ---------------------------------------------------------------- one frame

  /** The reader returns the content of the text rendered for this message, with distinct keys
      and in whatever order. */
  ghost predicate ReadsBack(read: JsonReader, m: Message) {
    var v := read(Print(ToValue(m)));
    v.Some? && WellFormed(v.value) && SameContent(ToValue(m), v.value)
  }

  /** The compact reader of module `Json` is such a reader for every message whose payloads
      have distinct object keys. */
  lemma JsonParseReadsBack(m: Message)
    requires WellFormed(ToValue(m))
    ensures ReadsBack(Parse, m)
  {
    ParsePrint(ToValue(m));
    NormalizesSameContent(ToValue(m), ToValue(m));
  }

  lemma StripEncoded(m: Message)
    ensures var json := Print(ToValue(m));
      json != "" && '\n' !in json && '\r' !in json && StripLineEnding(json + "\n") == json
  {
    var json := Print(ToValue(m));
    PrintPlain(ToValue(m));
    PrintStart(ToValue(m));
    assert (json + "\n")[..|json|] == json;
    assert json[|json| - 1] as int >= 0x20;
  }

  /** What a frame decodes to: its message without `null` payloads, if that is still valid. */
  lemma DecodeFrame(read: JsonReader, m: Message)
    requires Validate(m).Ok? && ReadsBack(read, m)
    ensures Encode(m).Ok?
    ensures
      var n, d := WithoutNulls(m), Decode(read, Encode(m).value);
      if Validate(n).Ok? then d.Ok? && SameMessage(n, d.value) else d == Err(Validate(n).error)
  {
    EncodeSucceeds(m);
    StripEncoded(m);
    MembersReadBack(m);
    var v := read(Print(ToValue(m))).value;
    FromMembersSame(ToValue(m).members, v.members);
    SameValidity(WithoutNulls(m), FromMembers(v.members).value);
  }

  lemma SameValidity(m: Message, n: Message)
    requires SameMessage(m, n)
    ensures Validate(m) == Validate(n)
  {
  }

  /** A valid message survives encoding and decoding, as data, iff none of its payload fields is
      JSON `null`: a `null` parameter or error datum is dropped, and a response whose result is
      `null` is rejected. */
  lemma RoundTripIffNoNull(read: JsonReader, m: Message)
    requires Validate(m).Ok? && ReadsBack(read, m)
    ensures Encode(m).Ok?
    ensures
      var d := Decode(read, Encode(m).value);
      (d.Ok? && SameMessage(m, d.value)) <==> NoNullPayload(m)
  {
    DecodeFrame(read, m);
  }

  /** A response with a `null` result encodes, and its frame is rejected. */
  lemma NullResultRejected(id: RequestId)
    ensures
      var frame := Encode(Response(JSONRPC_VERSION, id, Some(Null), None));
      frame.Ok? && Decode(Parse, frame.value) == Err(InvalidMessage)
  {
    NullPayloadRead(Response(JSONRPC_VERSION, id, Some(Null), None));
  }

  /** A request with `null` parameters is read back without them. */
  lemma NullParamsDropped(id: RequestId)
    ensures
      var frame := Encode(Request(JSONRPC_VERSION, id, "a", Some(Null)));
      frame.Ok? && Decode(Parse, frame.value) == Ok(Request(JSONRPC_VERSION, id, "a", None))
  {
    TrimIdentity("a");
    NullPayloadRead(Request(JSONRPC_VERSION, id, "a", Some(Null)));
  }

  lemma NullPayloadRead(m: Message)
    requires Validate(m).Ok?
    requires (m.Request? && m.params == Some(Null)) || (m.Response? && m.result == Some(Null) && m.error.None?)
    ensures Encode(m).Ok?
    ensures Decode(Parse, Encode(m).value) ==
      if m.Request? then Ok(Request(m.jsonrpc, m.id, m.verb, None)) else Err(InvalidMessage)
  {
    FlatWellFormed(m);
    JsonParseReadsBack(m);
    DecodeFrame(Parse, m);
  }

  lemma FlatWellFormed(m: Message)
    requires (m.Request? && m.params == Some(Null)) || (m.Response? && m.result == Some(Null) && m.error.None?)
    ensures WellFormed(ToValue(m))
  {
    var ms := ToValue(m).members;
    assert "jsonrpc"[0] == 'j' && "id"[0] == 'i' && "method"[0] == 'm' && "params"[0] == 'p' && "result"[0] == 'r';
    assert ms[0].key == "jsonrpc" && ms[1].key == "id";
    if m.Request? {
      assert |ms| == 4 && ms[2].key == "method" && ms[3].key == "params" && ms[3].value == Null;
    } else {
      assert |ms| == 3 && ms[2].key == "result" && ms[2].value == Null;
    }
  }

  // ---------------------------------------------------------------- streams

  /** The stream after each message has been offered to the writer; an invalid one leaves
      nothing on it. */
  function Frames(ms: seq<Message>): string {
    if ms == [] then ""
    else (if Encode(ms[0]).Ok? then Encode(ms[0]).value else "") + Frames(ms[1..])
  }

  /** Reading frame by frame until the end of the stream. */
  function ReadAll(read: JsonReader, stream: string): seq<Result<Message, AcpError>>
    decreases |stream|
  {
    if stream == "" then []
    else
      var n := FrameLength(stream);
      [Decode(read, stream[..n])] + ReadAll(read, stream[n..])
  }

  lemma FramesStep(written: string, ms: seq<Message>, k: nat)
    requires k < |ms|
    ensures written + Frames(ms[k..]) ==
      (if Encode(ms[k]).Ok? then written + Encode(ms[k]).value else written) + Frames(ms[k + 1..])
  {
    var rest := ms[k + 1..];
    assert ms[k..][0] == ms[k] && ms[k..][1..] == rest;
    if Encode(ms[k]).Ok? {
      Associative(written, Encode(ms[k]).value, Frames(rest));
    } else {
      assert "" + Frames(rest) == Frames(rest);
    }
  }

  method WriteMessages(writer: FrameWriter, ms: seq<Message>)
    modifies writer
    ensures writer.inner == old(writer.inner) + Frames(ms)
  {
    assert ms[0..] == ms;
    for k := 0 to |ms|
      invariant old(writer.inner) + Frames(ms) == writer.inner + Frames(ms[k..])
    {
      FramesStep(writer.inner, ms, k);
      var _ := writer.WriteMessage(ms[k]);
    }
  }

  method ReadMessages(reader: FrameReader, read: JsonReader) returns (out: seq<Result<Message, AcpError>>)
    modifies reader
    ensures reader.inner == "" && out == ReadAll(read, old(reader.inner))
  {
    out := [];
    while true
      invariant ReadAll(read, old(reader.inner)) == out + ReadAll(read, reader.inner)
      decreases |reader.inner|
    {
      ReadAllStep(read, out, reader.inner);
      ghost var before := reader.inner;
      var r := reader.ReadMessage(read);
      if r == Ok(None) { return; }
      var d := if r.Ok? then Ok(r.value.value) else Err(r.error);
      assert d == Decode(read, before[..FrameLength(before)]);
      out := out + [d];
    }
  }

  lemma ReadAllStep(read: JsonReader, out: seq<Result<Message, AcpError>>, s: string)
    ensures
      var n := FrameLength(s);
      out + ReadAll(read, s) == if s == "" then out else out + [Decode(read, s[..n])] + ReadAll(read, s[n..])
  {
    if s != "" {
      var n := FrameLength(s);
      Associative(out, [Decode(read, s[..n])], ReadAll(read, s[n..]));
    }
  }

  lemma {:induction false} FrameLengthOf(json: string, rest: string)
    requires '\n' !in json
    ensures FrameLength(json + "\n" + rest) == |json| + 1
  {
    if json != "" {
      assert (json + "\n" + rest)[1..] == json[1..] + "\n" + rest;
      FrameLengthOf(json[1..], rest);
    }
  }

  /** The results are these messages as data, in order. */
  ghost predicate Delivered(ms: seq<Message>, out: seq<Result<Message, AcpError>>) {
    |out| == |ms| && forall i :: 0 <= i < |ms| ==> out[i].Ok? && SameMessage(ms[i], out[i].value)
  }

  /** The messages offered that are valid: the writer skips the others. */
  function ValidOnes(ms: seq<Message>): seq<Message> {
    if ms == [] then [] else (if Validate(ms[0]).Ok? then [ms[0]] else []) + ValidOnes(ms[1..])
  }

  /** THE STREAM ROUND-TRIPS: offering messages without `null` payloads to the writer and
      reading until the end of the stream yields exactly the valid ones, in order. */
  lemma {:induction false} StreamRoundTrip(read: JsonReader, ms: seq<Message>)
    requires forall i :: 0 <= i < |ms| ==> NoNullPayload(ms[i]) && ReadsBack(read, ms[i])
    ensures Delivered(ValidOnes(ms), ReadAll(read, Frames(ms)))
    decreases |ms|
  {
    if ms != [] {
      var rest := ms[1..];
      StreamRoundTrip(read, rest);
      EncodeSucceeds(ms[0]);
      if Validate(ms[0]).Ok? {
        ReadFirst(read, ms[0], Frames(rest));
        var d := Decode(read, Encode(ms[0]).value);
        DeliveredCons(ms[0], d, ValidOnes(rest), ReadAll(read, Frames(rest)));
      } else {
        assert Frames(ms) == Frames(rest) && ValidOnes(ms) == ValidOnes(rest);
      }
    }
  }

  lemma DeliveredCons(m: Message, d: Result<Message, AcpError>, ms: seq<Message>, out: seq<Result<Message, AcpError>>)
    requires d.Ok? && SameMessage(m, d.value) && Delivered(ms, out)
    ensures Delivered([m] + ms, [d] + out)
  {
  }

  lemma ReadFirst(read: JsonReader, m: Message, rest: string)
    requires Validate(m).Ok? && NoNullPayload(m) && ReadsBack(read, m)
    ensures Encode(m).Ok? && Decode(read, Encode(m).value).Ok? && SameMessage(m, Decode(read, Encode(m).value).value)
    ensures ReadAll(read, Encode(m).value + rest) == [Decode(read, Encode(m).value)] + ReadAll(read, rest)
  {
    EncodeSucceeds(m);
    SplitEncoded(m, rest);
    RoundTripIffNoNull(read, m);
  }

  lemma SplitEncoded(m: Message, rest: string)
    requires Encode(m).Ok?
    ensures
      var stream := Encode(m).value + rest;
      var n := FrameLength(stream);
      stream != "" && stream[..n] == Encode(m).value && stream[n..] == rest
  {
    EncodeSucceeds(m);
    PrintPlain(ToValue(m));
    SplitFrame(Print(ToValue(m)), rest);
  }

  lemma SplitFrame(json: string, rest: string)
    requires Plain(json)
    ensures
      var stream := json + "\n" + rest;
      stream[..FrameLength(stream)] == json + "\n" && stream[FrameLength(stream)..] == rest
  {
    assert '\n' !in json;
    FrameLengthOf(json, rest);
  }
}
