/** JSON values with integer numbers, their compact rendering and a reader that inverts it. */
module Json {
  import opened Basics
  import opened Text

  /** An object is the sequence of its members in iteration order. */
  datatype Value =
    | Null
    | Bool(b: bool)
    | Num(n: int)
    | Str(s: string)
    | Arr(items: seq<Value>)
    | Obj(members: seq<Member>)

  datatype Member = Member(key: string, value: Value)

  // ---------------------------------------------------------------- rendering

  /** Minimal escaping: quote, backslash and the controls below U+0020. */
  function EscapeChar(c: char): string {
    if c == '"' then "\\\""
    else if c == '\\' then "\\\\"
    else if c as int == 0x08 then "\\b"
    else if c as int == 0x09 then "\\t"
    else if c as int == 0x0A then "\\n"
    else if c as int == 0x0C then "\\f"
    else if c as int == 0x0D then "\\r"
    else if c as int < 0x20 then ['\\', 'u', '0', '0', HexDigit(c as int / 16), HexDigit(c as int % 16)]
    else [c]
  }

  function Escape(s: string): string {
    if s == "" then "" else EscapeChar(s[0]) + Escape(s[1..])
  }

  function StringText(s: string): string {
    "\"" + (Escape(s) + "\"")
  }

  function Print(v: Value): string {
    match v
    case Null => "null"
    case Bool(b) => if b then "true" else "false"
    case Num(n) => IntText(n)
    case Str(s) => StringText(s)
    case Arr(items) => "[" + (PrintItems(items) + "]")
    case Obj(members) => "{" + (PrintMembers(members) + "}")
  }

  function PrintItems(items: seq<Value>): string {
    if items == [] then ""
    else Print(items[0]) + PrintMore(items[1..])
  }

  /** The items after the first, each with its comma. */
  function PrintMore(items: seq<Value>): string {
    if items == [] then ""
    else "," + (Print(items[0]) + PrintMore(items[1..]))
  }

  function PrintMember(m: Member): string {
    StringText(m.key) + (":" + Print(m.value))
  }

  function PrintMembers(members: seq<Member>): string {
    if members == [] then ""
    else PrintMember(members[0]) + PrintMoreMembers(members[1..])
  }

  function PrintMoreMembers(members: seq<Member>): string {
    if members == [] then ""
    else "," + (PrintMember(members[0]) + PrintMoreMembers(members[1..]))
  }

  // ---------------------------------------------------------------- reading

  /** One possibly escaped character and how many characters it takes. */
  function ReadChar(s: string): (r: Option<(char, nat)>)
    ensures r.Some? ==> 0 < r.value.1 <= |s|
  {
    if s == "" || s[0] == '"' || s[0] as int < 0x20 then None
    else if s[0] != '\\' then Some((s[0], 1))
    else if |s| < 2 then None
    else if s[1] == '"' then Some(('"', 2))
    else if s[1] == '\\' then Some(('\\', 2))
    else if s[1] == 'b' then Some((0x08 as char, 2))
    else if s[1] == 't' then Some((0x09 as char, 2))
    else if s[1] == 'n' then Some((0x0A as char, 2))
    else if s[1] == 'f' then Some((0x0C as char, 2))
    else if s[1] == 'r' then Some((0x0D as char, 2))
    else if s[1] == 'u' && |s| >= 6 && s[2] == '0' && s[3] == '0' then
      var hi :- HexValue(s[4]);
      var lo :- HexValue(s[5]);
      Some(((hi * 16 + lo) as char, 6))
    else None
  }

  /** Which characters are escaped, and in what form. */
  lemma EscapeCharExact(c: char)
    ensures EscapeChar(c) == [c] <==> c as int >= 0x20 && c !in "\"\\"
    ensures |EscapeChar(c)| == 2 <==> c in "\"\\\n\r\t" || c as int in [0x08, 0x0C]
    ensures |EscapeChar(c)| in [1, 2, 6]
    ensures |EscapeChar(c)| == 6 ==>
      EscapeChar(c)[..4] == "\\u00" && EscapeChar(c)[4..] ==
      ["0123456789abcdef"[c as int / 16], "0123456789abcdef"[c as int % 16]]
  {
    if c as int < 0x20 {
      HexExact(c, c as int / 16);
      HexExact(c, c as int % 16);
    }
  }

  /** The characters of a string up to its closing quote, and the text after it. */
  function ReadString(s: string): (r: Option<(string, string)>)
    ensures r.Some? ==> |r.value.1| < |s|
    decreases |s|
  {
    if s != "" && s[0] == '"' then Some(("", s[1..]))
    else
      var c :- ReadChar(s);
      var rest :- ReadString(s[c.1..]);
      Some(([c.0] + rest.0, rest.1))
  }

  function DigitRun(s: string): (r: nat)
    ensures r <= |s| && AllDigits(s[..r])
  {
    if s != "" && IsDigit(s[0]) then
      var r := 1 + DigitRun(s[1..]);
      assert forall i :: 0 < i < r ==> s[i] == s[1..][..r - 1][i - 1];
      r
    else 0
  }

  function ReadNat(s: string): (r: Option<(nat, string)>)
    ensures r.Some? ==> |r.value.1| < |s|
  {
    var k := DigitRun(s);
    if k == 0 then None else Some((NatValue(s[..k]), s[k..]))
  }

  function Read(s: string): (r: Option<(Value, string)>)
    ensures r.Some? ==> |r.value.1| < |s|
    decreases |s|, 0
  {
    if s == "" then None
    else if s[0] == 'n' then if "null" <= s then Some((Null, s[4..])) else None
    else if s[0] == 't' then if "true" <= s then Some((Bool(true), s[4..])) else None
    else if s[0] == 'f' then if "false" <= s then Some((Bool(false), s[5..])) else None
    else if s[0] == '"' then
      var t :- ReadString(s[1..]);
      Some((Str(t.0), t.1))
    else if s[0] == '-' then
      var n :- ReadNat(s[1..]);
      Some((Num(-(n.0 as int)), n.1))
    else if s[0] == '[' then
      if |s| > 1 && s[1] == ']' then Some((Arr([]), s[2..]))
      else
        var items :- ReadItems(s[1..]);
        Some((Arr(items.0), items.1))
    else if s[0] == '{' then
      if |s| > 1 && s[1] == '}' then Some((Obj([]), s[2..]))
      else
        var members :- ReadMembers(s[1..]);
        Some((Obj(members.0), members.1))
    else
      var n :- ReadNat(s);
      Some((Num(n.0), n.1))
  }

  function ReadItems(s: string): (r: Option<(seq<Value>, string)>)
    ensures r.Some? ==> |r.value.1| < |s|
    decreases |s|, 1
  {
    var v :- Read(s);
    if v.1 != "" && v.1[0] == ',' then
      var rest :- ReadItems(v.1[1..]);
      Some(([v.0] + rest.0, rest.1))
    else if v.1 != "" && v.1[0] == ']' then Some(([v.0], v.1[1..]))
    else None
  }

  function ReadMembers(s: string): (r: Option<(seq<Member>, string)>)
    ensures r.Some? ==> |r.value.1| < |s|
    decreases |s|, 1
  {
    if s == "" || s[0] != '"' then None
    else
      var key :- ReadString(s[1..]);
      if key.1 == "" || key.1[0] != ':' then None
      else
        var v :- Read(key.1[1..]);
        var m := Member(key.0, v.0);
        if v.1 != "" && v.1[0] == ',' then
          var rest :- ReadMembers(v.1[1..]);
          Some(([m] + rest.0, rest.1))
        else if v.1 != "" && v.1[0] == '}' then Some(([m], v.1[1..]))
        else None
  }

  /** A whole text as one value. */
  function Parse(s: string): Option<Value> {
    var r :- Read(s);
    if r.1 == "" then Some(r.0) else None
  }

  // ---------------------------------------------------------------- the inverse

  /** What may follow a value: the end, or a character that ends a number. */
  predicate Delimited(rest: string) {
    rest == "" || rest[0] in ",]}"
  }

  lemma ReadCharEscape(c: char, rest: string)
    ensures ReadChar(EscapeChar(c) + rest) == Some((c, |EscapeChar(c)|))
    ensures EscapeChar(c)[0] != '"'
  {
    if c as int < 0x20 && |EscapeChar(c)| == 6 {
      var n := c as int;
      assert HexValue(HexDigit(n / 16)) == Some(n / 16) && HexValue(HexDigit(n % 16)) == Some(n % 16);
      assert (n / 16 * 16 + n % 16) as char == c;
    }
  }

  lemma {:induction false} ReadStringEscape(s: string, rest: string)
    ensures ReadString(Escape(s) + ("\"" + rest)) == Some((s, rest))
    decreases |s|
  {
    if s == "" {
      assert Escape(s) + ("\"" + rest) == "\"" + rest;
    } else {
      var e := EscapeChar(s[0]);
      var tail := Escape(s[1..]) + ("\"" + rest);
      Associative(e, Escape(s[1..]), "\"" + rest);
      ReadCharEscape(s[0], tail);
      ReadStringEscape(s[1..], rest);
      ReadStringStep(s[0], e, tail, s[1..], rest);
      assert [s[0]] + s[1..] == s;
    }
  }

  /** MINIMAL ESCAPING: no text that reads as the string is shorter than its escaped form. */
  lemma {:induction false} EscapeIsShortest(text: string, s: string, rest: string)
    requires ReadString(text) == Some((s, rest))
    ensures |Escape(s)| + 1 + |rest| <= |text|
    decreases |text|
  {
    if text[0] != '"' {
      var c := ReadChar(text).value;
      EscapeIsShortest(text[c.1..], s[1..], rest);
      assert s == [c.0] + s[1..];
      assert |EscapeChar(c.0)| <= c.1;
    }
  }

  lemma ReadStringStep(c: char, e: string, tail: string, t: string, rest: string)
    requires e != "" && e[0] != '"' && ReadChar(e + tail) == Some((c, |e|))
    requires ReadString(tail) == Some((t, rest))
    ensures ReadString(e + tail) == Some(([c] + t, rest))
  {
    assert (e + tail)[|e|..] == tail && (e + tail)[0] == e[0];
  }

  lemma {:induction false} DigitRunOf(digits: string, rest: string)
    requires AllDigits(digits) && (rest == "" || !IsDigit(rest[0]))
    ensures DigitRun(digits + rest) == |digits|
    decreases |digits|
  {
    if digits == "" {
      assert digits + rest == rest;
    } else {
      assert (digits + rest)[1..] == digits[1..] + rest;
      DigitRunOf(digits[1..], rest);
    }
  }

  lemma ReadNatText(n: nat, rest: string)
    requires Delimited(rest)
    ensures ReadNat(NatText(n) + rest) == Some((n, rest))
  {
    NatTextValue(n);
    DigitRunOf(NatText(n), rest);
  }

  // One lemma per branch of `Read`, so that no other proof has to unfold it.

  lemma ReadNegative(s: string, n: nat, rest: string)
    requires s != "" && s[0] == '-' && ReadNat(s[1..]) == Some((n, rest))
    ensures Read(s) == Some((Num(-(n as int)), rest))
  {
  }

  lemma ReadNonNegative(s: string, n: nat, rest: string)
    requires s != "" && IsDigit(s[0]) && ReadNat(s) == Some((n, rest))
    ensures Read(s) == Some((Num(n), rest))
  {
  }

  lemma ReadQuoted(s: string, t: string, rest: string)
    requires s != "" && s[0] == '"' && ReadString(s[1..]) == Some((t, rest))
    ensures Read(s) == Some((Str(t), rest))
  {
  }

  lemma ReadLiteral(rest: string)
    ensures Read("null" + rest) == Some((Null, rest))
    ensures Read("true" + rest) == Some((Bool(true), rest))
    ensures Read("false" + rest) == Some((Bool(false), rest))
  {
    assert ("null" + rest)[4..] == rest;
    assert ("true" + rest)[4..] == rest;
    assert ("false" + rest)[5..] == rest;
  }

  lemma ReadEmpty(rest: string)
    ensures Read("[]" + rest) == Some((Arr([]), rest))
    ensures Read("{}" + rest) == Some((Obj([]), rest))
  {
    assert ("[]" + rest)[2..] == rest;
    assert ("{}" + rest)[2..] == rest;
  }

  lemma ReadArray(body: string, items: seq<Value>, rest: string)
    requires body != "" && body[0] != ']' && ReadItems(body) == Some((items, rest))
    ensures Read("[" + body) == Some((Arr(items), rest))
  {
    assert ("[" + body)[1..] == body && ("[" + body)[1] == body[0];
    ReadBracket("[" + body, items, rest);
  }

  lemma ReadBracket(s: string, items: seq<Value>, rest: string)
    requires |s| > 1 && s[0] == '[' && s[1] != ']' && ReadItems(s[1..]) == Some((items, rest))
    ensures Read(s) == Some((Arr(items), rest))
  {
  }

  lemma ReadObject(body: string, members: seq<Member>, rest: string)
    requires body != "" && body[0] != '}' && ReadMembers(body) == Some((members, rest))
    ensures Read("{" + body) == Some((Obj(members), rest))
  {
    assert ("{" + body)[1..] == body && ("{" + body)[1] == body[0];
    ReadBrace("{" + body, members, rest);
  }

  lemma ReadBrace(s: string, members: seq<Member>, rest: string)
    requires |s| > 1 && s[0] == '{' && s[1] != '}' && ReadMembers(s[1..]) == Some((members, rest))
    ensures Read(s) == Some((Obj(members), rest))
  {
  }

  lemma ReadIntText(n: int, rest: string)
    requires Delimited(rest)
    ensures Read(IntText(n) + rest) == Some((Num(n), rest))
  {
    var digits := NatText(if n < 0 then -n else n);
    NatTextValue(if n < 0 then -n else n);
    if n < 0 {
      ReadNatText(-n, rest);
      Associative("-", digits, rest);
      ConsParts('-', digits + rest);
      ReadNegative("-" + (digits + rest), -n, rest);
    } else {
      ReadNatText(n, rest);
      FirstDigit(digits, rest);
      ReadNonNegative(digits + rest, n, rest);
    }
  }

  lemma FirstDigit(digits: string, rest: string)
    requires digits != "" && AllDigits(digits)
    ensures digits + rest != "" && IsDigit((digits + rest)[0])
  {
  }

  /** A rendered value starts with a character that opens no closing bracket. */
  lemma PrintStart(v: Value)
    ensures Print(v) != "" && Print(v)[0] !in ",]}:"
  {
    if v.Num? {
      NatTextValue(if v.n < 0 then -v.n else v.n);
      assert v.n < 0 || IsDigit(Print(v)[0]);
    }
  }

  lemma PrintMemberStart(m: Member)
    ensures PrintMember(m) != "" && PrintMember(m)[0] == '"'
  {
  }

  /** READING INVERTS RENDERING, at every nesting depth and whatever follows the value. */
  lemma {:induction false} ReadPrint(v: Value, rest: string)
    requires Delimited(rest)
    ensures Read(Print(v) + rest) == Some((v, rest))
    decreases v
  {
    match v {
      case Null => ReadLiteral(rest);
      case Bool(b) => ReadLiteral(rest);
      case Num(n) => ReadIntText(n, rest);
      case Str(s) => ReadStringText(s, rest);
      case Arr(items) =>
        if items == [] {
          ReadEmpty(rest);
          assert PrintItems(items) == "" && Print(v) == "[]";
        } else {
          ReadPrintItems(items, rest);
          ArrayText(items, rest);
          ReadArray(PrintItems(items) + ("]" + rest), items, rest);
        }
      case Obj(members) =>
        if members == [] {
          ReadEmpty(rest);
          assert PrintMembers(members) == "" && Print(v) == "{}";
        } else {
          ReadPrintMembers(members, rest);
          ObjectText(members, rest);
          ReadObject(PrintMembers(members) + ("}" + rest), members, rest);
        }
    }
  }

  lemma ReadStringText(s: string, rest: string)
    ensures Read(StringText(s) + rest) == Some((Str(s), rest))
  {
    ReadStringEscape(s, rest);
    QuotedText(Escape(s), rest);
    ReadQuoted(StringText(s) + rest, s, rest);
  }

  lemma QuotedText(e: string, rest: string)
    ensures var text := "\"" + (e + "\"") + rest;
      text[0] == '"' && text[1..] == e + ("\"" + rest)
  {
  }

  lemma ArrayText(items: seq<Value>, rest: string)
    requires items != []
    ensures var body := PrintItems(items) + ("]" + rest);
      body != "" && body[0] != ']' && Print(Arr(items)) + rest == "[" + body
  {
    PrintStart(items[0]);
    assert (PrintItems(items) + ("]" + rest))[0] == Print(items[0])[0];
  }

  lemma ObjectText(members: seq<Member>, rest: string)
    requires members != []
    ensures var body := PrintMembers(members) + ("}" + rest);
      body != "" && body[0] != '}' && Print(Obj(members)) + rest == "{" + body
  {
    PrintMemberStart(members[0]);
    assert (PrintMembers(members) + ("}" + rest))[0] == '"';
  }

  lemma LastItem(s: string, v: Value, rest: string)
    requires Read(s) == Some((v, "]" + rest))
    ensures ReadItems(s) == Some(([v], rest))
  {
    assert ("]" + rest)[1..] == rest;
  }

  lemma NextItem(s: string, v: Value, tail: string, vs: seq<Value>, rest: string)
    requires Read(s) == Some((v, "," + tail)) && ReadItems(tail) == Some((vs, rest))
    ensures ReadItems(s) == Some(([v] + vs, rest))
  {
    assert ("," + tail)[1..] == tail;
  }

  /** The text of a member whose value starts the text `s`. */
  function KeyText(key: string, s: string): string {
    "\"" + (Escape(key) + ("\"" + (":" + s)))
  }

  lemma ReadKey(key: string, s: string)
    ensures
      var text := KeyText(key, s);
      text[0] == '"' && ReadString(text[1..]) == Some((key, ":" + s))
  {
    ReadStringEscape(key, ":" + s);
    assert KeyText(key, s)[1..] == Escape(key) + ("\"" + (":" + s));
  }

  lemma LastMember(key: string, s: string, v: Value, rest: string)
    requires Read(s) == Some((v, "}" + rest))
    ensures ReadMembers(KeyText(key, s)) == Some(([Member(key, v)], rest))
  {
    ReadKey(key, s);
    assert (":" + s)[1..] == s && ("}" + rest)[1..] == rest;
  }

  lemma NextMember(key: string, s: string, v: Value, tail: string, ms: seq<Member>, rest: string)
    requires Read(s) == Some((v, "," + tail)) && ReadMembers(tail) == Some((ms, rest))
    ensures ReadMembers(KeyText(key, s)) == Some(([Member(key, v)] + ms, rest))
  {
    ReadKey(key, s);
    ConsParts(':', s);
    ConsParts(',', tail);
    MembersContinue(KeyText(key, s), key, ":" + s, v, "," + tail, ms, rest);
  }

  lemma MembersContinue(
    text: string, key: string, a: string, v: Value, b: string, ms: seq<Member>, rest: string)
    requires text != "" && text[0] == '"' && ReadString(text[1..]) == Some((key, a))
    requires a != "" && a[0] == ':' && Read(a[1..]) == Some((v, b))
    requires b != "" && b[0] == ',' && ReadMembers(b[1..]) == Some((ms, rest))
    ensures ReadMembers(text) == Some(([Member(key, v)] + ms, rest))
  {
  }

  lemma {:induction false} ReadPrintItems(items: seq<Value>, rest: string)
    requires items != []
    ensures ReadItems(PrintItems(items) + ("]" + rest)) == Some((items, rest))
    decreases items
  {
    var v, more := items[0], items[1..];
    var after := PrintMore(more) + ("]" + rest);
    Associative(Print(v), PrintMore(more), "]" + rest);
    if more == [] {
      assert after == "]" + rest && items == [v];
      ReadPrint(v, after);
      LastItem(Print(v) + after, v, rest);
    } else {
      var tail := PrintItems(more) + ("]" + rest);
      MoreText(more, rest);
      assert items == [v] + more;
      ReadPrint(v, after);
      ReadPrintItems(more, rest);
      NextItem(Print(v) + after, v, tail, more, rest);
    }
  }

  lemma {:induction false} ReadPrintMembers(members: seq<Member>, rest: string)
    requires members != []
    ensures ReadMembers(PrintMembers(members) + ("}" + rest)) == Some((members, rest))
    decreases members
  {
    var m, more := members[0], members[1..];
    var after := PrintMoreMembers(more) + ("}" + rest);
    MembersText(members, rest);
    if more == [] {
      assert after == "}" + rest && members == [Member(m.key, m.value)];
      ReadPrint(m.value, after);
      LastMember(m.key, Print(m.value) + after, m.value, rest);
    } else {
      var tail := PrintMembers(more) + ("}" + rest);
      MoreMembersText(more, rest);
      assert members == [Member(m.key, m.value)] + more;
      ReadPrint(m.value, after);
      ReadPrintMembers(more, rest);
      NextMember(m.key, Print(m.value) + after, m.value, tail, more, rest);
    }
  }

  lemma MoreText(items: seq<Value>, rest: string)
    requires items != []
    ensures PrintMore(items) + ("]" + rest) == "," + (PrintItems(items) + ("]" + rest))
  {
  }

  lemma MoreMembersText(members: seq<Member>, rest: string)
    requires members != []
    ensures PrintMoreMembers(members) + ("}" + rest) == "," + (PrintMembers(members) + ("}" + rest))
  {
  }

  lemma MembersText(members: seq<Member>, rest: string)
    requires members != []
    ensures PrintMembers(members) + ("}" + rest) ==
      KeyText(members[0].key, Print(members[0].value) + (PrintMoreMembers(members[1..]) + ("}" + rest)))
  {
    var m, after := members[0], PrintMoreMembers(members[1..]);
    Associative(PrintMember(m), after, "}" + rest);
    MemberText(m, after + ("}" + rest));
  }

  lemma MemberText(m: Member, s: string)
    ensures PrintMember(m) + s == KeyText(m.key, Print(m.value) + s)
  {
    Associative(StringText(m.key), ":" + Print(m.value), s);
    Associative(":", Print(m.value), s);
    QuotedThen(Escape(m.key), ":" + (Print(m.value) + s));
  }

  lemma QuotedThen(e: string, s: string)
    ensures "\"" + (e + "\"") + s == "\"" + (e + ("\"" + s))
  {
    Associative("\"", e + "\"", s);
    Associative(e, "\"", s);
  }

  lemma ParsePrint(v: Value)
    ensures Parse(Print(v)) == Some(v)
  {
    ReadPrint(v, "");
    assert Print(v) + "" == Print(v);
  }
}
