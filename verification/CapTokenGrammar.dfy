/** The language each attenuation parser accepts, stated as text with named gaps, and the
    proof that the parser accepts exactly that text: nothing but blanks may be added. */
module CapTokenGrammar {
  import opened Basics
  import opened Text
  import opened CapToken
  import opened CapTokenProjection

  /** The alphanumeric class holds the letters of the printed variables and neither blanks
      nor a closing parenthesis. */
  ghost predicate SaneAlphabet(lib: Library) {
    && lib.isAlphanumeric('t') && lib.isAlphanumeric('c') && lib.isAlphanumeric('x')
    && !lib.isAlphanumeric(')')
    && forall c :: IsWhitespace(c) ==> !lib.isAlphanumeric(c)
  }

  lemma VariableEnds(lib: Library, v: string)
    requires SaneAlphabet(lib) && IsVariable(lib, v)
    ensures ')' !in v && !IsWhitespace(v[0]) && !IsWhitespace(v[|v| - 1])
  {
  }

  // ---------------------------------------------------------------- `name($v), rest`

  function UnaryText(name: string, w1: string, v: string, w2: string, w3: string, w4: string, rest: string): string {
    name + ("(" + (w1 + v + w2 + ")" + (w3 + ("," + (w4 + rest)))))
  }

  lemma UnaryAccepts(
    lib: Library, name: string, w1: string, v: string, w2: string, w3: string, w4: string, rest: string)
    requires SaneAlphabet(lib) && IsVariable(lib, v)
    requires Blank(w1) && Blank(w2) && Blank(w3) && Blank(w4)
    requires rest == "" || !IsWhitespace(rest[0])
    ensures StripUnaryPredicate(lib, UnaryText(name, w1, v, w2, w3, w4, rest), name) == Some((v, rest))
  {
    VariableEnds(lib, v);
    var inside, tail := w1 + v + w2, w3 + ("," + (w4 + rest));
    assert ')' !in w1 && ')' !in w2;
    SplitOnceOf(inside, ')', tail);
    TrimOf(w1, v, w2);
    TrimStartOf(w3, "," + (w4 + rest));
    TrimStartOf(w4, rest);
    assert inside + ")" + tail == inside + [')'] + tail;
  }

  lemma UnaryShape(lib: Library, body: string, name: string)
    returns (w1: string, v: string, w2: string, w3: string, w4: string, rest: string)
    requires StripUnaryPredicate(lib, body, name).Some?
    ensures StripUnaryPredicate(lib, body, name) == Some((v, rest))
    ensures body == UnaryText(name, w1, v, w2, w3, w4, rest)
    ensures Blank(w1) && Blank(w2) && Blank(w3) && Blank(w4) && IsVariable(lib, v)
    ensures rest == "" || !IsWhitespace(rest[0])
  {
    var a := StripPrefix(body, name).value;
    var b := StripPrefix(a, "(").value;
    var parts := SplitOnce(b, ')').value;
    v := Trim(parts.0);
    w1, w2 := TrimParts(parts.0);
    w3 := TrimStartParts(parts.1);
    var c := StripPrefix(TrimStart(parts.1), ",").value;
    w4 := TrimStartParts(c);
    rest := TrimStart(c);
  }

  // ---------------------------------------------------------------- `$v <= operand`

  function AtMostText(v: string, w5: string, w6: string, operand: string, w7: string): string {
    v + (w5 + ("<=" + (w6 + operand + w7)))
  }

  lemma AtMostAccepts(v: string, w5: string, w6: string, operand: string, w7: string)
    requires Blank(w5) && Blank(w6) && Blank(w7)
    requires Trimmed(operand)
    ensures StripLessOrEqual(AtMostText(v, w5, w6, operand, w7), v) == Some(operand)
  {
    TrimStartOf(w5, "<=" + (w6 + operand + w7));
    TrimOf(w6, operand, w7);
  }

  lemma AtMostShape(rest: string, v: string) returns (w5: string, w6: string, operand: string, w7: string)
    requires StripLessOrEqual(rest, v).Some?
    ensures StripLessOrEqual(rest, v) == Some(operand)
    ensures rest == AtMostText(v, w5, w6, operand, w7)
    ensures Blank(w5) && Blank(w6) && Blank(w7)
    ensures Trimmed(operand)
  {
    var a := StripPrefix(rest, v).value;
    w5 := TrimStartParts(a);
    var b := StripPrefix(TrimStart(a), "<=").value;
    w6, w7 := TrimParts(b);
    operand := Trim(b);
  }

  // ---------------------------------------------------------------- bounds: time and cost

  /** The blanks that may stand around the tokens of a check. */
  datatype Gaps = Gaps(w1: string, w2: string, w3: string, w4: string, w5: string, w6: string, w7: string) {
    predicate Valid() {
      Blank(w1) && Blank(w2) && Blank(w3) && Blank(w4) && Blank(w5) && Blank(w6) && Blank(w7)
    }
  }

  /** `name($v), $v <= operand`, with blanks between the tokens. */
  function BoundText(name: string, v: string, operand: string, g: Gaps): string {
    UnaryText(name, g.w1, v, g.w2, g.w3, g.w4, AtMostText(v, g.w5, g.w6, operand, g.w7))
  }

  ghost predicate IsBound(lib: Library, body: string, name: string, operand: string) {
    exists v, g: Gaps :: IsVariable(lib, v) && g.Valid() && body == BoundText(name, v, operand, g)
  }

  ghost function BoundOperand(lib: Library, body: string, name: string): Option<string> {
    var p :- StripUnaryPredicate(lib, body, name);
    StripLessOrEqual(p.1, p.0)
  }

  predicate Trimmed(s: string) {
    s == "" || (!IsWhitespace(s[0]) && !IsWhitespace(s[|s| - 1]))
  }

  lemma BoundAccepts(lib: Library, name: string, v: string, operand: string, g: Gaps)
    requires SaneAlphabet(lib) && IsVariable(lib, v) && g.Valid() && Trimmed(operand)
    ensures BoundOperand(lib, BoundText(name, v, operand, g), name) == Some(operand)
  {
    VariableEnds(lib, v);
    var rest := AtMostText(v, g.w5, g.w6, operand, g.w7);
    assert rest[0] == v[0];
    UnaryAccepts(lib, name, g.w1, v, g.w2, g.w3, g.w4, rest);
    AtMostAccepts(v, g.w5, g.w6, operand, g.w7);
  }

  /** The bound reader accepts a text iff it is one bound of that name on its own variable. */
  lemma BoundExact(lib: Library, body: string, name: string, operand: string)
    requires SaneAlphabet(lib)
    requires Trimmed(operand)
    ensures BoundOperand(lib, body, name) == Some(operand) <==> IsBound(lib, body, name, operand)
  {
    if BoundOperand(lib, body, name) == Some(operand) {
      var w1, v, w2, w3, w4, rest := UnaryShape(lib, body, name);
      var w5, w6, o, w7 := AtMostShape(rest, v);
      var g := Gaps(w1, w2, w3, w4, w5, w6, w7);
      assert g.Valid() && body == BoundText(name, v, operand, g);
    }
    if IsBound(lib, body, name, operand) {
      var v, g: Gaps :| IsVariable(lib, v) && g.Valid() && body == BoundText(name, v, operand, g);
      BoundAccepts(lib, name, v, operand, g);
    }
  }

  /** A budget statement is accepted with ceiling `n` iff, blanks aside, it is the single
      check `cost($v), $v <= literal` whose literal is an `i64` equal to `n >= 0`. */
  lemma BudgetExact(lib: Library, body: string, n: u64)
    requires SaneAlphabet(lib)
    ensures ParseBudget(lib, body) == Some(n) <==>
      exists literal :: ParseI64(literal) == Some(n as int) && IsBound(lib, body, "cost", literal)
  {
    if ParseBudget(lib, body) == Some(n) {
      var literal := BoundOperand(lib, body, "cost").value;
      I64Ends(literal);
      BoundExact(lib, body, "cost", literal);
    }
    if literal :| ParseI64(literal) == Some(n as int) && IsBound(lib, body, "cost", literal) {
      I64Ends(literal);
      BoundExact(lib, body, "cost", literal);
    }
  }

  /** An expiry statement is accepted iff, blanks aside, it is the single check
      `time($v), $v <= date` whose date the date parser reads as `unix`. */
  lemma ExpiryExact(lib: Library, body: string, unix: u64)
    requires SaneAlphabet(lib)
    ensures ParseExpiry(lib, body) == Some(unix) <==>
      exists date :: lib.parseDate(date) == Some(unix as int) && Trimmed(date) && IsBound(lib, body, "time", date)
  {
    if ParseExpiry(lib, body) == Some(unix) {
      var w1, v, w2, w3, w4, rest := UnaryShape(lib, body, "time");
      var w5, w6, date, w7 := AtMostShape(rest, v);
      BoundExact(lib, body, "time", date);
    }
    if date :| lib.parseDate(date) == Some(unix as int) && Trimmed(date) && IsBound(lib, body, "time", date) {
      BoundExact(lib, body, "time", date);
    }
  }

  lemma I64Ends(literal: string)
    requires ParseI64(literal).Some?
    ensures literal != "" && Trimmed(literal)
  {
    var digits := if literal[0] == '-' || literal[0] == '+' then literal[1..] else literal;
    assert IsDigit(digits[0]) && IsDigit(digits[|digits| - 1]);
    assert literal[|literal| - 1] == digits[|digits| - 1];
  }

  // ---------------------------------------------------------------- tool sets

  /** One quoted member of a set literal with the blanks around it. */
  datatype Item = Item(before: string, name: string, after: string) {
    predicate Valid() {
      Blank(before) && Blank(after) && '"' !in name
    }

    function Text(): string {
      before + (Quoted(name) + after)
    }
  }

  predicate ValidItems(items: seq<Item>) {
    forall i :: 0 <= i < |items| ==> items[i].Valid()
  }

  function ItemsText(items: seq<Item>): string
    requires items != []
  {
    if |items| == 1 then items[0].Text()
    else items[0].Text() + ("," + ItemsText(items[1..]))
  }

  function Names(items: seq<Item>): set<string> {
    set i | 0 <= i < |items| :: items[i].name
  }

  lemma NamesCons(items: seq<Item>)
    requires items != []
    ensures Names(items) == {items[0].name} + Names(items[1..])
  {
    forall x | x in Names(items)
      ensures x in {items[0].name} + Names(items[1..])
    {
      var i :| 0 <= i < |items| && items[i].name == x;
      if i > 0 { assert items[1..][i - 1].name == x; }
    }
    forall x | x in Names(items[1..])
      ensures x in Names(items)
    {
      var i :| 0 <= i < |items[1..]| && items[1..][i].name == x;
      assert items[i + 1].name == x;
    }
  }

  /** One turn of the member loop: a quoted name, then either the end or a comma. */
  lemma MembersStep(item: Item, tail: string)
    requires item.Valid() && (tail == "" || !IsWhitespace(tail[0]))
    ensures ParseMembers(item.Text() + tail) ==
      if tail == "" then Some({item.name})
      else if tail[0] == ',' then Include({item.name}, ParseMembers(tail[1..]))
      else None
  {
    var afterQuote := item.name + ['"'] + (item.after + tail);
    ItemText(item, tail);
    TrimStartOf(item.before, "\"" + afterQuote);
    SplitOnceOf(item.name, '"', item.after + tail);
    TrimStartOf(item.after, tail);
    assert StripPrefix("\"" + afterQuote, "\"") == Some(afterQuote);
  }

  lemma {:induction false} MembersAccept(items: seq<Item>)
    requires items != [] && ValidItems(items)
    ensures ParseMembers(ItemsText(items)) == Some(Names(items))
    decreases |items|
  {
    NamesCons(items);
    if |items| == 1 {
      MembersStep(items[0], "");
      assert items[0].Text() + "" == items[0].Text();
      assert Names(items[1..]) == {} && Names(items) == {items[0].name};
    } else {
      MembersStep(items[0], "," + ItemsText(items[1..]));
      MembersAccept(items[1..]);
    }
  }

  /** What the member loop consumed on its first turn. */
  lemma FirstItem(remaining: string) returns (item: Item, tail: string)
    requires ParseMembers(remaining).Some?
    ensures item.Valid() && (tail == "" || !IsWhitespace(tail[0]))
    ensures remaining == item.Text() + tail
  {
    var before := TrimStartParts(remaining);
    var afterQuote := StripPrefix(TrimStart(remaining), "\"").value;
    var parts := SplitOnce(afterQuote, '"').value;
    var after := TrimStartParts(parts.1);
    tail := TrimStart(parts.1);
    item := Item(before, parts.0, after);
    ItemText(item, tail);
  }

  lemma ItemText(item: Item, tail: string)
    ensures item.Text() + tail == item.before + ("\"" + (item.name + ['"'] + (item.after + tail)))
  {
  }

  lemma {:induction false} MembersShape(remaining: string) returns (items: seq<Item>)
    requires ParseMembers(remaining).Some?
    ensures items != [] && ValidItems(items)
    ensures remaining == ItemsText(items)
    decreases |remaining|
  {
    var item, tail := FirstItem(remaining);
    MembersStep(item, tail);
    if tail == "" {
      items := [item];
      assert item.Text() + tail == item.Text();
    } else {
      var rest := MembersShape(tail[1..]);
      items := [item] + rest;
      assert items[1..] == rest;
      assert tail == "," + tail[1..];
    }
  }

  /** `tool($v), {..}.contains($v)`, with blanks between the tokens. */
  function ToolText(v: string, inner: string, g: Gaps): string {
    UnaryText("tool", g.w1, v, g.w2, g.w3, g.w4, "{" + (inner + "}" ) + ".contains(" + v + ")")
  }

  /** The inside of a set literal that denotes exactly `tools`. */
  ghost predicate DenotesSet(inner: string, tools: set<string>) {
    || (Trim(inner) in ["", ","] && tools == {})
    || exists items ::
         items != [] && ValidItems(items) && Trim(inner) == ItemsText(items) && tools == Names(items)
  }

  lemma ItemsNotBare(items: seq<Item>)
    requires items != [] && ValidItems(items)
    ensures ItemsText(items) !in ["", ","]
  {
    assert ItemsText(items)[|items[0].before|] == '"';
  }

  /** A set literal is accepted iff its inside denotes that set. */
  lemma StringSetExact(inner: string, tools: set<string>)
    ensures StringSet("{" + (inner + "}")) == Some(tools) <==> DenotesSet(inner, tools)
  {
    var literal := "{" + (inner + "}");
    assert StripPrefix(literal, "{") == Some(inner + "}");
    assert StripSuffix(inner + "}", "}") == Some(inner);
    if Trim(inner) !in ["", ","] && StringSet(literal) == Some(tools) {
      var items := MembersShape(Trim(inner));
      MembersAccept(items);
    }
    if items :| items != [] && ValidItems(items) && Trim(inner) == ItemsText(items) && tools == Names(items) {
      ItemsNotBare(items);
      MembersAccept(items);
    }
  }

  ghost predicate IsMembership(lib: Library, body: string, tools: set<string>) {
    exists v, inner, g: Gaps ::
      IsVariable(lib, v) && g.Valid() && DenotesSet(inner, tools) && body == ToolText(v, inner, g)
  }

  lemma MembershipAccepted(lib: Library, v: string, inner: string, g: Gaps, tools: set<string>)
    requires SaneAlphabet(lib)
    requires IsVariable(lib, v) && g.Valid() && DenotesSet(inner, tools)
    ensures ParseTools(lib, ToolText(v, inner, g)) == Some(tools)
  {
    var literal, suffix := "{" + (inner + "}"), ".contains(" + v + ")";
    var rest := literal + ".contains(" + v + ")";
    assert rest == literal + suffix;
    UnaryAccepts(lib, "tool", g.w1, v, g.w2, g.w3, g.w4, rest);
    assert StripSuffix(rest, suffix) == Some(literal);
    StringSetExact(inner, tools);
  }

  lemma MembershipShape(lib: Library, body: string) returns (v: string, inner: string, g: Gaps)
    requires ParseTools(lib, body).Some?
    ensures IsVariable(lib, v) && g.Valid() && body == ToolText(v, inner, g)
    ensures ParseTools(lib, body) == StringSet("{" + (inner + "}"))
  {
    var w1, x, w2, w3, w4, rest := UnaryShape(lib, body, "tool");
    v := x;
    var suffix := ".contains(" + v + ")";
    var literal := StripSuffix(rest, suffix).value;
    var open := StripPrefix(literal, "{").value;
    inner := StripSuffix(open, "}").value;
    g := Gaps(w1, w2, w3, w4, "", "", "");
    assert rest == literal + suffix == literal + ".contains(" + v + ")";
  }

  /** A tool statement is accepted with set `tools` iff, blanks aside, it is the single check
      `tool($v), {..}.contains($v)` whose literal lists exactly `tools`. */
  lemma ToolsExact(lib: Library, body: string, tools: set<string>)
    requires SaneAlphabet(lib)
    ensures ParseTools(lib, body) == Some(tools) <==> IsMembership(lib, body, tools)
  {
    if ParseTools(lib, body) == Some(tools) {
      var v, inner, g := MembershipShape(lib, body);
      StringSetExact(inner, tools);
    }
    if IsMembership(lib, body, tools) {
      var v, inner, g: Gaps :|
        IsVariable(lib, v) && g.Valid() && DenotesSet(inner, tools) && body == ToolText(v, inner, g);
      MembershipAccepted(lib, v, inner, g, tools);
    }
  }

  // ---------------------------------------------------------------- audiences

  /** `audience("name")`, with no blanks and no quote in the name. */
  function AudienceText(name: string): string {
    "audience(\"" + (name + "\")")
  }

  ghost predicate PinsAudience(body: string) {
    exists name :: '"' !in name && body == AudienceText(name)
  }

  /** An audience statement is accepted iff it is one quoted audience. */
  lemma AudienceExact(body: string)
    ensures IsAudience(body) <==> PinsAudience(body)
  {
    if IsAudience(body) {
      var a := StripPrefix(body, "audience(\"").value;
      var name := StripSuffix(a, "\")").value;
      assert body == AudienceText(name);
    }
    if name :| '"' !in name && body == AudienceText(name) {
      assert StripPrefix(body, "audience(\"") == Some(name + "\")");
      assert StripSuffix(name + "\")", "\")") == Some(name);
    }
  }

  // ---------------------------------------------------------------- statements and sources

  /** A statement is recognised by at most one of the readers: its first letters decide. */
  lemma ReadersDisjoint(lib: Library, body: string)
    requires body != ""
    ensures body[0] != 't' ==> ParseExpiry(lib, body).None? && ParseTools(lib, body).None?
    ensures body[0] != 'c' ==> ParseBudget(lib, body).None?
    ensures body[0] != 'a' ==> !IsAudience(body)
    ensures |body| > 1 && body[1] != 'i' ==> ParseExpiry(lib, body).None?
    ensures |body| > 1 && body[1] != 'o' ==> ParseTools(lib, body).None? || body[0] != 't'
  {
    assert "time"[0] == 't' && "time"[1] == 'i' && "tool"[0] == 't' && "tool"[1] == 'o' && "cost"[0] == 'c';
    assert "audience(\""[0] == 'a';
  }

  /** The text is one check of the four kinds, with this meaning. */
  ghost predicate Denotes(lib: Library, text: string, n: Narrowing) {
    match n
    case Expiry(unix) =>
      exists date :: lib.parseDate(date) == Some(unix as int) && Trimmed(date) && IsBound(lib, text, "time", date)
    case Budget(units) =>
      exists literal :: ParseI64(literal) == Some(units as int) && IsBound(lib, text, "cost", literal)
    case Tools(tools) => IsMembership(lib, text, tools)
    case Audience => PinsAudience(text)
  }

  /** Which reader accepts a text with which result. */
  predicate Reads(lib: Library, text: string, n: Narrowing) {
    match n
    case Expiry(unix) => ParseExpiry(lib, text) == Some(unix)
    case Budget(units) => ParseBudget(lib, text) == Some(units)
    case Tools(tools) => ParseTools(lib, text) == Some(tools)
    case Audience => IsAudience(text)
  }

  lemma ReadsExact(lib: Library, text: string, n: Narrowing)
    requires SaneAlphabet(lib)
    ensures Reads(lib, text, n) <==> Denotes(lib, text, n)
  {
    match n
    case Expiry(unix) => ExpiryExact(lib, text, unix);
    case Budget(units) => BudgetExact(lib, text, units);
    case Tools(tools) => ToolsExact(lib, text, tools);
    case Audience => AudienceExact(text);
  }

  /** What the readers give in the order in which they are tried. */
  function FirstReading(lib: Library, text: string): Option<Narrowing> {
    if ParseExpiry(lib, text).Some? then Some(Expiry(ParseExpiry(lib, text).value))
    else if ParseBudget(lib, text).Some? then Some(Budget(ParseBudget(lib, text).value))
    else if ParseTools(lib, text).Some? then Some(Tools(ParseTools(lib, text).value))
    else if IsAudience(text) then Some(Audience)
    else None
  }

  /** No order is needed: at most one reader accepts. */
  lemma FirstReadingIff(lib: Library, text: string, n: Narrowing)
    ensures FirstReading(lib, text) == Some(n) <==> Reads(lib, text, n)
  {
    if text != "" { ReadersDisjoint(lib, text); }
    ReadersNonEmpty(lib);
  }

  lemma ReadersNonEmpty(lib: Library)
    ensures ParseExpiry(lib, "").None? && ParseBudget(lib, "").None? && ParseTools(lib, "").None? && !IsAudience("")
  {
  }

  /** The statement is `check if` and one such check. */
  ghost predicate IsStatement(lib: Library, statement: string, n: Narrowing) {
    exists body :: statement == "check if " + body && Denotes(lib, Trim(body), n)
  }

  /** Classification accepts exactly the statements of the four kinds, with their meaning. */
  lemma ClassifyExact(lib: Library, statement: string, n: Narrowing)
    requires SaneAlphabet(lib)
    ensures Classify(lib, statement) == Ok(n) <==> IsStatement(lib, statement, n)
  {
    var body := StripPrefix(statement, "check if ");
    ClassifyReads(lib, statement, n);
    if body.Some? {
      assert statement == "check if " + body.value;
      ReadsExact(lib, Trim(body.value), n);
    }
    if b :| statement == "check if " + b && Denotes(lib, Trim(b), n) {
      assert body == Some(b);
    }
  }

  lemma ClassifyReads(lib: Library, statement: string, n: Narrowing)
    ensures
      var body := StripPrefix(statement, "check if ");
      Classify(lib, statement) == Ok(n) <==> body.Some? && Reads(lib, Trim(body.value), n)
  {
    var body := StripPrefix(statement, "check if ");
    if body.Some? { FirstReadingIff(lib, Trim(body.value), n); }
  }

  /** A line holds one statement and a semicolon, blanks aside. */
  ghost predicate LineDenotes(lib: Library, line: string, n: Narrowing) {
    exists s :: Trim(line) == s + ";" && IsStatement(lib, Trim(s), n)
  }

  /** Blank lines aside, the lines hold statements with these meanings, in order. */
  ghost predicate LinesDenote(lib: Library, lines: seq<string>, ns: seq<Narrowing>)
    decreases |lines|
  {
    if lines == [] then ns == []
    else if Trim(lines[0]) == "" then LinesDenote(lib, lines[1..], ns)
    else ns != [] && LineDenotes(lib, lines[0], ns[0]) && LinesDenote(lib, lines[1..], ns[1..])
  }

  function ClassifyAll(lib: Library, statements: seq<string>): Option<seq<Narrowing>> {
    if statements == [] then Some([])
    else if Classify(lib, statements[0]).Err? then None
    else
      var rest :- ClassifyAll(lib, statements[1..]);
      Some([Classify(lib, statements[0]).value] + rest)
  }

  function NarrowAll(claims: Claims, ns: seq<Narrowing>): Claims
    decreases |ns|
  {
    if ns == [] then claims else NarrowAll(Narrow(claims, ns[0]), ns[1..])
  }

  lemma {:induction false} NarrowByMeaning(lib: Library, claims: Claims, statements: seq<string>)
    ensures
      var r, ns := NarrowBy(lib, claims, statements), ClassifyAll(lib, statements);
      && (r.Ok? <==> ns.Some?)
      && (r.Ok? ==> r.value == NarrowAll(claims, ns.value))
    decreases |statements|
  {
    if statements != [] && Classify(lib, statements[0]).Ok? {
      NarrowByMeaning(lib, Narrow(claims, Classify(lib, statements[0]).value), statements[1..]);
    }
  }

  lemma LineExact(lib: Library, line: string, n: Narrowing)
    requires SaneAlphabet(lib)
    ensures
      var body := StripSuffix(Trim(line), ";");
      LineDenotes(lib, line, n) <==> body.Some? && Classify(lib, Trim(body.value)) == Ok(n)
  {
    var body := StripSuffix(Trim(line), ";");
    if body.Some? {
      ClassifyExact(lib, Trim(body.value), n);
      assert Trim(line) == body.value + ";";
    }
    if s :| Trim(line) == s + ";" && IsStatement(lib, Trim(s), n) {
      assert body == Some(s);
    }
  }

  lemma {:induction false} LinesExact(lib: Library, lines: seq<string>, ns: seq<Narrowing>)
    requires SaneAlphabet(lib)
    ensures
      var statements := StatementsOf(lines);
      LinesDenote(lib, lines, ns) <==> statements.Ok? && ClassifyAll(lib, statements.value) == Some(ns)
    decreases |lines|
  {
    if lines != [] && Trim(lines[0]) == "" {
      LinesExact(lib, lines[1..], ns);
    } else if lines != [] {
      LinesStep(lib, lines, ns);
    }
  }

  lemma {:induction false} LinesStep(lib: Library, lines: seq<string>, ns: seq<Narrowing>)
    requires SaneAlphabet(lib) && lines != [] && Trim(lines[0]) != ""
    ensures
      var statements := StatementsOf(lines);
      LinesDenote(lib, lines, ns) <==> statements.Ok? && ClassifyAll(lib, statements.value) == Some(ns)
    decreases |lines|, 0
  {
    var body, rest := StripSuffix(Trim(lines[0]), ";"), StatementsOf(lines[1..]);
    if ns != [] {
      LineExact(lib, lines[0], ns[0]);
      LinesExact(lib, lines[1..], ns[1..]);
    }
    if body.Some? && rest.Ok? {
      ClassifyAllCons(lib, Trim(body.value), rest.value, ns);
    }
  }

  lemma ClassifyAllCons(lib: Library, statement: string, rest: seq<string>, ns: seq<Narrowing>)
    ensures ClassifyAll(lib, [statement] + rest) == Some(ns) <==>
      ns != [] && Classify(lib, statement) == Ok(ns[0]) && ClassifyAll(lib, rest) == Some(ns[1..])
  {
    ConsParts(statement, rest);
    if ns != [] { HeadTail(ns); }
  }

  /** FAIL-CLOSED, EXACTLY: a block source narrows claims `claims` to `c` iff, blank lines
      aside, each of its lines is `check if`, one check of the four grammars and `;`, and `c`
      is what those checks leave; every other text is rejected. */
  lemma SourceExact(lib: Library, claims: Claims, source: string, c: Claims)
    requires SaneAlphabet(lib)
    ensures
      var statements := StatementsOf(Lines(source));
      (statements.Ok? && NarrowBy(lib, claims, statements.value) == Ok(c)) <==>
      exists ns :: LinesDenote(lib, Lines(source), ns) && c == NarrowAll(claims, ns)
  {
    var statements := StatementsOf(Lines(source));
    if statements.Ok? {
      NarrowByMeaning(lib, claims, statements.value);
      if NarrowBy(lib, claims, statements.value) == Ok(c) {
        LinesExact(lib, Lines(source), ClassifyAll(lib, statements.value).value);
      }
    }
    if ns :| LinesDenote(lib, Lines(source), ns) && c == NarrowAll(claims, ns) {
      LinesExact(lib, Lines(source), ns);
    }
  }
}
