/** Re-reading attenuation blocks as printed Datalog and projecting them into claims. */
module CapTokenProjection {
  import opened Basics
  import opened Text
  import opened CapToken

  /** What is foreign to this repository: date rendering, the alphanumeric class and the
      order in which a set's members are printed. */
  datatype Library = Library(
    printDate: u64 -> string,
    parseDate: string -> Option<int>,
    isAlphanumeric: char -> bool,
    setOrder: set<string> -> seq<string>)

  datatype Error = Unprojectable(statement: string)

  datatype Narrowing =
    | Expiry(unix: u64)
    | Budget(units: u64)
    | Tools(allowed: set<string>)
    | Audience

  // ---------------------------------------------------------------- the printed form

  function Quoted(s: string): string {
    "\"" + s + "\""
  }

  function QuotedList(names: seq<string>): string {
    if names == [] then ""
    else if |names| == 1 then Quoted(names[0])
    else Quoted(names[0]) + ", " + QuotedList(names[1..])
  }

  function SetLiteral(lib: Library, s: set<string>): string {
    if s == {} then "{,}" else "{" + QuotedList(lib.setOrder(s)) + "}"
  }

  function CheckBody(lib: Library, check: Check): string {
    match check
    case TimeAtMost(u) => "time($t), $t <= " + lib.printDate(u)
    case AudienceIs(a) => "audience(" + Quoted(a) + ")"
    case CostAtMost(n) => "cost($c), $c <= " + IntText(n)
    case ToolIn(ts) => "tool($x), " + SetLiteral(lib, ts) + ".contains($x)"
  }

  function Statement(lib: Library, check: Check): string {
    "check if " + CheckBody(lib, check)
  }

  /** Each check on its own line, terminated by `;`. */
  function BlockSource(lib: Library, block: seq<Check>): string {
    if block == [] then ""
    else Statement(lib, block[0]) + ";" + "\n" + BlockSource(lib, block[1..])
  }

  // ---------------------------------------------------------------- the parser

  predicate IsVariable(lib: Library, term: string) {
    && |term| >= 2 && term[0] == '$'
    && forall i :: 1 <= i < |term| ==> lib.isAlphanumeric(term[i]) || term[i] == '_'
  }

  /** A variable is a dollar sign and a non-empty name of letters, digits and underscores. */
  lemma VariableExact(lib: Library, term: string)
    ensures IsVariable(lib, term) <==>
      exists name :: name != "" && term == "$" + name && forall c :: c in name ==> lib.isAlphanumeric(c) || c in "_"
  {
    if IsVariable(lib, term) {
      var name := term[1..];
      assert term == "$" + name && forall c :: c in name ==> lib.isAlphanumeric(c) || c in "_";
    }
    if name :| name != "" && term == "$" + name && forall c :: c in name ==> lib.isAlphanumeric(c) || c in "_" {
      assert forall i :: 1 <= i < |term| ==> term[i] == name[i - 1];
    }
  }

  /** `name($var), rest` */
  function StripUnaryPredicate(lib: Library, body: string, name: string): Option<(string, string)> {
    var a :- StripPrefix(body, name);
    var b :- StripPrefix(a, "(");
    var parts :- SplitOnce(b, ')');
    var v := Trim(parts.0);
    if !IsVariable(lib, v) then None
    else
      var rest :- StripPrefix(TrimStart(parts.1), ",");
      Some((v, TrimStart(rest)))
  }

  /** `$var <= operand` */
  function StripLessOrEqual(rest: string, v: string): Option<string> {
    var a :- StripPrefix(rest, v);
    var b :- StripPrefix(TrimStart(a), "<=");
    Some(Trim(b))
  }

  function ToU64(n: Option<int>): Option<u64> {
    if n.Some? && 0 <= n.value <= U64_MAX then Some(n.value) else None
  }

  function ParseExpiry(lib: Library, body: string): Option<u64> {
    var p :- StripUnaryPredicate(lib, body, "time");
    var date :- StripLessOrEqual(p.1, p.0);
    ToU64(lib.parseDate(date))
  }

  function ParseBudget(lib: Library, body: string): Option<u64> {
    var p :- StripUnaryPredicate(lib, body, "cost");
    var literal :- StripLessOrEqual(p.1, p.0);
    ToU64(ParseI64(literal))
  }

  /** The members of a non-empty set literal, from `remaining` to its end. */
  function ParseMembers(remaining: string): Option<set<string>>
    decreases |remaining|
  {
    var text := TrimStart(remaining);
    var afterQuote :- StripPrefix(text, "\"");
    var parts :- SplitOnce(afterQuote, '"');
    var tail := TrimStart(parts.1);
    if tail == "" then Some({parts.0})
    else
      var next :- StripPrefix(tail, ",");
      var others :- ParseMembers(next);
      Some({parts.0} + others)
  }

  function StringSet(literal: string): Option<set<string>> {
    var a :- StripPrefix(literal, "{");
    var b :- StripSuffix(a, "}");
    var inner := Trim(b);
    if inner == "" || inner == "," then Some({}) else ParseMembers(inner)
  }

  function ParseTools(lib: Library, body: string): Option<set<string>> {
    var p :- StripUnaryPredicate(lib, body, "tool");
    var literal :- StripSuffix(p.1, ".contains(" + p.0 + ")");
    StringSet(literal)
  }

  predicate IsAudience(body: string) {
    var a := StripPrefix(body, "audience(\"");
    a.Some? &&
    var b := StripSuffix(a.value, "\")");
    b.Some? && '"' !in b.value
  }

  function Classify(lib: Library, statement: string): Result<Narrowing, Error> {
    var body := StripPrefix(statement, "check if ");
    if body.None? then Err(Unprojectable(statement))
    else
      var text := Trim(body.value);
      var unix, units, tools :=
        ParseExpiry(lib, text), ParseBudget(lib, text), ParseTools(lib, text);
      if unix.Some? then Ok(Expiry(unix.value))
      else if units.Some? then Ok(Budget(units.value))
      else if tools.Some? then Ok(Tools(tools.value))
      else if IsAudience(text) then Ok(Audience)
      else Err(Unprojectable(statement))
  }

  /** The statements of a list of lines; a non-blank line must end in `;`. */
  function StatementsOf(lines: seq<string>): Result<seq<string>, Error> {
    if lines == [] then Ok([])
    else
      var line := Trim(lines[0]);
      if line == "" then StatementsOf(lines[1..])
      else
        var body := StripSuffix(line, ";");
        if body.None? then Err(Unprojectable(line))
        else
          var rest :- StatementsOf(lines[1..]);
          Ok([Trim(body.value)] + rest)
  }

  // ---------------------------------------------------------------- projecting

  function Retain(tools: seq<string>, allowed: set<string>): seq<string> {
    if tools == [] then []
    else (if tools[0] in allowed then [tools[0]] else []) + Retain(tools[1..], allowed)
  }

  function Min(a: u64, b: u64): u64 {
    if a <= b then a else b
  }

  function Narrow(claims: Claims, n: Narrowing): Claims {
    match n
    case Expiry(u) => claims.(expires := Min(claims.expires, u))
    case Budget(b) => claims.(budget := Min(claims.budget, b))
    case Tools(ts) => claims.(tools := Retain(claims.tools, ts))
    case Audience => claims
  }

  function NarrowBy(lib: Library, claims: Claims, statements: seq<string>): Result<Claims, Error>
    decreases |statements|
  {
    if statements == [] then Ok(claims)
    else
      var n :- Classify(lib, statements[0]);
      NarrowBy(lib, Narrow(claims, n), statements[1..])
  }

  /** The claims after every block of `blocks` has been printed, re-read and intersected. */
  function Project(lib: Library, claims: Claims, blocks: seq<seq<Check>>): Result<Claims, Error>
    decreases |blocks|
  {
    if blocks == [] then Ok(claims)
    else
      var statements :- StatementsOf(Lines(BlockSource(lib, blocks[0])));
      var narrowed :- NarrowBy(lib, claims, statements);
      Project(lib, narrowed, blocks[1..])
  }

  // ---------------------------------------------------------------- the loops

  function Prepend(done: seq<string>, rest: Result<seq<string>, Error>): Result<seq<string>, Error> {
    match rest
    case Ok(more) => Ok(done + more)
    case Err(e) => Err(e)
  }

  lemma StatementsStep(done: seq<string>, lines: seq<string>)
    requires lines != []
    ensures
      var line := Trim(lines[0]);
      var body := StripSuffix(line, ";");
      Prepend(done, StatementsOf(lines)) ==
      if line == "" then Prepend(done, StatementsOf(lines[1..]))
      else if body.None? then Err(Unprojectable(line))
      else Prepend(done + [Trim(body.value)], StatementsOf(lines[1..]))
  {
    var rest := StatementsOf(lines[1..]);
    var body := StripSuffix(Trim(lines[0]), ";");
    if body.Some? && rest.Ok? {
      Associative(done, [Trim(body.value)], rest.value);
    }
  }

  method BlockStatements(source: string) returns (r: Result<seq<string>, Error>)
    ensures r == StatementsOf(Lines(source))
  {
    var statements := [];
    var lines := Lines(source);
    assert lines[0..] == lines && Prepend([], StatementsOf(lines)) == StatementsOf(lines) by {
      if StatementsOf(lines).Ok? { assert [] + StatementsOf(lines).value == StatementsOf(lines).value; }
    }
    for k := 0 to |lines|
      invariant StatementsOf(lines) ==
        Prepend(statements, StatementsOf(lines[k..]))
    {
      assert lines[k..][1..] == lines[k + 1..];
      StatementsStep(statements, lines[k..]);
      var line := Trim(lines[k]);
      if line != "" {
        var body := StripSuffix(line, ";");
        if body.None? {
          return Err(Unprojectable(line));
        }
        statements := statements + [Trim(body.value)];
      }
    }
    assert statements + [] == statements;
    return Ok(statements);
  }

  function Include(done: set<string>, rest: Option<set<string>>): Option<set<string>> {
    match rest
    case Some(more) => Some(done + more)
    case None => None
  }

  method ParseStringSet(literal: string) returns (r: Option<set<string>>)
    ensures r == StringSet(literal)
  {
    var a := StripPrefix(literal, "{");
    if a.None? { return None; }
    var b := StripSuffix(a.value, "}");
    if b.None? { return None; }
    var inner := Trim(b.value);
    if inner == "" || inner == "," { return Some({}); }
    var members, remaining := {}, inner;
    assert forall s: set<string> :: {} + s == s;
    while true
      invariant ParseMembers(inner) == Include(members, ParseMembers(remaining))
      decreases |remaining|
    {
      var afterQuote := StripPrefix(TrimStart(remaining), "\"");
      if afterQuote.None? { return None; }
      var parts := SplitOnce(afterQuote.value, '"');
      if parts.None? { return None; }
      members := members + {parts.value.0};
      var tail := TrimStart(parts.value.1);
      if tail == "" { return Some(members); }
      var next := StripPrefix(tail, ",");
      if next.None? { return None; }
      assert forall done: set<string>, v, s :: done + ({v} + s) == done + {v} + s;
      remaining := next.value;
    }
  }

  lemma NarrowByStep(lib: Library, claims: Claims, statements: seq<string>, k: nat, n: Result<Narrowing, Error>)
    requires k < |statements| && n == Classify(lib, statements[k])
    ensures NarrowBy(lib, claims, statements[k..]) ==
      if n.Ok? then NarrowBy(lib, Narrow(claims, n.value), statements[k + 1..]) else Err(n.error)
  {
    assert statements[k..][1..] == statements[k + 1..];
  }

  /** One attenuation block: every statement narrows the claims, in order. */
  method NarrowByBlock(lib: Library, block: seq<Check>, claims: Claims) returns (r: Result<Claims, Error>)
    ensures
      var statements := StatementsOf(Lines(BlockSource(lib, block)));
      r == if statements.Ok? then NarrowBy(lib, claims, statements.value) else Err(statements.error)
  {
    var expires, budget, tools := claims.expires, claims.budget, claims.tools;
    var statements := BlockStatements(BlockSource(lib, block));
    if statements.Err? {
      return Err(statements.error);
    }
    for k := 0 to |statements.value|
      invariant NarrowBy(lib, claims, statements.value) ==
        NarrowBy(lib, claims.(expires := expires, budget := budget, tools := tools), statements.value[k..])
    {
      var n := Classify(lib, statements.value[k]);
      NarrowByStep(lib, claims.(expires := expires, budget := budget, tools := tools), statements.value, k, n);
      if n.Err? {
        return Err(n.error);
      }
      match n.value
      case Expiry(unix) => expires := Min(expires, unix);
      case Budget(units) => budget := Min(budget, units);
      case Tools(allowed) => tools := Retain(tools, allowed);
      case Audience =>
    }
    return Ok(claims.(expires := expires, budget := budget, tools := tools));
  }

  lemma ProjectStep(lib: Library, claims: Claims, blocks: seq<seq<Check>>, k: nat)
    requires k < |blocks|
    ensures
      var statements := StatementsOf(Lines(BlockSource(lib, blocks[k])));
      var narrowed := if statements.Ok? then NarrowBy(lib, claims, statements.value) else Err(statements.error);
      Project(lib, claims, blocks[k..]) ==
      if narrowed.Ok? then Project(lib, narrowed.value, blocks[k + 1..]) else Err(narrowed.error)
  {
    assert blocks[k..][0] == blocks[k] && blocks[k..][1..] == blocks[k + 1..];
  }

  method EffectiveClaimsFromBlocks(lib: Library, token: Token) returns (r: Result<Claims, Error>)
    requires |token.blocks| >= 1
    ensures r == Project(lib, token.context, token.blocks[1..])
  {
    var claims := token.context;
    for index := 1 to |token.blocks|
      invariant Project(lib, token.context, token.blocks[1..]) == Project(lib, claims, token.blocks[index..])
    {
      ProjectStep(lib, claims, token.blocks, index);
      var narrowed := NarrowByBlock(lib, token.blocks[index], claims);
      if narrowed.Err? {
        return Err(narrowed.error);
      }
      claims := narrowed.value;
    }
    return Ok(claims);
  }
}
