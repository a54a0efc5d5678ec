/** Which refusal a failed check is reported as. The verifier looks for the name of a predicate
    anywhere in the printed text of the failed checks. */
module CapAttribution {
  import opened Basics
  import opened Text
  import opened CapToken
  import opened CapTokenProjection
  import opened CapTokenExact

  datatype Cause = Expired | AudienceMismatch | ToolNotAllowed | BudgetExhausted | Unattributed

  // ---------------------------------------------------------------- the failed checks

  function FailedIn(block: seq<Check>, q: Request): seq<Check> {
    if block == [] then []
    else (if Holds(block[0], q) then [] else [block[0]]) + FailedIn(block[1..], q)
  }

  /** Every failed check of every block, in order. */
  function Failed(blocks: seq<seq<Check>>, q: Request): seq<Check> {
    if blocks == [] then [] else FailedIn(blocks[0], q) + Failed(blocks[1..], q)
  }

  lemma {:induction false} FailedInNone(block: seq<Check>, q: Request)
    ensures FailedIn(block, q) == [] <==> BlockHolds(block, q)
  {
    if block != [] {
      FailedInNone(block[1..], q);
      assert forall i :: 0 < i < |block| ==> block[i] == block[1..][i - 1];
    }
  }

  lemma {:induction false} FailedNone(blocks: seq<seq<Check>>, q: Request)
    ensures Failed(blocks, q) == [] <==> forall i :: 0 <= i < |blocks| ==> BlockHolds(blocks[i], q)
  {
    if blocks != [] {
      FailedInNone(blocks[0], q);
      FailedNone(blocks[1..], q);
      assert forall i :: 0 < i < |blocks| ==> blocks[i] == blocks[1..][i - 1];
    }
  }

  lemma {:induction false} FailedFrom(blocks: seq<seq<Check>>, q: Request, c: Check)
    requires c in Failed(blocks, q)
    ensures !Holds(c, q) && exists i :: 0 <= i < |blocks| && c in blocks[i]
  {
    if c in FailedIn(blocks[0], q) {
      FailedInFrom(blocks[0], q, c);
    } else {
      FailedFrom(blocks[1..], q, c);
      var i :| 0 <= i < |blocks[1..]| && c in blocks[1..][i];
      assert c in blocks[i + 1];
    }
  }

  lemma {:induction false} FailedInFrom(block: seq<Check>, q: Request, c: Check)
    requires c in FailedIn(block, q)
    ensures !Holds(c, q) && c in block
  {
    if c !in (if Holds(block[0], q) then [] else [block[0]]) { FailedInFrom(block[1..], q, c); }
  }

  // ---------------------------------------------------------------- attribution by text

  /** `str::contains` */
  predicate Contains(s: string, m: string) {
    exists i :: 0 <= i <= |s| - |m| && OccursAt(s, m, i)
  }

  predicate OccursAt(s: string, m: string, i: nat)
    requires i + |m| <= |s|
  {
    forall k :: 0 <= k < |m| ==> s[i + k] == m[k]
  }

  predicate AnyContains(rules: seq<string>, m: string) {
    exists k :: 0 <= k < |rules| && Contains(rules[k], m)
  }

  const TIME := "time("
  const AUDIENCE := "audience("
  const TOOL := "tool("
  const COST := "cost("

  /** `map_authz_error`, on the printed rules of the failed checks. */
  function MapAuthzError(rules: seq<string>): Cause {
    if AnyContains(rules, TIME) then Expired
    else if AnyContains(rules, AUDIENCE) then AudienceMismatch
    else if AnyContains(rules, TOOL) then ToolNotAllowed
    else if AnyContains(rules, COST) then BudgetExhausted
    else Unattributed
  }

  function Rules(lib: Library, checks: seq<Check>): seq<string> {
    seq(|checks|, i requires 0 <= i < |checks| => Statement(lib, checks[i]))
  }

  // ---------------------------------------------------------------- attribution by meaning

  predicate AnyTime(checks: seq<Check>) { exists k :: 0 <= k < |checks| && checks[k].TimeAtMost? }
  predicate AnyAudience(checks: seq<Check>) { exists k :: 0 <= k < |checks| && checks[k].AudienceIs? }
  predicate AnyTool(checks: seq<Check>) { exists k :: 0 <= k < |checks| && checks[k].ToolIn? }

  /** The most fundamental kind among the failed checks: expiry, audience, tool, budget. */
  function CauseOf(checks: seq<Check>): Cause {
    if AnyTime(checks) then Expired
    else if AnyAudience(checks) then AudienceMismatch
    else if AnyTool(checks) then ToolNotAllowed
    else if checks != [] then BudgetExhausted
    else Unattributed
  }

  /** A name in the check contains this text. */
  predicate NameContains(c: Check, m: string) {
    match c
    case AudienceIs(a) => Contains(a, m)
    case ToolIn(ts) => exists t :: t in ts && Contains(t, m)
    case _ => false
  }

  predicate AnyNameContains(checks: seq<Check>, m: string) {
    exists k :: 0 <= k < |checks| && NameContains(checks[k], m)
  }

  // ---------------------------------------------------------------- occurrences

  /** A marker: something before one parenthesis at its end, without quote, comma or blank. */
  predicate Marker(m: string) {
    && |m| >= 2 && m[|m| - 1] == '(' && (forall i :: 0 <= i < |m| - 1 ==> m[i] != '(')
    && '"' !in m && ',' !in m && ' ' !in m && '{' !in m && '=' !in m
  }

  lemma TimeMarker()
    ensures Marker(TIME)
  {
  }

  lemma AudienceMarker()
    ensures Marker(AUDIENCE)
  {
  }

  lemma ToolMarker()
    ensures Marker(TOOL)
  {
  }

  lemma CostMarker()
    ensures Marker(COST)
  {
  }

  predicate IsMarker(m: string) {
    m == TIME || m == AUDIENCE || m == TOOL || m == COST
  }

  lemma Markers(m: string)
    requires IsMarker(m)
    ensures Marker(m)
  {
    TimeMarker();
    AudienceMarker();
    ToolMarker();
    CostMarker();
  }

  /** An occurrence does not cross a character that the marker lacks. */
  lemma ContainsSplit(a: string, c: char, b: string, m: string)
    requires m != "" && c !in m
    ensures Contains(a + [c] + b, m) <==> Contains(a, m) || Contains(b, m)
  {
    var s := a + [c] + b;
    if Contains(a, m) {
      var i :| 0 <= i <= |a| - |m| && OccursAt(a, m, i);
      assert OccursAt(s, m, i);
    }
    if Contains(b, m) {
      var i :| 0 <= i <= |b| - |m| && OccursAt(b, m, i);
      forall k | 0 <= k < |m| ensures s[|a| + 1 + i + k] == m[k] { assert b[i + k] == m[k]; }
      assert OccursAt(s, m, |a| + 1 + i);
    }
    if Contains(s, m) {
      var i :| 0 <= i <= |s| - |m| && OccursAt(s, m, i);
      SplitOccurrence(a, c, b, m, i);
    }
  }

  predicate AgreeAt(s: string, m: string, i: int, k: int) {
    0 <= k < |m| && 0 <= i + k < |s| && s[i + k] == m[k]
  }

  lemma NotCrossed(s: string, m: string, i: nat, p: nat)
    requires i + |m| <= |s| && OccursAt(s, m, i) && p < |s| && s[p] !in m
    ensures !(i <= p < i + |m|)
  {
    assert i <= p < i + |m| ==> AgreeAt(s, m, i, p - i);
  }

  lemma SplitOccurrence(a: string, c: char, b: string, m: string, i: nat)
    requires m != "" && c !in m && i + |m| <= |a + [c] + b| && OccursAt(a + [c] + b, m, i)
    ensures Contains(a, m) || Contains(b, m)
  {
    var s := a + [c] + b;
    NotCrossed(s, m, i, |a|);
    if i + |m| <= |a| {
      assert OccursAt(a, m, i);
    } else if i > |a| {
      var j := i - |a| - 1;
      forall k | 0 <= k < |m| ensures b[j + k] == m[k] { assert s[i + k] == m[k]; }
      assert OccursAt(b, m, j);
    }
  }

  lemma NoParenthesis(s: string, m: string)
    requires Marker(m) && '(' !in s
    ensures !Contains(s, m)
  {
    forall i | 0 <= i <= |s| - |m| ensures !OccursAt(s, m, i) {
      assert s[i + (|m| - 1)] != m[|m| - 1];
    }
  }

  /** A text with one parenthesis contains the marker iff it stands right there. */
  lemma OneParenthesis(s: string, p: nat, m: string)
    requires Marker(m) && p < |s| && s[p] == '(' && forall i :: 0 <= i < |s| && i != p ==> s[i] != '('
    ensures Contains(s, m) <==> |m| <= p + 1 && OccursAt(s, m, p + 1 - |m|)
  {
    if Contains(s, m) {
      var i :| 0 <= i <= |s| - |m| && OccursAt(s, m, i);
      assert s[i + (|m| - 1)] == m[|m| - 1];
    }
  }

  lemma Differs(s: string, m: string, i: nat, k: nat)
    requires i + |m| <= |s| && k < |m| && s[i + k] != m[k]
    ensures !OccursAt(s, m, i)
  {
  }

  // ---------------------------------------------------------------- the printed checks

  const AUDIENCE_HEAD := "check if audience("
  const TOOL_HEAD := "check if tool($x), "
  const TOOL_TAIL := "}.contains($x)"
  const COST_HEAD := "check if cost($c), $c <"

  lemma AudienceHead(m: string)
    requires m == TIME || m == AUDIENCE
    ensures Contains(AUDIENCE_HEAD, m) <==> m == AUDIENCE
  {
    Markers(m);
    OneParenthesis(AUDIENCE_HEAD, 17, m);
    if m == TIME {
      Differs(AUDIENCE_HEAD, m, 13, 2);
    } else {
      assert OccursAt(AUDIENCE_HEAD, AUDIENCE, 9);
    }
  }

  lemma ToolHead(m: string)
    requires m == TIME || m == AUDIENCE || m == TOOL
    ensures Contains(TOOL_HEAD, m) <==> m == TOOL
    ensures !Contains(TOOL_TAIL, m)
  {
    Markers(m);
    OneParenthesis(TOOL_HEAD, 13, m);
    OneParenthesis(TOOL_TAIL, 10, m);
    if m == TIME {
      Differs(TOOL_HEAD, m, 9, 3);
      Differs(TOOL_TAIL, m, 6, 3);
    } else if m == AUDIENCE {
      Differs(TOOL_HEAD, m, 5, 7);
      Differs(TOOL_TAIL, m, 2, 7);
    } else {
      assert OccursAt(TOOL_HEAD, TOOL, 9);
      Differs(TOOL_TAIL, m, 6, 3);
    }
  }

  lemma CostHead(m: string)
    requires m == TIME || m == AUDIENCE || m == TOOL || m == COST
    ensures Contains(COST_HEAD, m) <==> m == COST
  {
    Markers(m);
    OneParenthesis(COST_HEAD, 13, m);
    if m == TIME {
      Differs(COST_HEAD, m, 9, 3);
    } else if m == AUDIENCE {
      Differs(COST_HEAD, m, 5, 7);
    } else if m == TOOL {
      Differs(COST_HEAD, m, 9, 3);
    } else {
      assert OccursAt(COST_HEAD, COST, 9);
    }
  }

  lemma TimeText(lib: Library, u: u64)
    ensures Contains(Statement(lib, TimeAtMost(u)), TIME)
  {
    var s := Statement(lib, TimeAtMost(u));
    assert OccursAt(s, TIME, 9);
  }

  lemma AudienceText(lib: Library, a: string, m: string)
    requires m == TIME || m == AUDIENCE
    ensures Contains(Statement(lib, AudienceIs(a)), m) <==> m == AUDIENCE || Contains(a, m)
  {
    Markers(m);
    var rest := a + ['"'] + ")";
    FramedAudience(a);
    ContainsSplit(AUDIENCE_HEAD, '"', rest, m);
    ContainsSplit(a, '"', ")", m);
    AudienceHead(m);
    NoParenthesis(")", m);
  }

  lemma CostText(lib: Library, n: int, m: string)
    requires 0 <= n && (m == TIME || m == AUDIENCE || m == TOOL || m == COST)
    ensures Contains(Statement(lib, CostAtMost(n)), m) <==> m == COST
  {
    Markers(m);
    var rest := " " + NatText(n);
    FramedCost(NatText(n));
    ContainsSplit(COST_HEAD, '=', rest, m);
    CostHead(m);
    NatTextValue(n);
    DigitsOnly(NatText(n));
    NoParenthesis(rest, m);
  }

  lemma DigitsOnly(digits: string)
    requires AllDigits(digits)
    ensures '(' !in " " + digits
  {
    forall i | 0 <= i < |digits| ensures digits[i] != '(' { assert IsDigit(digits[i]); }
  }

  lemma FramedCost(literal: string)
    ensures "check if " + ("cost($c), $c <= " + literal) == COST_HEAD + ['='] + (" " + literal)
  {
  }

  lemma FramedAudience(a: string)
    ensures "check if " + ("audience(" + Quoted(a) + ")") == AUDIENCE_HEAD + ['"'] + (a + ['"'] + ")")
  {
  }

  predicate AnyName(names: seq<string>, m: string) {
    exists i :: 0 <= i < |names| && Contains(names[i], m)
  }

  /** An occurrence in a quoted list lies in one name. */
  lemma {:induction false} QuotedListContains(names: seq<string>, rest: string, m: string)
    requires Marker(m)
    ensures Contains(QuotedList(names) + rest, m) <==> AnyName(names, m) || Contains(rest, m)
  {
    if names == [] {
      assert QuotedList(names) + rest == rest;
    } else if |names| == 1 {
      QuotedOne(names[0], rest, m);
      assert Quoted(names[0]) + rest == QuotedList(names) + rest;
    } else {
      var more := QuotedList(names[1..]) + rest;
      QuotedListContains(names[1..], rest, m);
      SeparatorContains(more, m);
      QuotedOne(names[0], ", " + more, m);
      ListText(Quoted(names[0]), QuotedList(names[1..]), rest);
      AnyNameCons(names, m);
    }
  }

  lemma AnyNameCons(names: seq<string>, m: string)
    requires names != []
    ensures AnyName(names, m) <==> Contains(names[0], m) || AnyName(names[1..], m)
  {
    if AnyName(names[1..], m) {
      var i :| 0 <= i < |names[1..]| && Contains(names[1..][i], m);
      assert Contains(names[i + 1], m);
    }
    if i :| 0 < i < |names| && Contains(names[i], m) {
      assert Contains(names[1..][i - 1], m);
    }
  }

  lemma ListText(a: string, b: string, c: string)
    ensures a + ", " + b + c == a + (", " + (b + c))
  {
    Associative(a, ", ", b);
    Associative(a, ", " + b, c);
    Associative(", ", b, c);
  }

  lemma QuotedOne(name: string, rest: string, m: string)
    requires Marker(m)
    ensures Contains(Quoted(name) + rest, m) <==> Contains(name, m) || Contains(rest, m)
  {
    var after := name + ['"'] + rest;
    assert Quoted(name) + rest == "" + ['"'] + after;
    ContainsSplit("", '"', after, m);
    ContainsSplit(name, '"', rest, m);
    NoParenthesis("", m);
  }

  lemma SeparatorContains(s: string, m: string)
    requires Marker(m)
    ensures Contains(", " + s, m) <==> Contains(s, m)
  {
    assert ", " + s == "" + [','] + (" " + s) && " " + s == "" + [' '] + s;
    ContainsSplit("", ',', " " + s, m);
    ContainsSplit("", ' ', s, m);
    NoParenthesis("", m);
  }

  lemma ToolText(lib: Library, ts: set<string>, m: string)
    requires Faithful(lib) && (m == TIME || m == AUDIENCE || m == TOOL)
    ensures Contains(Statement(lib, ToolIn(ts)), m) <==> m == TOOL || NameContains(ToolIn(ts), m)
  {
    Markers(m);
    ToolHead(m);
    if ts == {} {
      ContainsSplit(TOOL_HEAD, '{', "" + [','] + TOOL_TAIL, m);
      ContainsSplit("", ',', TOOL_TAIL, m);
      NoParenthesis("", m);
      EmptySetText(lib);
    } else {
      var names := lib.setOrder(ts);
      ContainsSplit(TOOL_HEAD, '{', QuotedList(names) + TOOL_TAIL, m);
      QuotedListContains(names, TOOL_TAIL, m);
      SetText(lib, ts);
      NamesOfSet(lib, ts, m);
    }
  }

  lemma EmptySetText(lib: Library)
    ensures Statement(lib, ToolIn({})) == TOOL_HEAD + ['{'] + ("" + [','] + TOOL_TAIL)
  {
    FramedSet(",");
  }

  lemma SetText(lib: Library, ts: set<string>)
    requires ts != {}
    ensures Statement(lib, ToolIn(ts)) == TOOL_HEAD + ['{'] + (QuotedList(lib.setOrder(ts)) + TOOL_TAIL)
  {
    FramedSet(QuotedList(lib.setOrder(ts)));
  }

  lemma FramedSet(list: string)
    ensures "check if " + ("tool($x), " + ("{" + list + "}") + ".contains($x)") ==
      TOOL_HEAD + ['{'] + (list + TOOL_TAIL)
  {
  }

  lemma NamesOfSet(lib: Library, ts: set<string>, m: string)
    requires Faithful(lib)
    ensures AnyName(lib.setOrder(ts), m) <==> NameContains(ToolIn(ts), m)
  {
    var names := lib.setOrder(ts);
    assert SetOf(names) == ts;
    if AnyName(names, m) {
      var i :| 0 <= i < |names| && Contains(names[i], m);
      assert names[i] in SetOf(names);
    }
    if NameContains(ToolIn(ts), m) {
      var t :| t in ts && Contains(t, m);
      assert t in SetOf(names);
      var i :| 0 <= i < |names| && names[i] == t;
    }
  }

  // ---------------------------------------------------------------- exactness

  /** The printed text mentions a predicate iff it is the check's own or a name contains it. */
  lemma TextMentions(lib: Library, c: Check, m: string)
    requires Faithful(lib) && !c.TimeAtMost? && (c.CostAtMost? ==> 0 <= c.units)
    requires m == TIME || (m == AUDIENCE && !AnyAudience([c])) || (m == TOOL && c.CostAtMost?)
    ensures Contains(Statement(lib, c), m) <==> NameContains(c, m)
  {
    if c.AudienceIs? { assert AnyAudience([c]) by { assert [c][0].AudienceIs?; } }
    match c
    case AudienceIs(a) => AudienceText(lib, a, m);
    case ToolIn(ts) => ToolText(lib, ts, m);
    case CostAtMost(n) => CostText(lib, n, m);
  }

  lemma RulesMention(lib: Library, checks: seq<Check>, m: string)
    requires Faithful(lib) && forall k :: 0 <= k < |checks| ==>
      && !checks[k].TimeAtMost? && (checks[k].CostAtMost? ==> 0 <= checks[k].units)
      && (m == TIME || (m == AUDIENCE && !checks[k].AudienceIs?) || (m == TOOL && checks[k].CostAtMost?))
    ensures AnyContains(Rules(lib, checks), m) <==> AnyNameContains(checks, m)
  {
    forall k | 0 <= k < |checks|
      ensures Contains(Rules(lib, checks)[k], m) <==> NameContains(checks[k], m)
    {
      assert m == AUDIENCE ==> !AnyAudience([checks[k]]);
      TextMentions(lib, checks[k], m);
    }
    if AnyContains(Rules(lib, checks), m) {
      var k :| 0 <= k < |Rules(lib, checks)| && Contains(Rules(lib, checks)[k], m);
      assert NameContains(checks[k], m);
    }
    if AnyNameContains(checks, m) {
      var k :| 0 <= k < |checks| && NameContains(checks[k], m);
      assert Contains(Rules(lib, checks)[k], m);
    }
  }

  predicate NonNegative(checks: seq<Check>) {
    forall k :: 0 <= k < |checks| && checks[k].CostAtMost? ==> 0 <= checks[k].units
  }

  /** A failed check names an audience or tool whose text looks like a more fundamental
      predicate. */
  predicate Misleading(checks: seq<Check>) {
    match CauseOf(checks)
    case AudienceMismatch => AnyNameContains(checks, TIME)
    case ToolNotAllowed => AnyNameContains(checks, TIME) || AnyNameContains(checks, AUDIENCE)
    case _ => false
  }

  lemma AnOwn(lib: Library, checks: seq<Check>, k: nat, m: string)
    requires k < |checks| && Contains(Statement(lib, checks[k]), m)
    ensures AnyContains(Rules(lib, checks), m)
  {
    assert Contains(Rules(lib, checks)[k], m);
  }

  /** THE CAUSE REPORTED IS THE CAUSE, for any failed checks, iff no name among them looks like a
      more fundamental predicate than the ones that failed; some cause is always reported. */
  lemma AttributedRightIff(lib: Library, checks: seq<Check>)
    requires Faithful(lib) && NonNegative(checks)
    ensures MapAuthzError(Rules(lib, checks)) == CauseOf(checks) <==> !Misleading(checks)
    ensures checks != [] ==> MapAuthzError(Rules(lib, checks)) != Unattributed
  {
    if AnyTime(checks) {
      var k :| 0 <= k < |checks| && checks[k].TimeAtMost?;
      TimeText(lib, checks[k].unix);
      AnOwn(lib, checks, k, TIME);
    } else {
      RulesMention(lib, checks, TIME);
      if AnyAudience(checks) {
        AudienceAttributed(lib, checks);
      } else {
        RulesMention(lib, checks, AUDIENCE);
        if AnyTool(checks) { ToolAttributed(lib, checks); } else { CostAttributed(lib, checks); }
      }
    }
  }

  lemma AudienceAttributed(lib: Library, checks: seq<Check>)
    requires AnyAudience(checks)
    ensures AnyContains(Rules(lib, checks), AUDIENCE)
  {
    var k :| 0 <= k < |checks| && checks[k].AudienceIs?;
    AudienceText(lib, checks[k].audience, AUDIENCE);
    AnOwn(lib, checks, k, AUDIENCE);
  }

  lemma ToolAttributed(lib: Library, checks: seq<Check>)
    requires Faithful(lib) && AnyTool(checks)
    ensures AnyContains(Rules(lib, checks), TOOL)
  {
    var k :| 0 <= k < |checks| && checks[k].ToolIn?;
    ToolText(lib, checks[k].tools, TOOL);
    AnOwn(lib, checks, k, TOOL);
  }

  lemma CostAttributed(lib: Library, checks: seq<Check>)
    requires Faithful(lib) && NonNegative(checks) && !AnyTime(checks) && !AnyAudience(checks) && !AnyTool(checks)
    ensures !AnyNameContains(checks, TIME) && !AnyNameContains(checks, AUDIENCE)
    ensures !AnyContains(Rules(lib, checks), TOOL)
    ensures AnyContains(Rules(lib, checks), COST) <==> checks != []
  {
    RulesMention(lib, checks, TOOL);
    if checks != [] {
      CostText(lib, checks[0].units, COST);
      AnOwn(lib, checks, 0, COST);
    }
  }

  /** What a refused request is told. */
  function Attribution(lib: Library, token: Token, q: Request): Cause {
    MapAuthzError(Rules(lib, Failed(token.blocks, q)))
  }

  lemma IssuedNonNegative(tokenId: string, holder: string, scope: Scope, rules: seq<Rule>, q: Request)
    ensures NonNegative(Failed(AttenuateAll(Issue(tokenId, holder, scope), rules).blocks, q))
  {
    var issued := Issue(tokenId, holder, scope);
    var token := AttenuateAll(issued, rules);
    AttenuateAllBlocks(issued, rules);
    var checks := Failed(token.blocks, q);
    forall k | 0 <= k < |checks| && checks[k].CostAtMost? ensures 0 <= checks[k].units {
      FailedFrom(token.blocks, q, checks[k]);
      var i :| 0 <= i < |token.blocks| && checks[k] in token.blocks[i];
      if i == 0 {
        assert token.blocks[0] == token.blocks[..1][0] == issued.blocks[0];
      } else {
        assert token.blocks[1 + (i - 1)] == [CheckOf(rules[i - 1])];
      }
    }
  }

  /** Every refused request on an attenuated token is told a cause, and the most fundamental one
      that failed iff no failed check holds a misleading name. */
  lemma RefusalsAttributed(
    lib: Library, tokenId: string, holder: string, scope: Scope, rules: seq<Rule>, q: Request)
    requires Faithful(lib) && !Authorized(AttenuateAll(Issue(tokenId, holder, scope), rules), q)
    ensures
      var token := AttenuateAll(Issue(tokenId, holder, scope), rules);
      var failed := Failed(token.blocks, q);
      && failed != [] && CauseOf(failed) != Unattributed && Attribution(lib, token, q) != Unattributed
      && (Attribution(lib, token, q) == CauseOf(failed) <==> !Misleading(failed))
  {
    var token := AttenuateAll(Issue(tokenId, holder, scope), rules);
    FailedNone(token.blocks, q);
    IssuedNonNegative(tokenId, holder, scope, rules, q);
    AttributedRightIff(lib, Failed(token.blocks, q));
  }

  /** A request for another audience is told that the token expired, because the audience of the
      token is called `time(`. */
  lemma AudienceReportedAsExpiry(lib: Library)
    requires Faithful(lib)
    ensures
      var token, q := Issue("t", "h", Scope(TIME, 10, 1, ["x"])), Request(0, "b", "x", 0);
      && CauseOf(Failed(token.blocks, q)) == AudienceMismatch
      && Attribution(lib, token, q) == Expired
  {
    FailedAudience();
    var checks := [AudienceIs(TIME)];
    assert checks[0].AudienceIs? && AnyAudience(checks);
    assert Contains(TIME, TIME) by { assert OccursAt(TIME, TIME, 0); }
    AudienceText(lib, TIME, TIME);
    AnOwn(lib, checks, 0, TIME);
  }

  lemma FailedAudience()
    ensures Failed(Issue("t", "h", Scope(TIME, 10, 1, ["x"])).blocks, Request(0, "b", "x", 0)) == [AudienceIs(TIME)]
  {
    var blocks, q := Issue("t", "h", Scope(TIME, 10, 1, ["x"])).blocks, Request(0, "b", "x", 0);
    var a, b, c, d := blocks[0][0], blocks[0][1], blocks[0][2], blocks[0][3];
    assert blocks[0] == [a, b, c, d] && blocks[1..] == [];
    assert TIME[0] == 't' && "b"[0] == 'b';
    assert Holds(a, q) && !Holds(b, q) && Holds(c, q) && Holds(d, q);
    FailedOfFour(a, b, c, d, q);
    assert Failed(blocks, q) == FailedIn(blocks[0], q) + [];
  }

  lemma FailedOfFour(a: Check, b: Check, c: Check, d: Check, q: Request)
    requires Holds(a, q) && !Holds(b, q) && Holds(c, q) && Holds(d, q)
    ensures FailedIn([a, b, c, d], q) == [b]
  {
    assert [a, b, c, d][1..] == [b, c, d] && [b, c, d][1..] == [c, d] && [c, d][1..] == [d] && [d][1..] == [];
    assert FailedIn([d], q) == [] && FailedIn([c, d], q) == [] && FailedIn([b, c, d], q) == [b];
  }
}
