/** The projected claims describe exactly the authority the checks enforce. */
module CapTokenExact {
  import opened Basics
  import opened Text
  import opened CapToken
  import opened CapTokenProjection
  import opened CapTokenGrammar

  // ---------------------------------------------------------------- what is assumed and excluded

  /** Dates print on one line without blank ends and read back as themselves or as no `u64`;
      a printed set lists exactly its members. */
  ghost predicate Faithful(lib: Library) {
    && SaneAlphabet(lib)
    && (forall s :: SetOf(lib.setOrder(s)) == s)
    && (forall u: u64 ::
          var d := lib.printDate(u);
          d != "" && Trimmed(d) && '\n' !in d && ToU64(lib.parseDate(d)) in {None, Some(u)})
  }

  /** The date lies in the range the date library can print and parse. */
  predicate Representable(lib: Library, u: u64) {
    lib.parseDate(lib.printDate(u)) == Some(u)
  }

  predicate CleanName(s: string) {
    '"' !in s && '\n' !in s
  }

  predicate CleanRule(rule: Rule) {
    match rule
    case RestrictAudience(a) => CleanName(a)
    case RestrictTools(ts) => forall i :: 0 <= i < |ts| ==> CleanName(ts[i])
    case _ => true
  }

  predicate CleanRules(rules: seq<Rule>) {
    forall i :: 0 <= i < |rules| ==> CleanRule(rules[i])
  }

  predicate Datable(lib: Library, rule: Rule) {
    rule.EarlierExpiry? ==> Representable(lib, rule.unix)
  }

  predicate AllDatable(lib: Library, rules: seq<Rule>) {
    forall i :: 0 <= i < |rules| ==> Datable(lib, rules[i])
  }

  function NarrowingOf(rule: Rule): Narrowing {
    match rule
    case RestrictAudience(_) => Audience
    case EarlierExpiry(u) => Expiry(u)
    case ReduceBudget(n) => Budget(Clamp(n))
    case RestrictTools(ts) => Tools(SetOf(ts))
  }

  // ---------------------------------------------------------------- printed checks read back

  function ItemsOf(names: seq<string>, before: string): seq<Item> {
    if names == [] then [] else [Item(before, names[0], "")] + ItemsOf(names[1..], " ")
  }

  lemma {:induction false} QuotedListItems(names: seq<string>, before: string)
    requires names != [] && Blank(before)
    requires forall i :: 0 <= i < |names| ==> CleanName(names[i])
    ensures var items := ItemsOf(names, before);
      items != [] && ValidItems(items) && ItemsText(items) == before + QuotedList(names) && Names(items) == SetOf(names)
    decreases |names|
  {
    var items := ItemsOf(names, before);
    NamesCons(items);
    var first := Item(before, names[0], "");
    assert items[0] == first && items[1..] == ItemsOf(names[1..], " ");
    assert SetOf(names) == {names[0]} + SetOf(names[1..]);
    assert first.Text() == before + Quoted(names[0]);
    if |names| == 1 {
      assert Names(items[1..]) == {};
    } else {
      QuotedListItems(names[1..], " ");
      CommaMoved(before, Quoted(names[0]), QuotedList(names[1..]));
    }
  }

  lemma CommaMoved(before: string, first: string, rest: string)
    ensures before + (first + ", " + rest) == before + first + ("," + (" " + rest))
  {
  }

  lemma {:induction false} QuotedListEnds(names: seq<string>)
    requires names != []
    ensures var t := QuotedList(names); t != "" && t[0] == '"' && t[|t| - 1] == '"'
    decreases |names|
  {
    if |names| > 1 { QuotedListEnds(names[1..]); }
  }

  lemma {:induction false} QuotedListOneLine(names: seq<string>)
    requires forall i :: 0 <= i < |names| ==> CleanName(names[i])
    ensures '\n' !in QuotedList(names)
    decreases |names|
  {
    if |names| > 1 { QuotedListOneLine(names[1..]); }
  }

  lemma QuotedListDenotes(names: seq<string>)
    requires names != [] && forall x :: x in SetOf(names) ==> CleanName(x)
    ensures DenotesSet(QuotedList(names), SetOf(names)) && '\n' !in QuotedList(names)
  {
    assert forall i :: 0 <= i < |names| ==> names[i] in SetOf(names);
    QuotedListItems(names, "");
    QuotedListEnds(names);
    QuotedListOneLine(names);
    TrimIdentity(QuotedList(names));
    assert "" + QuotedList(names) == QuotedList(names);
  }

  lemma SetLiteralDenotes(lib: Library, s: set<string>) returns (inner: string)
    requires Faithful(lib) && forall x :: x in s ==> CleanName(x)
    ensures SetLiteral(lib, s) == "{" + (inner + "}") && DenotesSet(inner, s) && '\n' !in inner
  {
    if s == {} {
      inner := ",";
      TrimIdentity(",");
    } else {
      var names := lib.setOrder(s);
      assert SetOf(names) == s;
      QuotedListDenotes(names);
      inner := QuotedList(names);
    }
  }

  predicate CleanCheck(check: Check) {
    match check
    case AudienceIs(a) => CleanName(a)
    case ToolIn(ts) => forall x :: x in ts ==> CleanName(x)
    case CostAtMost(n) => 0 <= n <= I64_MAX
    case TimeAtMost(_) => true
  }

  ghost function Expected(lib: Library, check: Check): Option<Narrowing>
    requires CleanCheck(check)
  {
    match check
    case TimeAtMost(u) => if Representable(lib, u) then Some(Expiry(u)) else None
    case AudienceIs(_) => Some(Audience)
    case CostAtMost(n) => Some(Budget(n))
    case ToolIn(ts) => Some(Tools(ts))
  }

  /** Single blanks where the printer puts them. */
  const PRINTED: Gaps := Gaps("", "", "", " ", " ", " ", "")

  lemma CostText(literal: string)
    ensures "cost($c), $c <= " + literal == BoundText("cost", "$c", literal, PRINTED)
  {
  }

  lemma TimeText(date: string)
    ensures "time($t), $t <= " + date == BoundText("time", "$t", date, PRINTED)
  {
  }

  lemma ToolTextPrinted(inner: string)
    ensures "tool($x), " + ("{" + (inner + "}")) + ".contains($x)" == ToolText("$x", inner, PRINTED)
  {
  }

  /** A check body the block reader can carry on one line without losing anything. */
  predicate OneLine(b: string) {
    b != "" && Trimmed(b) && '\n' !in b
  }

  lemma Framed(prefix: string, operand: string)
    requires prefix != "" && !IsWhitespace(prefix[0]) && '\n' !in prefix && OneLine(operand)
    ensures OneLine(prefix + operand)
  {
  }

  lemma CostFramed(literal: string)
    requires OneLine(literal)
    ensures OneLine("cost($c), $c <= " + literal)
  {
    Framed("cost($c), $c <= ", literal);
  }

  lemma TimeFramed(date: string)
    requires OneLine(date)
    ensures OneLine("time($t), $t <= " + date)
  {
    Framed("time($t), $t <= ", date);
  }

  lemma StatementFramed(body: string)
    requires OneLine(body)
    ensures OneLine("check if " + body)
  {
    Framed("check if ", body);
  }

  lemma DigitsOneLine(n: nat)
    ensures '\n' !in NatText(n)
  {
    NatTextValue(n);
    forall i | 0 <= i < |NatText(n)| ensures NatText(n)[i] != '\n' {
      assert IsDigit(NatText(n)[i]);
    }
  }

  lemma CostParses(lib: Library, literal: string, n: nat)
    requires SaneAlphabet(lib) && n <= I64_MAX && ParseI64(literal) == Some(n) && Trimmed(literal)
    ensures ParseBudget(lib, "cost($c), $c <= " + literal) == Some(n)
  {
    assert IsVariable(lib, "$c") && PRINTED.Valid();
    BoundAccepts(lib, "cost", "$c", literal, PRINTED);
    CostText(literal);
  }

  lemma CostPrinted(lib: Library, n: nat)
    requires Faithful(lib) && n <= I64_MAX
    ensures ParseBudget(lib, CheckBody(lib, CostAtMost(n))) == Some(n)
    ensures OneLine(CheckBody(lib, CostAtMost(n)))
  {
    var body := "cost($c), $c <= " + NatText(n);
    assert CheckBody(lib, CostAtMost(n)) == body;
    assert ParseBudget(lib, body) == Some(n) by { CostReads(lib, n); }
    assert OneLine(body) by { CostOneLine(n); }
  }

  lemma CostReads(lib: Library, n: nat)
    requires SaneAlphabet(lib) && n <= I64_MAX
    ensures ParseBudget(lib, "cost($c), $c <= " + NatText(n)) == Some(n)
  {
    ParseI64OfNat(n);
    I64Ends(NatText(n));
    CostParses(lib, NatText(n), n);
  }

  lemma CostOneLine(n: nat)
    requires n <= I64_MAX
    ensures OneLine("cost($c), $c <= " + NatText(n))
  {
    ParseI64OfNat(n);
    I64Ends(NatText(n));
    DigitsOneLine(n);
    CostFramed(NatText(n));
  }

  lemma TimePrinted(lib: Library, u: u64)
    requires Faithful(lib)
    ensures ParseExpiry(lib, CheckBody(lib, TimeAtMost(u))) == (if Representable(lib, u) then Some(u) else None)
    ensures OneLine(CheckBody(lib, TimeAtMost(u)))
  {
    var d := lib.printDate(u);
    TimeFramed(d);
    BoundAccepts(lib, "time", "$t", d, PRINTED);
    TimeText(d);
  }

  lemma ToolPrinted(lib: Library, ts: set<string>)
    requires Faithful(lib) && forall x :: x in ts ==> CleanName(x)
    ensures ParseTools(lib, CheckBody(lib, ToolIn(ts))) == Some(ts)
    ensures OneLine(CheckBody(lib, ToolIn(ts)))
  {
    var inner := SetLiteralDenotes(lib, ts);
    ToolInnerPrinted(lib, ts, inner);
    ToolFramed(inner);
  }

  lemma ToolInnerPrinted(lib: Library, ts: set<string>, inner: string)
    requires SaneAlphabet(lib) && DenotesSet(inner, ts)
    ensures ParseTools(lib, "tool($x), " + ("{" + (inner + "}")) + ".contains($x)") == Some(ts)
  {
    assert IsVariable(lib, "$x") && PRINTED.Valid();
    MembershipAccepted(lib, "$x", inner, PRINTED, ts);
    ToolTextPrinted(inner);
  }

  lemma ToolFramed(inner: string)
    requires '\n' !in inner
    ensures OneLine("tool($x), " + ("{" + (inner + "}")) + ".contains($x)")
  {
    var b := "tool($x), " + ("{" + (inner + "}")) + ".contains($x)";
    assert b[0] == 't' && b[|b| - 1] == ')';
  }

  lemma AudiencePrinted(lib: Library, a: string)
    requires CleanName(a)
    ensures IsAudience(CheckBody(lib, AudienceIs(a)))
    ensures OneLine(CheckBody(lib, AudienceIs(a)))
  {
    var b := CheckBody(lib, AudienceIs(a));
    assert b == "audience(\"" + (a + "\")");
    assert StripPrefix(b, "audience(\"") == Some(a + "\")");
    assert StripSuffix(a + "\")", "\")") == Some(a);
  }

  lemma FirstLetters(lib: Library, check: Check)
    ensures var b := CheckBody(lib, check);
      |b| > 1 &&
      match check
      case TimeAtMost(_) => b[0] == 't' && b[1] == 'i'
      case AudienceIs(_) => b[0] == 'a'
      case CostAtMost(_) => b[0] == 'c'
      case ToolIn(_) => b[0] == 't' && b[1] == 'o'
  {
  }

  /** The reader inverts the printer on every check with clean names; a date outside the
      library's range is rejected, never widened. */
  lemma ClassifyInvertsPrint(lib: Library, check: Check)
    requires Faithful(lib) && CleanCheck(check)
    ensures
      var expected := Expected(lib, check);
      Classify(lib, Statement(lib, check)) ==
      if expected.Some? then Ok(expected.value) else Err(Unprojectable(Statement(lib, check)))
    ensures OneLine(CheckBody(lib, check))
  {
    var b := CheckBody(lib, check);
    match check {
      case TimeAtMost(u) => TimePrinted(lib, u);
      case CostAtMost(n) => CostPrinted(lib, n);
      case ToolIn(ts) => ToolPrinted(lib, ts);
      case AudienceIs(a) => AudiencePrinted(lib, a);
    }
    FirstLetters(lib, check);
    ReadersDisjoint(lib, b);
    TrimIdentity(b);
    assert StripPrefix(Statement(lib, check), "check if ") == Some(b);
  }

  lemma StatementsOfPrinted(lib: Library, check: Check)
    requires Faithful(lib) && CleanCheck(check)
    ensures StatementsOf(Lines(BlockSource(lib, [check]))) == Ok([Statement(lib, check)])
  {
    ClassifyInvertsPrint(lib, check);
    var s := Statement(lib, check);
    StatementFramed(CheckBody(lib, check));
    OneStatement(s);
    OneBlockLine(s);
    OneCheckSource(lib, check);
  }

  lemma OneCheckSource(lib: Library, check: Check)
    ensures BlockSource(lib, [check]) == Statement(lib, check) + ";" + "\n" + ""
  {
    assert [check][1..] == [];
  }

  lemma OneBlockLine(s: string)
    requires '\n' !in s
    ensures Lines(s + ";" + "\n" + "") == [s + ";"]
  {
    LinesFirst(s + ";", "");
    assert [s + ";"] + [] == [s + ";"];
  }

  lemma OneStatement(s: string)
    requires s != "" && Trimmed(s)
    ensures StatementsOf([s + ";"]) == Ok([s])
  {
    var line := s + ";";
    TrimIdentity(line);
    TrimIdentity(s);
    assert StripSuffix(line, ";") == Some(s);
    assert [line][1..] == [] && [s] + [] == [s];
  }

  // ---------------------------------------------------------------- projection of a rule list

  function NarrowRules(claims: Claims, rules: seq<Rule>): Claims
    decreases |rules|
  {
    if rules == [] then claims
    else NarrowRules(Narrow(claims, NarrowingOf(rules[0])), rules[1..])
  }

  function Blocks(rules: seq<Rule>): seq<seq<Check>> {
    seq(|rules|, i requires 0 <= i < |rules| => [CheckOf(rules[i])])
  }

  lemma ProjectOne(lib: Library, claims: Claims, rule: Rule, blocks: seq<seq<Check>>)
    requires Faithful(lib) && CleanRule(rule)
    ensures Project(lib, claims, [[CheckOf(rule)]] + blocks) ==
      if Datable(lib, rule) then Project(lib, Narrow(claims, NarrowingOf(rule)), blocks)
      else Err(Unprojectable(Statement(lib, CheckOf(rule))))
  {
    var check := CheckOf(rule);
    assert CleanCheck(check);
    StatementsOfPrinted(lib, check);
    ClassifyInvertsPrint(lib, check);
    NarrowByOne(lib, claims, Statement(lib, check));
    assert ([[check]] + blocks)[1..] == blocks;
  }

  lemma NarrowByOne(lib: Library, claims: Claims, s: string)
    ensures
      var n := Classify(lib, s);
      NarrowBy(lib, claims, [s]) == if n.Ok? then Ok(Narrow(claims, n.value)) else Err(n.error)
  {
    assert [s][1..] == [];
  }

  lemma {:induction false} ProjectRules(lib: Library, claims: Claims, rules: seq<Rule>)
    requires Faithful(lib) && CleanRules(rules)
    ensures
      var r := Project(lib, claims, Blocks(rules));
      && (r.Ok? <==> AllDatable(lib, rules))
      && (r.Ok? ==> r == Ok(NarrowRules(claims, rules)))
    decreases |rules|
  {
    if rules != [] {
      var rule := rules[0];
      BlocksCons(rules);
      ProjectOne(lib, claims, rule, Blocks(rules[1..]));
      DatableCons(lib, rules);
      if Datable(lib, rule) {
        ProjectRules(lib, Narrow(claims, NarrowingOf(rule)), rules[1..]);
      }
    }
  }

  lemma BlocksCons(rules: seq<Rule>)
    requires rules != []
    ensures Blocks(rules) == [[CheckOf(rules[0])]] + Blocks(rules[1..])
  {
  }

  lemma DatableCons(lib: Library, rules: seq<Rule>)
    requires rules != []
    ensures AllDatable(lib, rules) <==> Datable(lib, rules[0]) && AllDatable(lib, rules[1..])
    ensures CleanRules(rules) <==> CleanRule(rules[0]) && CleanRules(rules[1..])
  {
    assert forall i :: 0 < i < |rules| ==> rules[i] == rules[1..][i - 1];
  }

  lemma {:induction false} RetainMembers(tools: seq<string>, allowed: set<string>, t: string)
    ensures t in Retain(tools, allowed) <==> t in tools && t in allowed
  {
    if tools != [] {
      RetainMembers(tools[1..], allowed, t);
      assert tools == [tools[0]] + tools[1..];
    }
  }

  /** What a list of rules leaves of each claim. */
  lemma {:induction false} NarrowRulesMeaning(claims: Claims, rules: seq<Rule>, now: int, cost: int, t: string)
    ensures
      var c := NarrowRules(claims, rules);
      && (now <= c.expires <==>
            now <= claims.expires && forall i :: 0 <= i < |rules| && rules[i].EarlierExpiry? ==> now <= rules[i].unix)
      && (cost <= c.budget <==>
            cost <= claims.budget &&
            forall i :: 0 <= i < |rules| && rules[i].ReduceBudget? ==> cost <= Clamp(rules[i].units))
      && (t in c.tools <==>
            t in claims.tools && forall i :: 0 <= i < |rules| && rules[i].RestrictTools? ==> t in rules[i].tools)
      && c.(expires := claims.expires, budget := claims.budget, tools := claims.tools) == claims
    decreases |rules|
  {
    if rules != [] {
      var rule, rest := rules[0], rules[1..];
      NarrowRulesMeaning(Narrow(claims, NarrowingOf(rule)), rest, now, cost, t);
      if rule.RestrictTools? { RetainMembers(claims.tools, SetOf(rule.tools), t); }
      assert forall i :: 0 < i < |rules| ==> rules[i] == rest[i - 1];
    }
  }

  // ---------------------------------------------------------------- exactness

  /** The request fits the claims, its cost read as the `i64` the authorizer sees. */
  predicate Grants(c: Claims, q: Request) {
    q.now <= c.expires && Clamp(q.cost) <= c.budget && q.tool in c.tools
  }

  predicate PinnedTo(rules: seq<Rule>, audience: string) {
    forall i :: 0 <= i < |rules| && rules[i].RestrictAudience? ==> rules[i].audience == audience
  }

  /** Whether the whole token's checks pass, spelled out axis by axis. */
  lemma AuthorizedMeaning(tokenId: string, holder: string, scope: Scope, rules: seq<Rule>, q: Request)
    ensures
      Authorized(AttenuateAll(Issue(tokenId, holder, scope), rules), q) <==>
      && BlockHolds(Issue(tokenId, holder, scope).blocks[0], q)
      && forall i :: 0 <= i < |rules| ==> Holds(CheckOf(rules[i]), q)
  {
    AuthorizedAll(Issue(tokenId, holder, scope), rules, q);
  }

  lemma {:induction false} AuthorizedAll(token: Token, rules: seq<Rule>, q: Request)
    ensures Authorized(AttenuateAll(token, rules), q) <==>
      Authorized(token, q) && forall i :: 0 <= i < |rules| ==> Holds(CheckOf(rules[i]), q)
  {
    if rules != [] {
      var n := |rules| - 1;
      AuthorizedAll(token, rules[..n], q);
      ChildAuthorized(AttenuateAll(token, rules[..n]), rules[n], q);
      assert forall i :: 0 <= i < n ==> rules[..n][i] == rules[i];
    }
  }

  lemma IssuedBlockMeaning(tokenId: string, holder: string, scope: Scope, q: Request)
    ensures BlockHolds(Issue(tokenId, holder, scope).blocks[0], q) <==>
      q.now <= scope.expires && q.audience == scope.audience && Clamp(q.cost) <= scope.budget && q.tool in scope.tools
  {
    var b := Issue(tokenId, holder, scope).blocks[0];
    assert b[0] == TimeAtMost(scope.expires) && b[1] == AudienceIs(scope.audience);
    assert b[2] == CostAtMost(Clamp(scope.budget)) && b[3] == ToolIn(SetOf(scope.tools));
    assert BlockHolds(b, q) <==> Holds(b[0], q) && Holds(b[1], q) && Holds(b[2], q) && Holds(b[3], q);
  }

  /** THE CLAIMS ARE EXACT. For every scope, every list of attenuations with clean names and
      every request: projection succeeds iff every attenuated expiry is a representable date,
      and then the checks of all blocks pass iff the request fits the returned claims and the
      audience is the issued one and every pinned one. */
  lemma ClaimsAreExact(lib: Library, tokenId: string, holder: string, scope: Scope, rules: seq<Rule>, q: Request)
    requires Faithful(lib) && CleanRules(rules)
    ensures
      var token := AttenuateAll(Issue(tokenId, holder, scope), rules);
      var r := Project(lib, token.context, token.blocks[1..]);
      && (r.Ok? <==> AllDatable(lib, rules))
      && (r.Ok? ==>
            (Authorized(token, q) <==>
               Grants(r.value, q) && q.audience == r.value.audience && PinnedTo(rules, q.audience)))
  {
    var token := AttenuateAll(Issue(tokenId, holder, scope), rules);
    BlocksOfAttenuated(tokenId, holder, scope, rules);
    ProjectRules(lib, token.context, rules);
    NarrowRulesMeaning(token.context, rules, 0, 0, "");
    AuthorizedByRules(tokenId, holder, scope, rules, q);
  }

  /** All checks pass iff the request fits the narrowed claims and every pinned audience. */
  lemma AuthorizedByRules(tokenId: string, holder: string, scope: Scope, rules: seq<Rule>, q: Request)
    ensures
      Authorized(AttenuateAll(Issue(tokenId, holder, scope), rules), q) <==>
      && Grants(NarrowRules(Issue(tokenId, holder, scope).context, rules), q)
      && q.audience == scope.audience && PinnedTo(rules, q.audience)
  {
    NarrowRulesMeaning(Issue(tokenId, holder, scope).context, rules, q.now, Clamp(q.cost), q.tool);
    AuthorizedMeaning(tokenId, holder, scope, rules, q);
    IssuedBlockMeaning(tokenId, holder, scope, q);
    RulesSplit(rules, q);
  }

  /** The rules' checks, grouped by axis. */
  lemma RulesSplit(rules: seq<Rule>, q: Request)
    ensures
      (forall i :: 0 <= i < |rules| ==> Holds(CheckOf(rules[i]), q)) <==>
      && (forall i :: 0 <= i < |rules| && rules[i].EarlierExpiry? ==> q.now <= rules[i].unix)
      && (forall i :: 0 <= i < |rules| && rules[i].ReduceBudget? ==> Clamp(q.cost) <= Clamp(rules[i].units))
      && (forall i :: 0 <= i < |rules| && rules[i].RestrictTools? ==> q.tool in rules[i].tools)
      && PinnedTo(rules, q.audience)
  {
  }

  /** The request fits the claims as a reader of the claims would check it, on the cost as
      declared. */
  predicate Fits(c: Claims, q: Request) {
    q.now <= c.expires && q.cost <= c.budget && q.tool in c.tools
  }

  /** The budget ceilings of the scope and of every rule lie at or beyond `i64::MAX`. */
  predicate HugeBudgets(scope: Scope, rules: seq<Rule>) {
    && I64_MAX <= scope.budget
    && forall i :: 0 <= i < |rules| && rules[i].ReduceBudget? ==> I64_MAX <= rules[i].units
  }

  /** The cost lies beyond `i64::MAX` and beyond a ceiling that is itself that large; a rule's
      ceiling is cut to `i64::MAX`. */
  predicate CostSaturates(scope: Scope, rules: seq<Rule>, cost: u64) {
    && HugeBudgets(scope, rules) && I64_MAX < cost
    && (scope.budget < cost || exists i :: 0 <= i < |rules| && rules[i].ReduceBudget?)
  }

  /** Apart from its cost, the scope and every rule admit the request. */
  predicate AdmittedButForCost(scope: Scope, rules: seq<Rule>, q: Request) {
    && q.now <= scope.expires && q.tool in scope.tools && q.audience == scope.audience
    && forall i :: 0 <= i < |rules| && !rules[i].ReduceBudget? ==> Holds(CheckOf(rules[i]), q)
  }

  lemma SaturationCondition(claims: Claims, scope: Scope, rules: seq<Rule>, cost: u64)
    requires claims.budget == scope.budget
    ensures I64_MAX <= NarrowRules(claims, rules).budget < cost <==> CostSaturates(scope, rules, cost)
  {
    NarrowRulesMeaning(claims, rules, 0, I64_MAX, "");
    NarrowRulesMeaning(claims, rules, 0, cost, "");
  }

  lemma AdmittedCondition(claims: Claims, scope: Scope, rules: seq<Rule>, q: Request)
    requires claims.expires == scope.expires && claims.tools == scope.tools
    ensures
      var c := NarrowRules(claims, rules);
      AdmittedButForCost(scope, rules, q) <==>
      q.now <= c.expires && q.tool in c.tools && q.audience == scope.audience && PinnedTo(rules, q.audience)
  {
    NarrowRulesMeaning(claims, rules, q.now, 0, q.tool);
  }

  /** Read that way the claims are exact iff the request is not a saturated one: its cost lies
      beyond `i64::MAX` and beyond a ceiling that is at least that large, and the scope and the
      rules admit it otherwise. In particular they are exact for every cost up to `i64::MAX`. */
  lemma ExactUnlessSaturated(lib: Library, tokenId: string, holder: string, scope: Scope, rules: seq<Rule>, q: Request)
    requires Faithful(lib) && CleanRules(rules) && AllDatable(lib, rules)
    ensures
      var token := AttenuateAll(Issue(tokenId, holder, scope), rules);
      var r := Project(lib, token.context, token.blocks[1..]);
      && r.Ok?
      && ((Authorized(token, q) <==>
             Fits(r.value, q) && q.audience == scope.audience && PinnedTo(rules, q.audience)) <==>
          !(CostSaturates(scope, rules, q.cost) && AdmittedButForCost(scope, rules, q)))
  {
    ProjectedAudience(lib, tokenId, holder, scope, rules);
    BlocksOfAttenuated(tokenId, holder, scope, rules);
    ChecksExactUnlessSaturated(tokenId, holder, scope, rules, q);
  }

  lemma ChecksExactUnlessSaturated(tokenId: string, holder: string, scope: Scope, rules: seq<Rule>, q: Request)
    ensures
      (Authorized(AttenuateAll(Issue(tokenId, holder, scope), rules), q) <==>
         && Fits(NarrowRules(Issue(tokenId, holder, scope).context, rules), q)
         && q.audience == scope.audience && PinnedTo(rules, q.audience)) <==>
      !(CostSaturates(scope, rules, q.cost) && AdmittedButForCost(scope, rules, q))
  {
    AuthorizedByRules(tokenId, holder, scope, rules, q);
    SaturationCondition(Issue(tokenId, holder, scope).context, scope, rules, q.cost);
    AdmittedCondition(Issue(tokenId, holder, scope).context, scope, rules, q);
    FitsUnlessSaturated(NarrowRules(Issue(tokenId, holder, scope).context, rules), q);
  }

  lemma FitsUnlessSaturated(c: Claims, q: Request)
    ensures Fits(c, q) ==> Grants(c, q)
    ensures Grants(c, q) && !Fits(c, q) <==>
      I64_MAX <= c.budget < q.cost && q.now <= c.expires && q.tool in c.tools
  {
  }

  /** A saturated request: its cost passes the checks of a token whose budget it exceeds. */
  lemma SaturatedCostPasses(lib: Library)
    ensures
      var token := Issue("t", "h", Scope("a", 10, I64_MAX, ["x"]));
      var q := Request(0, "a", "x", I64_MAX + 1);
      && Authorized(token, q)
      && Project(lib, token.context, token.blocks[1..]) == Ok(token.context)
      && !Fits(token.context, q)
  {
    var scope := Scope("a", 10, I64_MAX, ["x"]);
    IssuedBlockMeaning("t", "h", scope, Request(0, "a", "x", I64_MAX + 1));
    assert Issue("t", "h", scope).blocks[1..] == [];
  }

  lemma ProjectedAudience(lib: Library, tokenId: string, holder: string, scope: Scope, rules: seq<Rule>)
    requires Faithful(lib) && CleanRules(rules) && AllDatable(lib, rules)
    ensures
      var token := AttenuateAll(Issue(tokenId, holder, scope), rules);
      Project(lib, token.context, token.blocks[1..]) == Ok(NarrowRules(token.context, rules))
      && NarrowRules(token.context, rules).audience == scope.audience
  {
    BlocksOfAttenuated(tokenId, holder, scope, rules);
    var token := AttenuateAll(Issue(tokenId, holder, scope), rules);
    ProjectRules(lib, token.context, rules);
    NarrowRulesMeaning(token.context, rules, 0, 0, "");
  }

  lemma BlocksOfAttenuated(tokenId: string, holder: string, scope: Scope, rules: seq<Rule>)
    ensures
      var token := AttenuateAll(Issue(tokenId, holder, scope), rules);
      && |token.blocks| >= 1 && token.blocks[1..] == Blocks(rules)
      && token.context == Issue(tokenId, holder, scope).context
  {
    var issued := Issue(tokenId, holder, scope);
    var token := AttenuateAll(issued, rules);
    AttenuateAllBlocks(issued, rules);
    forall i | 0 <= i < |rules| ensures token.blocks[1..][i] == Blocks(rules)[i] {
      assert token.blocks[1 + i] == [CheckOf(rules[i])];
    }
  }

  // ---------------------------------------------------------------- when attenuation narrows

  lemma ChildAuthorized(token: Token, rule: Rule, q: Request)
    ensures Authorized(Attenuate(token, rule), q) <==> Authorized(token, q) && Holds(CheckOf(rule), q)
  {
    var child := Attenuate(token, rule);
    var n := |token.blocks|;
    assert child.blocks[n] == [CheckOf(rule)] && forall i :: 0 <= i < n ==> child.blocks[i] == token.blocks[i];
    assert BlockHolds(child.blocks[n], q) <==> Holds(child.blocks[n][0], q);
    if Authorized(child, q) {
      forall i | 0 <= i < n ensures BlockHolds(token.blocks[i], q) { assert BlockHolds(child.blocks[i], q); }
    }
  }

  /** The rule takes something away from claims that grant anything at all. */
  predicate Bites(c: Claims, rule: Rule) {
    match rule
    case RestrictAudience(a) => a != c.audience && c.tools != []
    case EarlierExpiry(u) => u < c.expires && c.tools != []
    case ReduceBudget(n) => Clamp(n) < Clamp(c.budget) && c.tools != []
    case RestrictTools(ts) => exists i :: 0 <= i < |c.tools| && c.tools[i] !in ts
  }

  /** A request the claims grant and the rule refuses. */
  lemma BittenRequest(c: Claims, rule: Rule) returns (q: Request)
    requires Bites(c, rule)
    ensures Grants(c, q) && q.audience == c.audience && !Holds(CheckOf(rule), q)
  {
    match rule
    case RestrictAudience(a) => q := Request(0, c.audience, c.tools[0], 0);
    case EarlierExpiry(u) => q := Request(u + 1, c.audience, c.tools[0], 0);
    case ReduceBudget(n) => q := Request(0, c.audience, c.tools[0], Clamp(n) + 1);
    case RestrictTools(ts) =>
      var i :| 0 <= i < |c.tools| && c.tools[i] !in ts;
      q := Request(0, c.audience, c.tools[i], 0);
  }

  /** The child refuses what the parent admits. */
  predicate Separates(parent: Token, child: Token, q: Request) {
    Authorized(parent, q) && !Authorized(child, q)
  }

  lemma SeparatedBy(tokenId: string, holder: string, scope: Scope, rules: seq<Rule>, rule: Rule, q: Request)
    ensures
      var parent := AttenuateAll(Issue(tokenId, holder, scope), rules);
      var c := NarrowRules(Issue(tokenId, holder, scope).context, rules);
      && (Authorized(Attenuate(parent, rule), q) ==> Authorized(parent, q))
      && (Separates(parent, Attenuate(parent, rule), q) <==>
            Grants(c, q) && q.audience == c.audience && PinnedTo(rules, scope.audience) && !Holds(CheckOf(rule), q))
  {
    NarrowRulesMeaning(Issue(tokenId, holder, scope).context, rules, 0, 0, "");
    ChildAuthorized(AttenuateAll(Issue(tokenId, holder, scope), rules), rule, q);
    AuthorizedByRules(tokenId, holder, scope, rules, q);
  }

  /** The checks of a child never pass where its parent's fail, and they fail where its
      parent's pass iff the parent's audience pins agree and the rule takes something away from
      the parent's claims. */
  lemma ChecksNarrowIff(tokenId: string, holder: string, scope: Scope, rules: seq<Rule>, rule: Rule)
    ensures
      var parent := AttenuateAll(Issue(tokenId, holder, scope), rules);
      var child := Attenuate(parent, rule);
      && (forall q :: Authorized(child, q) ==> Authorized(parent, q))
      && ((exists q :: Separates(parent, child, q)) <==>
            PinnedTo(rules, scope.audience) && Bites(NarrowRules(Issue(tokenId, holder, scope).context, rules), rule))
  {
    var parent := AttenuateAll(Issue(tokenId, holder, scope), rules);
    var child := Attenuate(parent, rule);
    var c := NarrowRules(Issue(tokenId, holder, scope).context, rules);
    forall q ensures Authorized(child, q) ==> Authorized(parent, q) {
      SeparatedBy(tokenId, holder, scope, rules, rule, q);
    }
    if q :| Separates(parent, child, q) {
      SeparatedBy(tokenId, holder, scope, rules, rule, q);
      RefusedBites(c, rule, q);
    }
    if PinnedTo(rules, scope.audience) && Bites(c, rule) {
      var q := BittenRequest(c, rule);
      SeparatedBy(tokenId, holder, scope, rules, rule, q);
      assert Separates(parent, child, q);
    }
  }

  lemma RefusedBites(c: Claims, rule: Rule, q: Request)
    requires Grants(c, q) && q.audience == c.audience && !Holds(CheckOf(rule), q)
    ensures Bites(c, rule)
  {
    var i :| 0 <= i < |c.tools| && c.tools[i] == q.tool;
  }

  // ---------------------------------------------------------------- attenuation only shrinks

  lemma {:induction false} RetainCompose(tools: seq<string>, a: set<string>, b: set<string>)
    ensures Retain(Retain(tools, a), b) == Retain(tools, a * b)
  {
    if tools != [] {
      RetainCompose(tools[1..], a, b);
      if tools[0] in a {
        assert Retain(tools, a) == [tools[0]] + Retain(tools[1..], a);
        assert Retain(tools, a)[1..] == Retain(tools[1..], a);
      } else {
        assert Retain(tools, a) == Retain(tools[1..], a);
      }
    }
  }

  /** The tools of `tools` that every rule permits. */
  function Permitted(tools: set<string>, rules: seq<Rule>): set<string> {
    set t | t in tools && forall i :: 0 <= i < |rules| && rules[i].RestrictTools? ==> t in rules[i].tools
  }

  lemma {:induction false} RetainOwn(tools: seq<string>, a: set<string>, b: set<string>)
    requires forall t :: t in tools ==> (t in a <==> t in b)
    ensures Retain(tools, a) == Retain(tools, b)
  {
    if tools != [] {
      assert tools[0] in tools;
      RetainOwn(tools[1..], a, b);
    }
  }

  lemma {:induction false} RetainAll(tools: seq<string>, a: set<string>)
    requires forall t :: t in tools ==> t in a
    ensures Retain(tools, a) == tools
  {
    if tools != [] {
      assert tools[0] in tools;
      RetainAll(tools[1..], a);
    }
  }

  lemma {:induction false} NarrowRulesTools(claims: Claims, rules: seq<Rule>)
    ensures NarrowRules(claims, rules).tools == Retain(claims.tools, Permitted(SetOf(claims.tools), rules))
    decreases |rules|
  {
    var p := Permitted(SetOf(claims.tools), rules);
    if rules == [] {
      RetainAll(claims.tools, p);
    } else {
      var rule, rest := rules[0], rules[1..];
      var narrowed := Narrow(claims, NarrowingOf(rule));
      NarrowRulesTools(narrowed, rest);
      assert forall i :: 0 < i < |rules| ==> rules[i] == rest[i - 1];
      var q := Permitted(SetOf(narrowed.tools), rest);
      if rule.RestrictTools? {
        var a := SetOf(rule.tools);
        RetainCompose(claims.tools, a, q);
        forall t | t in claims.tools
          ensures t in a * q <==> t in p
        {
          RetainMembers(claims.tools, a, t);
          PermittedCons(SetOf(claims.tools), rules, t);
        }
        RetainOwn(claims.tools, a * q, p);
      } else {
        forall t | t in claims.tools
          ensures t in q <==> t in p
        {
          PermittedCons(SetOf(claims.tools), rules, t);
        }
        RetainOwn(claims.tools, q, p);
      }
    }
  }

  lemma PermittedCons(tools: set<string>, rules: seq<Rule>, t: string)
    requires rules != [] && t in tools
    ensures t in Permitted(tools, rules) <==>
      t in Permitted(tools, rules[1..]) && (rules[0].RestrictTools? ==> t in rules[0].tools)
  {
    assert forall i :: 0 < i < |rules| ==> rules[i] == rules[1..][i - 1];
  }

  /** Every rule of `a` is one of `b`. */
  predicate Among(a: seq<Rule>, b: seq<Rule>) {
    forall i :: 0 <= i < |a| ==> a[i] in b
  }

  /** More rules, in any order and with any repetition, never leave more authority. */
  lemma NarrowRulesShrink(claims: Claims, a: seq<Rule>, b: seq<Rule>, t: string)
    requires Among(a, b)
    ensures
      var ca, cb := NarrowRules(claims, a), NarrowRules(claims, b);
      cb.expires <= ca.expires && cb.budget <= ca.budget && (t in cb.tools ==> t in ca.tools)
  {
    var cb := NarrowRules(claims, b);
    NarrowRulesMeaning(claims, b, cb.expires, cb.budget, t);
    NarrowRulesMeaning(claims, a, cb.expires, cb.budget, t);
    forall i | 0 <= i < |a|
      ensures a[i].EarlierExpiry? ==> cb.expires <= a[i].unix
      ensures a[i].ReduceBudget? ==> cb.budget <= Clamp(a[i].units)
      ensures a[i].RestrictTools? && t in cb.tools ==> t in a[i].tools
    {
      var j :| 0 <= j < |b| && b[j] == a[i];
    }
  }

  /** The projected claims depend only on which rules were applied: not on their order and
      not on how often. */
  lemma NarrowRulesUnordered(claims: Claims, a: seq<Rule>, b: seq<Rule>)
    requires Among(a, b) && Among(b, a)
    ensures NarrowRules(claims, a) == NarrowRules(claims, b)
  {
    NarrowRulesShrink(claims, a, b, "");
    NarrowRulesShrink(claims, b, a, "");
    NarrowRulesMeaning(claims, a, 0, 0, "");
    NarrowRulesMeaning(claims, b, 0, 0, "");
    NarrowRulesTools(claims, a);
    NarrowRulesTools(claims, b);
    var s := SetOf(claims.tools);
    PermittedAmong(s, a, b);
    PermittedAmong(s, b, a);
    assert Permitted(s, a) == Permitted(s, b);
  }

  lemma PermittedAmong(tools: set<string>, a: seq<Rule>, b: seq<Rule>)
    requires Among(a, b)
    ensures Permitted(tools, b) <= Permitted(tools, a)
  {
    forall t | t in Permitted(tools, b)
      ensures t in Permitted(tools, a)
    {
      forall i | 0 <= i < |a| && a[i].RestrictTools?
        ensures t in a[i].tools
      {
        var j :| 0 <= j < |b| && b[j] == a[i];
      }
    }
  }
}
