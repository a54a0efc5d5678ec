/** Capability tokens: an authority block of checks, attenuation blocks appended to it,
    and the request the checks are run against. */
module CapToken {
  import opened Basics

  datatype Scope = Scope(audience: string, expires: u64, budget: u64, tools: seq<string>)

  /** The issued claims, and with the same fields the claims a verifier returns. */
  datatype Claims = Claims(
    tokenId: string, audience: string, subject: string,
    expires: u64, budget: u64, tools: seq<string>)

  datatype Rule =
    | RestrictAudience(audience: string)
    | EarlierExpiry(unix: u64)
    | ReduceBudget(units: u64)
    | RestrictTools(tools: seq<string>)

  /** The four checks that issuing and attenuating emit. A budget literal is an `i64`. */
  datatype Check =
    | TimeAtMost(unix: u64)
    | AudienceIs(audience: string)
    | CostAtMost(units: int)
    | ToolIn(tools: set<string>)

  datatype Request = Request(now: u64, audience: string, tool: string, cost: u64)

  /** `blocks[0]` is the authority block; `context` is the signed copy of the issued claims. */
  datatype Token = Token(context: Claims, blocks: seq<seq<Check>>)

  /** `i64::try_from(n).unwrap_or(i64::MAX)` */
  function Clamp(n: u64): int {
    if n <= I64_MAX then n else I64_MAX
  }

  function SetOf(s: seq<string>): set<string> {
    set x | x in s
  }

  function Issue(tokenId: string, holder: string, scope: Scope): Token {
    Token(
      Claims(tokenId, scope.audience, holder, scope.expires, scope.budget, scope.tools),
      [[TimeAtMost(scope.expires), AudienceIs(scope.audience),
        CostAtMost(Clamp(scope.budget)), ToolIn(SetOf(scope.tools))]])
  }

  function CheckOf(rule: Rule): Check {
    match rule
    case RestrictAudience(a) => AudienceIs(a)
    case EarlierExpiry(u) => TimeAtMost(u)
    case ReduceBudget(n) => CostAtMost(Clamp(n))
    case RestrictTools(ts) => ToolIn(SetOf(ts))
  }

  function Attenuate(token: Token, rule: Rule): Token {
    token.(blocks := token.blocks + [[CheckOf(rule)]])
  }

  function AttenuateAll(token: Token, rules: seq<Rule>): Token {
    if rules == [] then token
    else Attenuate(AttenuateAll(token, rules[..|rules| - 1]), rules[|rules| - 1])
  }

  /** One check against the facts the authorizer supplies; the cost fact is clamped. */
  predicate Holds(check: Check, q: Request) {
    match check
    case TimeAtMost(u) => q.now <= u
    case AudienceIs(a) => q.audience == a
    case CostAtMost(n) => Clamp(q.cost) <= n
    case ToolIn(ts) => q.tool in ts
  }

  predicate BlockHolds(block: seq<Check>, q: Request) {
    forall i :: 0 <= i < |block| ==> Holds(block[i], q)
  }

  /** `allow if true` leaves the verdict to the checks of every block. */
  predicate Authorized(token: Token, q: Request) {
    forall i :: 0 <= i < |token.blocks| ==> BlockHolds(token.blocks[i], q)
  }

  /** The blocks of an attenuated token: the parent's, then one per rule. */
  lemma {:induction false} AttenuateAllBlocks(token: Token, rules: seq<Rule>)
    ensures AttenuateAll(token, rules).context == token.context
    ensures |AttenuateAll(token, rules).blocks| == |token.blocks| + |rules|
    ensures AttenuateAll(token, rules).blocks[..|token.blocks|] == token.blocks
    ensures forall i :: 0 <= i < |rules| ==>
      AttenuateAll(token, rules).blocks[|token.blocks| + i] == [CheckOf(rules[i])]
  {
    if rules != [] {
      AttenuateAllBlocks(token, rules[..|rules| - 1]);
    }
  }
}
