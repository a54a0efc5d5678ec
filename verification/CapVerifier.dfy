/** Verification of a presented token: signature and revocation first, then the checks, then
    projection. */
module CapVerifier {
  import opened Basics
  import opened CapToken
  import opened CapTokenProjection
  import opened CapTokenExact
  import opened CapAttribution
  import opened DenyList
  import Text

  datatype Refusal =
    | SignatureInvalid
    | Malformed
    | IsRevoked
    | CheckFailed(cause: Cause)
    | NotProjectable(error: Error)

  /** What re-parsing the bytes under the root key gives. `ids` are the revocation ids of the
      blocks, in order, and `context` the issued claims, if the authority block carries them as
      readable JSON. */
  datatype Presented =
    | Forged
    | Garbled
    | Signed(token: Token, ids: seq<Id>, context: Option<Claims>)

  /** Signature, revocation, checks, context, projection: the first that fails decides. */
  function VerdictOn(lib: Library, denied: Option<set<Id>>, p: Presented, q: Request): Result<Claims, Refusal>
    requires p.Signed? ==> |p.token.blocks| >= 1
  {
    match p
    case Forged => Err(SignatureInvalid)
    case Garbled => Err(Malformed)
    case Signed(token, ids, context) =>
      if Revoked(denied, ids) then Err(IsRevoked)
      else if !Authorized(token, q) then Err(CheckFailed(Attribution(lib, token, q)))
      else if context.None? then Err(Malformed)
      else
        match Project(lib, context.value, token.blocks[1..])
        case Ok(claims) => Ok(claims)
        case Err(e) => Err(NotProjectable(e))
  }

  /** The verdict on a token with its own context. */
  function Verdict(
    lib: Library, denied: Option<set<Id>>, token: Token, ids: seq<Id>, q: Request): Result<Claims, Refusal>
    requires |token.blocks| >= 1
  {
    VerdictOn(lib, denied, Signed(token, ids, Some(token.context)), q)
  }

  method Verify(lib: Library, deny: FileDenyList, readable: bool, p: Presented, q: Request)
    returns (r: Result<Claims, Refusal>)
    requires p.Signed? ==> |p.token.blocks| >= 1
    modifies deny
    ensures r == VerdictOn(lib, if readable then LoadIds(deny.file.text) else None, p, q)
  {
    if p.Forged? { return Err(SignatureInvalid); }
    if p.Garbled? { return Err(Malformed); }
    var revoked := deny.IsRevoked(p.ids, readable);
    if revoked { return Err(IsRevoked); }
    if !Authorized(p.token, q) { return Err(CheckFailed(Attribution(lib, p.token, q))); }
    if p.context.None? { return Err(Malformed); }
    var claims := EffectiveClaimsFromBlocks(lib, p.token.(context := p.context.value));
    if claims.Err? { return Err(NotProjectable(claims.error)); }
    return Ok(claims.value);
  }

  /** WHICH REFUSAL COMES FIRST: a bad signature, then garbled bytes, then revocation, then a failed
      check, then a missing context, then a block that does not project. */
  lemma RefusalOrder(lib: Library, denied: Option<set<Id>>, p: Presented, q: Request)
    requires p.Signed? ==> |p.token.blocks| >= 1
    ensures
      var r := VerdictOn(lib, denied, p, q);
      && (r == Err(SignatureInvalid) <==> p.Forged?)
      && (r == Err(IsRevoked) <==> p.Signed? && Revoked(denied, p.ids))
      && (r.Err? && r.error.CheckFailed? <==> p.Signed? && !Revoked(denied, p.ids) && !Authorized(p.token, q))
      && (r == Err(Malformed) <==>
            || p.Garbled?
            || (p.Signed? && !Revoked(denied, p.ids) && Authorized(p.token, q) && p.context.None?))
  {
  }

  /** The verifier accepts an attenuated token exactly when none of its blocks is revoked, its
      dates are representable, and the request fits the claims that it then returns; these name
      the token, the holder and the audience it was issued for. */
  lemma AcceptsExactly(
    lib: Library, denied: Option<set<Id>>, tokenId: string, holder: string, scope: Scope, rules: seq<Rule>,
    ids: seq<Id>, q: Request)
    requires Faithful(lib) && CleanRules(rules)
    ensures
      var token := AttenuateAll(Issue(tokenId, holder, scope), rules);
      |token.blocks| >= 1 &&
      var claims := NarrowRules(token.context, rules);
      var r := Verdict(lib, denied, token, ids, q);
      && (r.Ok? <==>
            && !Revoked(denied, ids) && AllDatable(lib, rules)
            && Grants(claims, q) && q.audience == scope.audience && PinnedTo(rules, q.audience))
      && (r.Ok? ==> r.value == claims)
      && (r.Ok? ==> r.value.tokenId == tokenId && r.value.subject == holder && r.value.audience == scope.audience)
  {
    NarrowRulesMeaning(Issue(tokenId, holder, scope).context, rules, 0, 0, "");
    VerdictIff(lib, denied, tokenId, holder, scope, rules, ids, q);
    AuthorizedByRules(tokenId, holder, scope, rules, q);
  }

  /** The verdict on an attenuated token, by its three steps. */
  lemma VerdictIff(
    lib: Library, denied: Option<set<Id>>, tokenId: string, holder: string, scope: Scope, rules: seq<Rule>,
    ids: seq<Id>, q: Request)
    requires Faithful(lib) && CleanRules(rules)
    ensures
      var token := AttenuateAll(Issue(tokenId, holder, scope), rules);
      |token.blocks| >= 1 && token.context == Issue(tokenId, holder, scope).context &&
      var r := Verdict(lib, denied, token, ids, q);
      && (r.Ok? <==> !Revoked(denied, ids) && Authorized(token, q) && AllDatable(lib, rules))
      && (r.Ok? ==> r.value == NarrowRules(token.context, rules))
  {
    BlocksOfAttenuated(tokenId, holder, scope, rules);
    ProjectRules(lib, Issue(tokenId, holder, scope).context, rules);
  }

  // ---------------------------------------------------------------- when a child is narrower

  lemma Extended(tokenId: string, holder: string, scope: Scope, rules: seq<Rule>, rule: Rule)
    ensures
      Attenuate(AttenuateAll(Issue(tokenId, holder, scope), rules), rule) ==
      AttenuateAll(Issue(tokenId, holder, scope), rules + [rule])
  {
    assert (rules + [rule])[..|rules|] == rules;
  }

  lemma ExtendedRules(lib: Library, rules: seq<Rule>, rule: Rule)
    ensures CleanRules(rules + [rule]) <==> CleanRules(rules) && CleanRule(rule)
    ensures AllDatable(lib, rules + [rule]) <==> AllDatable(lib, rules) && Datable(lib, rule)
  {
    var all := rules + [rule];
    assert all[|rules|] == rule && forall i :: 0 <= i < |rules| ==> all[i] == rules[i];
  }

  lemma MoreIdsRevoked(denied: Option<set<Id>>, ids: seq<Id>, id: Id)
    requires Revoked(denied, ids)
    ensures Revoked(denied, ids + [id])
  {
    if denied.Some? {
      var i :| 0 <= i < |ids| && ids[i] in denied.value;
      assert (ids + [id])[i] == ids[i];
    }
  }

  /** What verification of the child adds to that of the parent; `id` is the revocation id of
      the block that attenuation appends. */
  lemma ChildVerdict(
    lib: Library, denied: Option<set<Id>>, tokenId: string, holder: string, scope: Scope, rules: seq<Rule>,
    rule: Rule, ids: seq<Id>, id: Id, q: Request)
    requires Faithful(lib) && CleanRules(rules) && CleanRule(rule)
    ensures
      var parent := AttenuateAll(Issue(tokenId, holder, scope), rules);
      |parent.blocks| >= 1 &&
      (Verdict(lib, denied, Attenuate(parent, rule), ids + [id], q).Ok? <==>
         && Verdict(lib, denied, parent, ids, q).Ok?
         && !Revoked(denied, ids + [id]) && Datable(lib, rule) && Holds(CheckOf(rule), q))
  {
    Extended(tokenId, holder, scope, rules, rule);
    ExtendedRules(lib, rules, rule);
    VerdictIff(lib, denied, tokenId, holder, scope, rules, ids, q);
    VerdictIff(lib, denied, tokenId, holder, scope, rules + [rule], ids + [id], q);
    ChildAuthorized(AttenuateAll(Issue(tokenId, holder, scope), rules), rule, q);
    if Revoked(denied, ids) { MoreIdsRevoked(denied, ids, id); }
  }

  /** A request that verification accepts for the parent and refuses for the child. */
  predicate CutOff(
    lib: Library, denied: Option<set<Id>>, parent: Token, rule: Rule, ids: seq<Id>, id: Id, q: Request)
    requires |parent.blocks| >= 1
  {
    && Verdict(lib, denied, parent, ids, q).Ok?
    && Verdict(lib, denied, Attenuate(parent, rule), ids + [id], q).Err?
  }

  /** The child is refused whatever the request: its own block is revoked, or its date cannot be
      projected. */
  predicate RefusedOutright(lib: Library, denied: Option<set<Id>>, rule: Rule, ids: seq<Id>, id: Id) {
    Revoked(denied, ids + [id]) || !Datable(lib, rule)
  }

  lemma CutOffIff(
    lib: Library, denied: Option<set<Id>>, tokenId: string, holder: string, scope: Scope, rules: seq<Rule>,
    rule: Rule, ids: seq<Id>, id: Id, q: Request)
    requires Faithful(lib) && CleanRules(rules) && CleanRule(rule)
    ensures
      var parent := AttenuateAll(Issue(tokenId, holder, scope), rules);
      |parent.blocks| >= 1 &&
      var c := NarrowRules(Issue(tokenId, holder, scope).context, rules);
      c.audience == scope.audience &&
      (CutOff(lib, denied, parent, rule, ids, id, q) <==>
         && !Revoked(denied, ids) && AllDatable(lib, rules)
         && Grants(c, q) && q.audience == c.audience && PinnedTo(rules, scope.audience)
         && (RefusedOutright(lib, denied, rule, ids, id) || !Holds(CheckOf(rule), q)))
  {
    NarrowRulesMeaning(Issue(tokenId, holder, scope).context, rules, 0, 0, "");
    BlocksOfAttenuated(tokenId, holder, scope, rules);
    ChildVerdict(lib, denied, tokenId, holder, scope, rules, rule, ids, id, q);
    AcceptsExactly(lib, denied, tokenId, holder, scope, rules, ids, q);
  }

  /** WHEN A CHILD IS NARROWER: verification never accepts for a child what it refuses for the
      parent, and it refuses for the child something that it accepts for the parent iff the
      parent is usable at all (not revoked, datable, audience pins in agreement) and either the
      rule takes something away from the parent's claims, or these leave some tool and the child
      is refused outright. */
  lemma StrictlyNarrowerIff(
    lib: Library, denied: Option<set<Id>>, tokenId: string, holder: string, scope: Scope, rules: seq<Rule>,
    rule: Rule, ids: seq<Id>, id: Id)
    requires Faithful(lib) && CleanRules(rules) && CleanRule(rule)
    ensures
      var parent := AttenuateAll(Issue(tokenId, holder, scope), rules);
      |parent.blocks| >= 1 &&
      var c := NarrowRules(Issue(tokenId, holder, scope).context, rules);
      && (forall q :: Verdict(lib, denied, Attenuate(parent, rule), ids + [id], q).Ok? ==>
            Verdict(lib, denied, parent, ids, q).Ok?)
      && ((exists q :: CutOff(lib, denied, parent, rule, ids, id, q)) <==>
            && !Revoked(denied, ids) && AllDatable(lib, rules) && PinnedTo(rules, scope.audience)
            && (Bites(c, rule) || (RefusedOutright(lib, denied, rule, ids, id) && c.tools != [])))
  {
    var parent := AttenuateAll(Issue(tokenId, holder, scope), rules);
    var c := NarrowRules(Issue(tokenId, holder, scope).context, rules);
    BlocksOfAttenuated(tokenId, holder, scope, rules);
    forall q
      ensures Verdict(lib, denied, Attenuate(parent, rule), ids + [id], q).Ok? ==>
        Verdict(lib, denied, parent, ids, q).Ok?
    {
      ChildVerdict(lib, denied, tokenId, holder, scope, rules, rule, ids, id, q);
    }
    if q :| CutOff(lib, denied, parent, rule, ids, id, q) {
      CutOffIff(lib, denied, tokenId, holder, scope, rules, rule, ids, id, q);
      if !Holds(CheckOf(rule), q) { RefusedBites(c, rule, q); }
    }
    if Bites(c, rule) {
      var q := BittenRequest(c, rule);
      CutOffIff(lib, denied, tokenId, holder, scope, rules, rule, ids, id, q);
    } else if c.tools != [] {
      var q := Request(0, c.audience, c.tools[0], 0);
      CutOffIff(lib, denied, tokenId, holder, scope, rules, rule, ids, id, q);
    }
  }

  /** A later expiry than the issued one, on a date that prints, is accepted and changes
      nothing: the same requests are accepted, with the same claims. */
  lemma WiderRuleChangesNothing(lib: Library, denied: Option<set<Id>>, ids: seq<Id>, id: Id, q: Request)
    requires Faithful(lib) && Representable(lib, 20) && !Revoked(denied, ids + [id])
    ensures
      var parent := Issue("t", "h", Scope("a", 10, 1, ["x"]));
      var was := Verdict(lib, denied, parent, ids, q);
      var now := Verdict(lib, denied, Attenuate(parent, EarlierExpiry(20)), ids + [id], q);
      (now.Ok? <==> was.Ok?) && (now.Ok? ==> now == was)
  {
    var scope, rule := Scope("a", 10, 1, ["x"]), EarlierExpiry(20);
    VerdictIff(lib, denied, "t", "h", scope, [], ids, q);
    ChildVerdict(lib, denied, "t", "h", scope, [], rule, ids, id, q);
    Extended("t", "h", scope, [], rule);
    ExtendedRules(lib, [], rule);
    VerdictIff(lib, denied, "t", "h", scope, [] + [rule], ids + [id], q);
    IssuedBlockMeaning("t", "h", scope, q);
    assert ([] + [rule])[1..] == [];
  }

  /** The same rule on a date that does not print is refused for every request, though it takes
      nothing away. */
  lemma UndatableRuleRefused(lib: Library, denied: Option<set<Id>>, ids: seq<Id>, id: Id, u: u64, q: Request)
    requires Faithful(lib) && !Representable(lib, u)
    ensures Verdict(
      lib, denied, Attenuate(Issue("t", "h", Scope("a", 10, 1, ["x"])), EarlierExpiry(u)), ids + [id], q).Err?
  {
    ChildVerdict(lib, denied, "t", "h", Scope("a", 10, 1, ["x"]), [], EarlierExpiry(u), ids, id, q);
  }

  // ---------------------------------------------------------------- more rules, any order

  lemma AmongTransfers(lib: Library, a: seq<Rule>, b: seq<Rule>)
    requires Among(a, b)
    ensures CleanRules(b) ==> CleanRules(a)
    ensures AllDatable(lib, b) ==> AllDatable(lib, a)
  {
    forall i | 0 <= i < |a|
      ensures CleanRules(b) ==> CleanRule(a[i])
      ensures AllDatable(lib, b) ==> Datable(lib, a[i])
    {
      var j :| 0 <= j < |b| && b[j] == a[i];
    }
  }

  lemma AmongAuthorizes(tokenId: string, holder: string, scope: Scope, a: seq<Rule>, b: seq<Rule>, q: Request)
    requires Among(a, b) && Authorized(AttenuateAll(Issue(tokenId, holder, scope), b), q)
    ensures Authorized(AttenuateAll(Issue(tokenId, holder, scope), a), q)
  {
    AuthorizedMeaning(tokenId, holder, scope, a, q);
    AuthorizedMeaning(tokenId, holder, scope, b, q);
    forall i | 0 <= i < |a| ensures Holds(CheckOf(a[i]), q) {
      var j :| 0 <= j < |b| && b[j] == a[i];
    }
  }

  /** More attenuations, in any order and with any repetition, never widen a token: what the
      verifier accepts with all of `b` it accepts with the rules of `a` among them, unless that
      token is itself revoked, and then the claims it returns for `b` are no later, no larger
      and hold no other tool. Every block carries an id of its own, so the two lists of ids
      need not be related. */
  lemma MoreRulesShrink(
    lib: Library, denied: Option<set<Id>>, tokenId: string, holder: string, scope: Scope,
    a: seq<Rule>, b: seq<Rule>, idsA: seq<Id>, idsB: seq<Id>, q: Request, t: string)
    requires Faithful(lib) && CleanRules(b) && Among(a, b)
    ensures
      var x, y := AttenuateAll(Issue(tokenId, holder, scope), a), AttenuateAll(Issue(tokenId, holder, scope), b);
      |x.blocks| >= 1 && |y.blocks| >= 1 &&
      var ra, rb := Verdict(lib, denied, x, idsA, q), Verdict(lib, denied, y, idsB, q);
      rb.Ok? && !Revoked(denied, idsA) ==>
        && ra.Ok? && rb.value.expires <= ra.value.expires && rb.value.budget <= ra.value.budget
        && (t in rb.value.tools ==> t in ra.value.tools)
  {
    AmongTransfers(lib, a, b);
    VerdictIff(lib, denied, tokenId, holder, scope, a, idsA, q);
    VerdictIff(lib, denied, tokenId, holder, scope, b, idsB, q);
    NarrowRulesShrink(Issue(tokenId, holder, scope).context, a, b, t);
    if Verdict(lib, denied, AttenuateAll(Issue(tokenId, holder, scope), b), idsB, q).Ok? {
      AmongAuthorizes(tokenId, holder, scope, a, b, q);
    }
  }

  /** Revocation aside, the verdict depends only on which rules were applied, not on their order
      and not on how often: the same requests are accepted, with the same claims. */
  lemma RuleOrderIrrelevant(
    lib: Library, denied: Option<set<Id>>, tokenId: string, holder: string, scope: Scope,
    a: seq<Rule>, b: seq<Rule>, idsA: seq<Id>, idsB: seq<Id>, q: Request)
    requires Faithful(lib) && CleanRules(a) && Among(a, b) && Among(b, a)
    ensures
      var x, y := AttenuateAll(Issue(tokenId, holder, scope), a), AttenuateAll(Issue(tokenId, holder, scope), b);
      |x.blocks| >= 1 && |y.blocks| >= 1 &&
      var ra, rb := Verdict(lib, denied, x, idsA, q), Verdict(lib, denied, y, idsB, q);
      && (ra.Ok? && !Revoked(denied, idsB) <==> rb.Ok? && !Revoked(denied, idsA))
      && (ra.Ok? && rb.Ok? ==> ra == rb)
  {
    AmongTransfers(lib, b, a);
    AmongTransfers(lib, a, b);
    MoreRulesShrink(lib, denied, tokenId, holder, scope, a, b, idsA, idsB, q, "");
    MoreRulesShrink(lib, denied, tokenId, holder, scope, b, a, idsB, idsA, q, "");
    VerdictIff(lib, denied, tokenId, holder, scope, a, idsA, q);
    VerdictIff(lib, denied, tokenId, holder, scope, b, idsB, q);
    NarrowRulesUnordered(Issue(tokenId, holder, scope).context, a, b);
  }

  // ---------------------------------------------------------------- revocation

  /** Once a token is revoked through any instance, every token that shares a block with it is
      refused as revoked by every later verification, whatever else is revoked meanwhile. */
  lemma RevokedForGood(
    lib: Library, text: string, revoked: seq<Id>, later: seq<Id>, token: Token, ids: seq<Id>, k: nat,
    q: Request, readable: bool)
    requires Text.NewlineTerminated(text)
    requires k < |ids| && ids[k] in revoked && ids[k] != []
    requires |token.blocks| >= 1
    ensures
      var file := AppendAll(AppendAll(text, revoked), later);
      Verdict(lib, if readable then LoadIds(file) else None, token, ids, q) == Err(IsRevoked)
  {
    SharedBlockStaysRevoked(text, revoked, later, ids, k, readable);
  }
}
