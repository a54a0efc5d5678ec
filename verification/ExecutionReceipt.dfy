/** Execution receipts: the claim set, its projection from a governed call and its signing as a
    compact JWS. */
module ExecutionReceipt {
  import opened Basics
  import opened Json
  import opened Unicode
  import opened Jcs
  import opened JcsCanonical
  import CapToken
  import Text

  datatype ActionClass = Search | Read | Write | Query | Delegate | Send | Summarize | Observe
  datatype SideEffectClass = NoEffect | InternalWrite | ExternalSend | StateChange
  datatype Verdict = Compliant | Violation | InsufficientEvidence
  datatype EvidenceLevel = SelfSigned | CounterSigned | TransparencyLogged
  datatype DenialReason = PolicyDenied | BudgetExhausted | EvidenceInsufficient | Revoked | ChainInvalid

  datatype Receipt = Receipt(
    receiptId: string, grantId: string,
    parentId: Option<string>, parentHash: Option<string>,
    actor: string, verifierId: string, traceId: string, runNonce: string, stepId: string,
    invocationDigest: string, tool: string, actionClass: ActionClass, target: string,
    resourceFamily: string, sideEffectClass: SideEffectClass,
    verdict: Verdict, evidenceLevel: EvidenceLevel, reason: string, decision: string,
    argumentsHash: string, budgetRemaining: u64, timestamp: string,
    iss: string, iat: u64, exp: u64, jti: string,
    publicDenial: Option<DenialReason>, internalDenial: Option<string>)

  datatype Signed = Signed(jws: string, receipt: Receipt)

  datatype Header = Header(alg: string, kid: string, typ: string)

  const ALG := "ES256"
  const ER_TYP := "application/ardur.er+jwt"

  /** 64 hexadecimal characters. */
  type Digest = s: string | |s| == 64 witness seq(64, _ => '0')

  /** Foreign code: hashing, base64url, serde, ES256 under a key set, and date rendering.
      `accepts(kid, input, sig)` is false for a `kid` the key set does not know. */
  datatype Suite = Suite(
    sha256Hex: seq<nat> -> Digest,
    sha256B64: seq<nat> -> string,
    b64: string -> string,
    unb64: string -> Option<string>,
    headerJson: Header -> string,
    parseHeader: string -> Option<Header>,
    receiptJson: Receipt -> string,
    parseReceipt: string -> Option<Receipt>,
    signRaw: (string, string) -> string,
    accepts: (string, string, string) -> bool,
    dateOfMillis: u64 -> Option<string>)

  /** Decoding undoes encoding, base64url text has no dot, and `kid`'s signatures verify. */
  ghost predicate Sound(s: Suite, kid: string) {
    && (forall x :: s.unb64(s.b64(x)) == Some(x) && '.' !in s.b64(x))
    && (forall h :: s.parseHeader(s.headerJson(h)) == Some(h))
    && (forall r :: s.parseReceipt(s.receiptJson(r)) == Some(r))
    && (forall input :: s.accepts(kid, input, s.signRaw(kid, input)))
  }

  // ---------------------------------------------------------------- signing

  function Split(s: string, c: char): (parts: seq<string>)
    ensures parts != []
  {
    if s == "" then [""]
    else
      var rest := Split(s[1..], c);
      if s[0] == c then [""] + rest else [[s[0]] + rest[0]] + rest[1..]
  }

  function Sign(s: Suite, receipt: Receipt, kid: string): Signed {
    var input := s.b64(s.headerJson(Header(ALG, kid, ER_TYP))) + "." + s.b64(s.receiptJson(receipt));
    Signed(input + "." + s.b64(s.signRaw(kid, input)), receipt)
  }

  function VerifyCompact(s: Suite, jws: string): Option<Receipt> {
    var parts := Split(jws, '.');
    if |parts| != 3 then None
    else
      var headerText :- s.unb64(parts[0]);
      var header :- s.parseHeader(headerText);
      if header.alg != ALG || header.typ != ER_TYP then None
      else
        var signature :- s.unb64(parts[2]);
        if !s.accepts(header.kid, parts[0] + "." + parts[1], signature) then None
        else
          var payload :- s.unb64(parts[1]);
          s.parseReceipt(payload)
  }

  lemma {:induction false} SplitFirst(a: string, c: char, rest: string)
    requires c !in a
    ensures Split(a + [c] + rest, c) == [a] + Split(rest, c)
  {
    var s := a + [c] + rest;
    if a == "" {
      assert s[1..] == rest;
    } else {
      assert s[1..] == a[1..] + [c] + rest;
      SplitFirst(a[1..], c, rest);
      assert [a[0]] + a[1..] == a;
    }
  }

  lemma {:induction false} SplitNone(a: string, c: char)
    requires c !in a
    ensures Split(a, c) == [a]
  {
    if a != "" {
      SplitNone(a[1..], c);
      assert [a[0]] + a[1..] == a;
    }
  }

  lemma SplitThree(a: string, b: string, d: string)
    requires '.' !in a && '.' !in b && '.' !in d
    ensures Split(a + "." + b + "." + d, '.') == [a, b, d]
  {
    assert a + "." + b + "." + d == a + ['.'] + (b + ['.'] + d);
    SplitFirst(a, '.', b + ['.'] + d);
    SplitFirst(b, '.', d);
    SplitNone(d, '.');
  }

  lemma {:induction false} SplitShape(jws: string)
    ensures '.' in jws ==> |Split(jws, '.')| >= 2
    ensures forall i :: 0 <= i < |Split(jws, '.')| ==> '.' !in Split(jws, '.')[i]
  {
    if jws != "" {
      SplitShape(jws[1..]);
      assert jws == [jws[0]] + jws[1..];
    }
  }

  /** Three parts joined by dots give back the text. */
  lemma {:induction false} SplitJoin(jws: string)
    ensures |Split(jws, '.')| == 1 ==> Split(jws, '.') == [jws]
    ensures |Split(jws, '.')| == 2 ==> jws == Split(jws, '.')[0] + "." + Split(jws, '.')[1]
    ensures |Split(jws, '.')| == 3 ==>
      jws == Split(jws, '.')[0] + "." + Split(jws, '.')[1] + "." + Split(jws, '.')[2]
  {
    if jws != "" {
      SplitJoin(jws[1..]);
      Text.HeadTail(jws);
    }
  }

  /** The text is a header, a payload and a signature in base64url: the header is of this type
      and algorithm, the signature over the first two parts is accepted for the header's key,
      and the payload is the receipt. */
  predicate Compact(s: Suite, jws: string, a: string, b: string, d: string, r: Receipt) {
    && '.' !in a && '.' !in b && '.' !in d && jws == a + "." + b + "." + d
    && var header, payload, signature := s.unb64(a), s.unb64(b), s.unb64(d);
       && header.Some? && payload.Some? && signature.Some?
       && var h := s.parseHeader(header.value);
          && h.Some? && h.value.alg == "ES256" && h.value.typ == "application/ardur.er+jwt"
          && s.accepts(h.value.kid, a + "." + b, signature.value)
          && s.parseReceipt(payload.value) == Some(r)
  }

  /** VERIFICATION IS EXACT: a text verifies to a receipt iff it is such a compact form of it. */
  lemma VerifiesExactly(s: Suite, jws: string, r: Receipt)
    ensures VerifyCompact(s, jws) == Some(r) <==> exists a, b, d :: Compact(s, jws, a, b, d, r)
  {
    if VerifyCompact(s, jws) == Some(r) {
      SplitShape(jws);
      SplitJoin(jws);
      var parts := Split(jws, '.');
      assert Compact(s, jws, parts[0], parts[1], parts[2], r);
    }
    if a, b, d :| Compact(s, jws, a, b, d, r) {
      SplitThree(a, b, d);
    }
  }

  /** A signed receipt verifies to the claim set that was signed. */
  lemma SignedVerifies(s: Suite, receipt: Receipt, kid: string)
    requires Sound(s, kid)
    ensures VerifyCompact(s, Sign(s, receipt, kid).jws) == Some(receipt)
  {
    var header := Header(ALG, kid, ER_TYP);
    var a, b := s.b64(s.headerJson(header)), s.b64(s.receiptJson(receipt));
    var input := a + "." + b;
    SplitThree(a, b, s.b64(s.signRaw(kid, input)));
  }

  // ---------------------------------------------------------------- projection

  datatype Outcome =
    | Allowed
    | Denied(public: DenialReason, code: string)
    | Unknown(code: string)

  datatype Call = Call(
    tool: string, actionClass: ActionClass, target: string, resourceFamily: string,
    sideEffectClass: SideEffectClass, arguments: Value)

  datatype Step = Step(
    verifierId: string, iss: string, traceId: string, runNonce: string, stepId: string,
    millis: u64, ttl: u64, evidenceLevel: EvidenceLevel, parent: Option<Signed>)

  function ActionName(a: ActionClass): string {
    match a
    case Search => "search"
    case Read => "read"
    case Write => "write"
    case Query => "query"
    case Delegate => "delegate"
    case Send => "send"
    case Summarize => "summarize"
    case Observe => "observe"
  }

  function EffectName(e: SideEffectClass): string {
    match e
    case NoEffect => "none"
    case InternalWrite => "internal_write"
    case ExternalSend => "external_send"
    case StateChange => "state_change"
  }

  /** The class a name stands for. */
  function ActionOf(name: string): Option<ActionClass> {
    if name == "search" then Some(Search)
    else if name == "read" then Some(Read)
    else if name == "write" then Some(Write)
    else if name == "query" then Some(Query)
    else if name == "delegate" then Some(Delegate)
    else if name == "send" then Some(Send)
    else if name == "summarize" then Some(Summarize)
    else if name == "observe" then Some(Observe)
    else None
  }

  function EffectOf(name: string): Option<SideEffectClass> {
    if name == "none" then Some(NoEffect)
    else if name == "internal_write" then Some(InternalWrite)
    else if name == "external_send" then Some(ExternalSend)
    else if name == "state_change" then Some(StateChange)
    else None
  }

  lemma ActionNamed(a: ActionClass)
    ensures ActionOf(ActionName(a)) == Some(a)
  {
    var name := ActionName(a);
    match a
    case Search => assert name == "search";
    case Read => assert name[0] != 's';
    case Write => assert name[0] != 's' && name[0] != 'r';
    case Query => assert name[0] != 's' && name[0] != 'r' && name[0] != 'w';
    case Delegate => assert name[0] != 's' && name[0] != 'r' && name[0] != 'w' && name[0] != 'q';
    case Send => assert name[0] == 's' && |name| == 4;
    case Summarize => assert name[0] == 's' && |name| == 9;
    case Observe => assert name[0] == 'o';
  }

  lemma EffectNamed(e: SideEffectClass)
    ensures EffectOf(EffectName(e)) == Some(e)
  {
    var name := EffectName(e);
    match e
    case NoEffect => assert name == "none";
    case InternalWrite => assert name[0] == 'i';
    case ExternalSend => assert name[0] == 'e';
    case StateChange => assert name[0] == 's';
  }

  /** A class and no other is written under its name. */
  lemma NamesExact(a: ActionClass, e: SideEffectClass, name: string)
    ensures ActionOf(name) == Some(a) <==> ActionName(a) == name
    ensures EffectOf(name) == Some(e) <==> EffectName(e) == name
  {
    ActionNamed(a);
    EffectNamed(e);
  }

  predicate ValidId(s: string) {
    8 <= |s| <= 64 && forall i :: 0 <= i < |s| ==> Text.AsciiAlphanumeric(s[i]) || s[i] in "._:/-"
  }

  predicate ValidNonce(s: string) {
    16 <= |s| <= 128 && forall i :: 0 <= i < |s| ==> Text.AsciiAlphanumeric(s[i]) || s[i] in "_-"
  }

  /** The text has this many characters, all letters, digits or from `others`. */
  predicate Drawn(s: string, others: seq<char>, least: nat, most: nat) {
    && |s| >= least && !(|s| > most)
    && !exists i :: 0 <= i < |s| && !Text.AsciiAlphanumeric(s[i]) && s[i] !in others
  }

  function Envelope(claims: CapToken.Claims, call: Call): Value {
    Obj([
      Member("action_class", Str(ActionName(call.actionClass))),
      Member("arguments", call.arguments),
      Member("grant_id", Str(claims.tokenId)),
      Member("resource_family", Str(call.resourceFamily)),
      Member("side_effect_class", Str(EffectName(call.sideEffectClass))),
      Member("target", Str(call.target)),
      Member("tool", Str(call.tool))])
  }

  function ReceiptHash(s: Suite, jws: string): Digest {
    s.sha256Hex(Utf8(jws))
  }

  /** `hash[..16]`; a SHA-256 digest is always long enough. */
  function ShortId(hash: string): string {
    if |hash| < 16 then hash else hash[..16]
  }

  predicate ValidStep(s: Suite, claims: CapToken.Claims, call: Call, step: Step) {
    && ValidId(step.traceId) && 1 <= |step.stepId| <= 256 && ValidNonce(step.runNonce)
    && ValidId(claims.tokenId) && 1 <= |call.target| <= 2048
    && s.dateOfMillis(step.millis).Some?
  }

  /** `compliant` carries no denial fields; the other verdicts carry both. */
  predicate VerdictInvariant(r: Receipt) {
    if r.verdict == Compliant then r.publicDenial.None? && r.internalDenial.None?
    else r.publicDenial.Some? && r.internalDenial.Some?
  }

  /** `iat + ttl_secs.max(1)` on `u64`, which wraps in a release build. */
  function Expiry(iat: u64, ttl: u64): u64 {
    (iat + if ttl == 0 then 1 else ttl) % (U64_MAX + 1)
  }

  function Project(s: Suite, claims: CapToken.Claims, call: Call, outcome: Outcome, step: Step): Option<Receipt> {
    if !ValidStep(s, claims, call, step) then None
    else
      var digest := s.sha256B64(Utf8(Canonical(Envelope(claims, call))));
      var iat := step.millis / 1000;
      var parentHash := if step.parent.None? then None else Some(ReceiptHash(s, step.parent.value.jws));
      var parentId := if parentHash.None? then None else Some(ShortId(parentHash.value));
      var seed := Seed(step.traceId, step.runNonce, step.stepId, claims.tokenId, digest);
      var receiptId := "er:" + ReceiptHash(s, seed)[..40];
      var jti := "er:jti:" + ReceiptHash(s, receiptId + "|" + Text.NatText(iat))[..48];
      var (verdict, reason, decision, public, code) :=
        match outcome
        case Allowed => (Compliant, "within policy", "permit", None, None)
        case Denied(p, c) => (Violation, "violation: " + c, "deny", Some(p), Some(c))
        case Unknown(c) =>
          (InsufficientEvidence, "insufficient evidence: " + c, "insufficient", Some(EvidenceInsufficient), Some(c));
      var r := Receipt(
        receiptId, claims.tokenId, parentId, parentHash,
        claims.subject, step.verifierId, step.traceId, step.runNonce, step.stepId,
        digest, call.tool, call.actionClass, call.target,
        call.resourceFamily, call.sideEffectClass,
        verdict, step.evidenceLevel, reason, decision,
        s.sha256Hex(Utf8(Canonical(call.arguments))), claims.budget, s.dateOfMillis(step.millis).value,
        step.iss, iat, Expiry(iat, step.ttl), jti,
        public, code);
      if VerdictInvariant(r) then Some(r) else None
  }

  /** WHICH STEPS ARE REFUSED, limit by limit. */
  lemma RefusedIff(s: Suite, claims: CapToken.Claims, call: Call, outcome: Outcome, step: Step)
    ensures Project(s, claims, call, outcome, step).None? <==>
      || !Drawn(step.traceId, ['.', '_', ':', '/', '-'], 8, 64)
      || !Drawn(claims.tokenId, ['.', '_', ':', '/', '-'], 8, 64)
      || !Drawn(step.runNonce, ['_', '-'], 16, 128)
      || step.stepId == "" || |step.stepId| > 256 || call.target == "" || |call.target| > 2048
      || s.dateOfMillis(step.millis).None?
  {
    IdDrawn(step.traceId);
    IdDrawn(claims.tokenId);
    NonceDrawn(step.runNonce);
  }

  lemma IdDrawn(s: string)
    ensures ValidId(s) <==> Drawn(s, ['.', '_', ':', '/', '-'], 8, 64)
  {
  }

  lemma NonceDrawn(s: string)
    ensures ValidNonce(s) <==> Drawn(s, ['_', '-'], 16, 128)
  {
  }

  /** The schema's rule on denial fields: each of the two is there iff the verdict is not
      compliant. */
  lemma VerdictInvariantExact(r: Receipt)
    ensures VerdictInvariant(r) <==>
      && (r.publicDenial.None? <==> r.verdict.Compliant?)
      && (r.internalDenial.None? <==> r.verdict.Compliant?)
  {
  }

  /** Projection fails only on malformed input: the verdict invariant never rejects. The receipt
      expires after it was issued iff the lifetime does not run past the end of `u64`. */
  lemma ProjectTotal(s: Suite, claims: CapToken.Claims, call: Call, outcome: Outcome, step: Step)
    ensures
      var r := Project(s, claims, call, outcome, step);
      && (r.Some? <==> ValidStep(s, claims, call, step))
      && (r.Some? ==> VerdictInvariant(r.value) && (r.value.verdict == Compliant <==> outcome.Allowed?))
      && (r.Some? ==> r.value.iat == step.millis / 1000)
      && (r.Some? ==> (r.value.iat < r.value.exp <==> step.millis / 1000 + step.ttl <= U64_MAX))
      && (r.Some? && step.millis / 1000 + step.ttl <= U64_MAX ==>
            r.value.exp == r.value.iat + if step.ttl == 0 then 1 else step.ttl)
  {
    ExpiryLater(step.millis / 1000, step.ttl);
  }

  /** What a receipt says of its outcome, read back. */
  function OutcomeOf(r: Receipt): Option<Outcome> {
    match (r.verdict, r.publicDenial, r.internalDenial)
    case (Compliant, None, None) => Some(Allowed)
    case (Violation, Some(p), Some(c)) => Some(Denied(p, c))
    case (InsufficientEvidence, Some(EvidenceInsufficient), Some(c)) => Some(Unknown(c))
    case (_, _, _) => None
  }

  /** The words of the decision and of the reason for an outcome. */
  predicate Worded(r: Receipt, outcome: Outcome) {
    && (outcome.Allowed? ==> r.decision == "permit" && r.reason == "within policy")
    && (outcome.Denied? ==> r.decision == "deny" && r.reason == "violation: " + outcome.code)
    && (outcome.Unknown? ==> r.decision == "insufficient" && r.reason == "insufficient evidence: " + outcome.code)
  }

  /** The receipt names the grant and the holder of the token and what is left of its budget. */
  predicate SaysClaims(r: Receipt, claims: CapToken.Claims) {
    r.grantId == claims.tokenId && r.actor == claims.subject && r.budgetRemaining == claims.budget
  }

  predicate SaysCall(r: Receipt, call: Call) {
    && r.tool == call.tool && r.target == call.target && r.resourceFamily == call.resourceFamily
    && r.actionClass == call.actionClass && r.sideEffectClass == call.sideEffectClass
  }

  predicate SaysStep(s: Suite, r: Receipt, step: Step) {
    && r.verifierId == step.verifierId && r.iss == step.iss && r.evidenceLevel == step.evidenceLevel
    && r.traceId == step.traceId && r.runNonce == step.runNonce && r.stepId == step.stepId
    && s.dateOfMillis(step.millis) == Some(r.timestamp)
  }

  /** THE RECEIPT SAYS WHAT HAPPENED: the outcome can be read back from every projected receipt,
      in fields and in words, and it names the token, the call and the step it came from. */
  lemma ReceiptSays(s: Suite, claims: CapToken.Claims, call: Call, outcome: Outcome, step: Step)
    requires Project(s, claims, call, outcome, step).Some?
    ensures
      var r := Project(s, claims, call, outcome, step).value;
      && OutcomeOf(r) == Some(outcome) && Worded(r, outcome)
      && SaysClaims(r, claims) && SaysCall(r, call) && SaysStep(s, r, step)
  {
  }

  /** Equal argument hashes come from the same argument data, or the hash collides on the two
      canonical texts. */
  lemma ArgumentsHashBinds(
    s: Suite,
    c1: CapToken.Claims, k1: Call, o1: Outcome, t1: Step,
    c2: CapToken.Claims, k2: Call, o2: Outcome, t2: Step)
    requires WellFormed(k1.arguments) && WellFormed(k2.arguments)
    requires Project(s, c1, k1, o1, t1).Some? && Project(s, c2, k2, o2, t2).Some?
    requires Project(s, c1, k1, o1, t1).value.argumentsHash == Project(s, c2, k2, o2, t2).value.argumentsHash
    ensures
      || SameContent(k1.arguments, k2.arguments)
      || (var x, y := Utf8(Canonical(k1.arguments)), Utf8(Canonical(k2.arguments));
          x != y && s.sha256Hex(x) == s.sha256Hex(y))
  {
    CanonicalBytesIffSameContent(k1.arguments, k2.arguments);
  }

  // ---------------------------------------------------------------- the stable identifiers

  /** The text a receipt id is hashed from. */
  function Seed(trace: string, nonce: string, step: string, grant: string, digest: string): string {
    trace + ("|" + (nonce + ("|" + (step + ("|" + (grant + ("|" + digest)))))))
  }

  /** Two texts that differ and whose hashes agree in their first `n` characters. */
  predicate ShortCollision(s: Suite, a: string, b: string, n: nat)
    requires n <= 64
  {
    a != b && ReceiptHash(s, a)[..n] == ReceiptHash(s, b)[..n]
  }

  lemma BarFirst(a: string, x: string, b: string, y: string)
    requires '|' !in a && '|' !in b && a + ("|" + x) == b + ("|" + y)
    ensures a == b && x == y
  {
    Text.Associative(a, "|", x);
    Text.Associative(b, "|", y);
    Text.SplitOnceOf(a, '|', x);
    Text.SplitOnceOf(b, '|', y);
  }

  lemma BarLast(a: string, x: string, b: string, y: string)
    requires '|' !in x && '|' !in y && a + ("|" + x) == b + ("|" + y)
    ensures a == b && x == y
  {
    var u, v := a + ("|" + x), b + ("|" + y);
    LastBarOf(a, x);
    LastBarOf(b, y);
    SameLastBar(u, |a|, |b|);
    assert a == u[..|a|] && b == v[..|b|];
    assert u[|a| + 1..] == x && v[|b| + 1..] == y;
  }

  /** The bar at `p` is the last one. */
  predicate LastBar(s: string, p: nat) {
    p < |s| && s[p] == '|' && forall i :: p < i < |s| ==> s[i] != '|'
  }

  lemma LastBarOf(a: string, x: string)
    requires '|' !in x
    ensures LastBar(a + ("|" + x), |a|)
  {
    var u := a + ("|" + x);
    forall i | |a| < i < |u| ensures u[i] != '|' { assert u[i] == x[i - |a| - 1]; }
  }

  lemma SameLastBar(s: string, p: nat, q: nat)
    requires LastBar(s, p) && LastBar(s, q)
    ensures p == q
  {
  }

  lemma NoBars(a: string, b: string)
    requires ValidId(a) && ValidNonce(b)
    ensures '|' !in a && '|' !in b
  {
    forall i | 0 <= i < |a| ensures a[i] != '|' { assert Text.AsciiAlphanumeric(a[i]) || a[i] in "._:/-"; }
    forall i | 0 <= i < |b| ensures b[i] != '|' { assert Text.AsciiAlphanumeric(b[i]) || b[i] in "_-"; }
  }

  /** The seed determines its five parts, though a step id may hold bars. */
  lemma SeedDetermines(
    t1: string, n1: string, s1: string, g1: string, d1: string,
    t2: string, n2: string, s2: string, g2: string, d2: string)
    requires ValidId(t1) && ValidId(t2) && ValidNonce(n1) && ValidNonce(n2) && ValidId(g1) && ValidId(g2)
    requires '|' !in d1 && '|' !in d2
    requires Seed(t1, n1, s1, g1, d1) == Seed(t2, n2, s2, g2, d2)
    ensures t1 == t2 && n1 == n2 && s1 == s2 && g1 == g2 && d1 == d2
  {
    NoBars(t1, n1);
    NoBars(t2, n2);
    NoBars(g1, n1);
    NoBars(g2, n2);
    var x1, x2 := s1 + ("|" + (g1 + ("|" + d1))), s2 + ("|" + (g2 + ("|" + d2)));
    BarFirst(t1, n1 + ("|" + x1), t2, n2 + ("|" + x2));
    BarFirst(n1, x1, n2, x2);
    Regroup(s1, g1, d1);
    Regroup(s2, g2, d2);
    BarLast(s1 + ("|" + g1), d1, s2 + ("|" + g2), d2);
    BarLast(s1, g1, s2, g2);
  }

  lemma Regroup(a: string, b: string, c: string)
    ensures a + ("|" + (b + ("|" + c))) == a + ("|" + b) + ("|" + c)
  {
  }

  /** THE RECEIPT ID BINDS THE STEP: receipts with equal ids come from the same trace, nonce,
      step, grant and invocation digest, or the first 40 digits of the hash collide. */
  lemma ReceiptIdBinds(
    s: Suite,
    c1: CapToken.Claims, k1: Call, o1: Outcome, t1: Step,
    c2: CapToken.Claims, k2: Call, o2: Outcome, t2: Step)
    requires forall x :: '|' !in s.sha256B64(x)
    requires Project(s, c1, k1, o1, t1).Some? && Project(s, c2, k2, o2, t2).Some?
    ensures
      var r, q := Project(s, c1, k1, o1, t1).value, Project(s, c2, k2, o2, t2).value;
      && |r.receiptId| == 43 && "er:" <= r.receiptId
      && (r.receiptId == q.receiptId ==>
            || (&& t1.traceId == t2.traceId && t1.runNonce == t2.runNonce && t1.stepId == t2.stepId
                && c1.tokenId == c2.tokenId && r.invocationDigest == q.invocationDigest)
            || ShortCollision(s,
                 Seed(t1.traceId, t1.runNonce, t1.stepId, c1.tokenId, r.invocationDigest),
                 Seed(t2.traceId, t2.runNonce, t2.stepId, c2.tokenId, q.invocationDigest), 40))
  {
    var r, q := Project(s, c1, k1, o1, t1).value, Project(s, c2, k2, o2, t2).value;
    var a := Seed(t1.traceId, t1.runNonce, t1.stepId, c1.tokenId, r.invocationDigest);
    var b := Seed(t2.traceId, t2.runNonce, t2.stepId, c2.tokenId, q.invocationDigest);
    IdFromSeed(s, c1, k1, o1, t1);
    IdFromSeed(s, c2, k2, o2, t2);
    if r.receiptId == q.receiptId {
      assert r.receiptId[3..] == ReceiptHash(s, a)[..40] && q.receiptId[3..] == ReceiptHash(s, b)[..40];
      if a == b {
        SeedDetermines(
          t1.traceId, t1.runNonce, t1.stepId, c1.tokenId, r.invocationDigest,
          t2.traceId, t2.runNonce, t2.stepId, c2.tokenId, q.invocationDigest);
      }
    }
  }

  lemma IdFromSeed(s: Suite, claims: CapToken.Claims, call: Call, outcome: Outcome, step: Step)
    requires Project(s, claims, call, outcome, step).Some?
    ensures
      var r := Project(s, claims, call, outcome, step).value;
      && r.receiptId == "er:" + ReceiptHash(
           s, Seed(step.traceId, step.runNonce, step.stepId, claims.tokenId, r.invocationDigest))[..40]
      && r.jti == "er:jti:" + ReceiptHash(s, r.receiptId + "|" + Text.NatText(r.iat))[..48]
  {
  }

  /** Equal token ids of two receipts mean the same receipt id and issue time, or the first 48
      digits of the hash collide. */
  lemma JtiBinds(
    s: Suite,
    c1: CapToken.Claims, k1: Call, o1: Outcome, t1: Step,
    c2: CapToken.Claims, k2: Call, o2: Outcome, t2: Step)
    requires Project(s, c1, k1, o1, t1).Some? && Project(s, c2, k2, o2, t2).Some?
    requires Project(s, c1, k1, o1, t1).value.jti == Project(s, c2, k2, o2, t2).value.jti
    ensures
      var r, q := Project(s, c1, k1, o1, t1).value, Project(s, c2, k2, o2, t2).value;
      && |r.jti| == 55 && "er:jti:" <= r.jti
      && (|| (r.receiptId == q.receiptId && r.iat == q.iat)
          || ShortCollision(
               s, r.receiptId + "|" + Text.NatText(r.iat), q.receiptId + "|" + Text.NatText(q.iat), 48))
  {
    var r, q := Project(s, c1, k1, o1, t1).value, Project(s, c2, k2, o2, t2).value;
    IdFromSeed(s, c1, k1, o1, t1);
    IdFromSeed(s, c2, k2, o2, t2);
    var a, b := r.receiptId + "|" + Text.NatText(r.iat), q.receiptId + "|" + Text.NatText(q.iat);
    assert r.jti[7..] == ReceiptHash(s, a)[..48] && q.jti[7..] == ReceiptHash(s, b)[..48];
    if a == b {
      assert a[..43] == r.receiptId && b[..43] == q.receiptId;
      assert a[44..] == Text.NatText(r.iat) && b[44..] == Text.NatText(q.iat);
      Text.NatTextValue(r.iat);
      Text.NatTextValue(q.iat);
    }
  }

  // ---------------------------------------------------------------- the expiry

  lemma ExpiryLater(iat: u64, ttl: u64)
    requires iat < U64_MAX
    ensures iat < Expiry(iat, ttl) <==> iat + ttl <= U64_MAX
    ensures iat + ttl <= U64_MAX ==> Expiry(iat, ttl) == iat + if ttl == 0 then 1 else ttl
  {
  }

  /** A lifetime of `u64::MAX` seconds yields a receipt that expires before it was issued. */
  lemma EndlessLifetimeExpired(iat: u64)
    requires 0 < iat
    ensures Expiry(iat, U64_MAX) < iat
  {
  }

  // ---------------------------------------------------------------- the invocation digest

  lemma EnvelopeWellFormed(claims: CapToken.Claims, call: Call)
    requires WellFormed(call.arguments)
    ensures WellFormed(Envelope(claims, call))
  {
    var ms := Envelope(claims, call).members;
    assert DistinctKeys(ms) by { EnvelopeKeys(claims, call); }
    forall i | 0 <= i < |ms|
      ensures WellFormed(ms[i].value)
    {
    }
  }

  lemma EnvelopeKeys(claims: CapToken.Claims, call: Call)
    ensures DistinctKeys(Envelope(claims, call).members)
  {
    var ms := Envelope(claims, call).members;
    assert |ms[0].key| == 12 && |ms[1].key| == 9 && |ms[2].key| == 8 && |ms[3].key| == 15;
    assert |ms[4].key| == 17 && |ms[5].key| == 6 && |ms[6].key| == 4;
  }

  /** Two envelopes with the same content agree field by field. */
  lemma EnvelopeField(c1: CapToken.Claims, k1: Call, c2: CapToken.Claims, k2: Call, i: nat)
    requires SameContent(Envelope(c1, k1), Envelope(c2, k2)) && i < 7
    ensures SameContent(Envelope(c1, k1).members[i].value, Envelope(c2, k2).members[i].value)
  {
    var a, b := Envelope(c1, k1).members, Envelope(c2, k2).members;
    EnvelopeKeys(c2, k2);
    assert a[i].key == b[i].key;
    var j := IndexOf(b, a[i].key);
    assert j == i;
  }

  lemma NamesDistinct(a: ActionClass, b: ActionClass, e: SideEffectClass, f: SideEffectClass)
    ensures ActionName(a) == ActionName(b) ==> a == b
    ensures EffectName(e) == EffectName(f) ==> e == f
  {
    assert ActionName(a)[0] == ActionName(b)[0] || ActionName(a) != ActionName(b);
    assert ActionName(a)[1] == ActionName(b)[1] || ActionName(a) != ActionName(b);
    assert EffectName(e)[0] == EffectName(f)[0] || EffectName(e) != EffectName(f);
  }

  /** THE DIGEST BINDS THE CALL: receipts with equal invocation digests were projected from the
      same tool, action class, target, resource family, side-effect class, grant and argument
      data, unless the digest function collides on the two canonical envelopes. */
  lemma DigestBindsCall(
    s: Suite,
    c1: CapToken.Claims, k1: Call, o1: Outcome, t1: Step,
    c2: CapToken.Claims, k2: Call, o2: Outcome, t2: Step)
    requires WellFormed(k1.arguments) && WellFormed(k2.arguments)
    requires Project(s, c1, k1, o1, t1).Some? && Project(s, c2, k2, o2, t2).Some?
    requires Project(s, c1, k1, o1, t1).value.invocationDigest == Project(s, c2, k2, o2, t2).value.invocationDigest
    ensures
      || (&& k1.(arguments := Null) == k2.(arguments := Null)
          && c1.tokenId == c2.tokenId
          && SameContent(k1.arguments, k2.arguments))
      || (var x, y := Utf8(Canonical(Envelope(c1, k1))), Utf8(Canonical(Envelope(c2, k2)));
          x != y && s.sha256B64(x) == s.sha256B64(y))
  {
    var e1, e2 := Envelope(c1, k1), Envelope(c2, k2);
    EnvelopeWellFormed(c1, k1);
    EnvelopeWellFormed(c2, k2);
    CanonicalBytesIffSameContent(e1, e2);
    if SameContent(e1, e2) {
      EnvelopeDetermines(c1, k1, c2, k2);
    }
  }

  lemma EnvelopeDetermines(c1: CapToken.Claims, k1: Call, c2: CapToken.Claims, k2: Call)
    requires SameContent(Envelope(c1, k1), Envelope(c2, k2))
    ensures k1.(arguments := Null) == k2.(arguments := Null)
    ensures c1.tokenId == c2.tokenId && SameContent(k1.arguments, k2.arguments)
  {
    EnvelopeField(c1, k1, c2, k2, 0);
    EnvelopeField(c1, k1, c2, k2, 1);
    EnvelopeField(c1, k1, c2, k2, 2);
    EnvelopeField(c1, k1, c2, k2, 3);
    EnvelopeField(c1, k1, c2, k2, 4);
    EnvelopeField(c1, k1, c2, k2, 5);
    EnvelopeField(c1, k1, c2, k2, 6);
    NamesDistinct(k1.actionClass, k2.actionClass, k1.sideEffectClass, k2.sideEffectClass);
  }
}
