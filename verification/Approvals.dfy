/** The approval-card store and the life of its cards over whole runs. */
module Approvals {
  import opened Basics
  import opened Text

  datatype Status = Pending | Approved | Denied | Consumed

  datatype Card = Card(
    status: Status, createdAt: u64, decidedAt: Option<u64>, denyReason: Option<string>,
    tool: string, capability: string, digest: string, session: Option<string>, reason: string)

  datatype Decision = Approve | Reject(reason: string)
  datatype StoreError = InvalidId | NotFound | AlreadyDecided

  /** What a retried call is matched by. */
  datatype Key = Key(tool: string, digest: string, session: Option<string>)

  type Cards = map<string, Card>

  const MAX_APPROVAL_ID_LEN := 128

  predicate ValidId(id: string) {
    && 0 < |id| <= MAX_APPROVAL_ID_LEN
    && forall i :: 0 <= i < |id| ==> AsciiAlphanumeric(id[i]) || id[i] == '-' || id[i] == '_'
  }

  /** An id is refused iff it is empty, longer than 128 characters, or holds a character other
      than a letter, a digit, a dash or an underscore. */
  lemma RefusedIdIff(id: string)
    ensures !ValidId(id) <==>
      || id == "" || |id| > 128
      || exists i :: 0 <= i < |id| && !AsciiAlphanumeric(id[i]) && id[i] !in "-_"
  {
  }

  function KeyOf(c: Card): Key {
    Key(c.tool, c.digest, c.session)
  }

  function NewCard(key: Key, capability: string, reason: string, at: u64): (c: Card)
    ensures c.status == Pending && KeyOf(c) == key && CardOk(c)
    ensures c.createdAt == at && c.capability == capability && c.reason == reason
  {
    Card(Pending, at, None, None, key.tool, capability, key.digest, key.session, reason)
  }

  function Read(cards: Cards, id: string): Result<Card, StoreError> {
    if !ValidId(id) then Err(InvalidId) else if id in cards then Ok(cards[id]) else Err(NotFound)
  }

  function Decided(card: Card, decision: Decision, at: u64): Card {
    match decision
    case Approve => card.(status := Approved, decidedAt := Some(at))
    case Reject(reason) => card.(status := Denied, denyReason := Some(reason), decidedAt := Some(at))
  }

  /** A decision stamps its own time, an approval no reason and a rejection its own, and leaves
      everything else of a pending card. */
  lemma DecidedExact(card: Card, decision: Decision, at: u64)
    requires card.status == Pending && CardOk(card)
    ensures
      var d := Decided(card, decision, at);
      && d.decidedAt == Some(at) && CardOk(d)
      && d.(status := card.status, decidedAt := card.decidedAt, denyReason := card.denyReason) == card
      && (if decision.Approve? then d.status == Approved && d.denyReason == card.denyReason
          else d.status == Denied && d.denyReason == Some(decision.reason))
  {
  }

  /** The card a decision produces, or why there is none. */
  function Decide(cards: Cards, id: string, decision: Decision, at: u64): Result<Card, StoreError> {
    var card :- Read(cards, id);
    if card.status != Pending then Err(AlreadyDecided) else Ok(Decided(card, decision, at))
  }

  function Consume(cards: Cards, id: string): Result<Card, StoreError> {
    var card :- Read(cards, id);
    match card.status
    case Consumed => Ok(card)
    case Approved => Ok(card.(status := Consumed))
    case _ => Err(AlreadyDecided)
  }

  predicate Matches(card: Card, key: Key) {
    KeyOf(card) == key && card.status != Consumed
  }

  class ApprovalStore {
    var cards: Cards

    constructor ()
      ensures cards == map[]
    { cards := map[]; }

    /** Some unconsumed card with this key, if there is one. */
    method FindMatching(key: Key) returns (r: Option<(string, Card)>)
      ensures r.Some? ==> r.value.0 in cards && cards[r.value.0] == r.value.1 && Matches(r.value.1, key)
      ensures r.None? ==> forall id :: id in cards ==> !Matches(cards[id], key)
    {
      var left := cards.Keys;
      while left != {}
        invariant left <= cards.Keys
        invariant forall id :: id in cards.Keys - left ==> !Matches(cards[id], key)
        decreases left
      {
        var id :| id in left;
        if Matches(cards[id], key) { return Some((id, cards[id])); }
        left := left - {id};
      }
      return None;
    }

    /** `id` is the freshly minted one. */
    method ProposeCard(id: string, key: Key, capability: string, reason: string, at: u64)
      returns (r: Result<Card, StoreError>)
      modifies this
      ensures cards == Step(old(cards), Propose(id, NewCard(key, capability, reason, at)))
      ensures r == if ValidId(id) then Ok(NewCard(key, capability, reason, at)) else Err(InvalidId)
    {
      if !ValidId(id) { return Err(InvalidId); }
      var card := NewCard(key, capability, reason, at);
      cards := cards[id := card];
      return Ok(card);
    }

    method DecideCard(id: string, decision: Decision, at: u64) returns (r: Result<Card, StoreError>)
      modifies this
      ensures r == Decide(old(cards), id, decision, at)
      ensures cards == Step(old(cards), Settle(id, decision, at))
    {
      r := Read(cards, id);
      if r.Err? { return; }
      var card := r.value;
      if card.status != Pending { return Err(AlreadyDecided); }
      match decision {
        case Approve => card := card.(status := Approved);
        case Reject(reason) => card := card.(status := Denied, denyReason := Some(reason));
      }
      card := card.(decidedAt := Some(at));
      cards := cards[id := card];
      return Ok(card);
    }

    /** The gate of a governed tool call: an approved card is used up and lets the call
        through, a denied or pending one refuses it, and without a card one is proposed under
        the freshly minted `id`. `pick` is the card that the lookup found. */
    method RequireApproval(key: Key, id: string, capability: string, reason: string, at: u64)
      returns (r: GateResult, ghost pick: Option<string>)
      requires id !in cards
      modifies this
      ensures
        var e := Called(key, pick, id, capability, reason, at);
        Proper(old(cards), e) && cards == After(old(cards), e) && r == Answer(old(cards), e)
    {
      var existing := FindMatching(key);
      if existing.None? {
        pick := None;
        var proposed := ProposeCard(id, key, capability, reason, at);
        return if proposed.Ok? then ApprovalRequired(id) else Failed, pick;
      }
      var found, card := existing.value.0, existing.value.1;
      pick := Some(found);
      match card.status {
        case Approved =>
          var used := ConsumeCard(found);
          return if used.Ok? then LetThrough else Failed, pick;
        case Denied => return ApprovalRejected(found), pick;
        case _ => return ApprovalRequired(found), pick;
      }
    }

    method ConsumeCard(id: string) returns (r: Result<Card, StoreError>)
      modifies this
      ensures r == Consume(old(cards), id)
      ensures cards == Step(old(cards), Use(id))
    {
      r := Read(cards, id);
      if r.Err? { return; }
      var card := r.value;
      match card.status {
        case Consumed => return Ok(card);
        case Approved =>
        case _ => return Err(AlreadyDecided);
      }
      card := card.(status := Consumed);
      cards := cards[id := card];
      return Ok(card);
    }
  }

  // ---------------------------------------------------------------- runs

  datatype Op =
    | Propose(id: string, card: Card)
    | Settle(id: string, decision: Decision, at: u64)
    | Use(id: string)

  function Put(cards: Cards, id: string, r: Result<Card, StoreError>): Cards {
    if r.Ok? then cards[id := r.value] else cards
  }

  function Step(cards: Cards, op: Op): Cards {
    match op
    case Propose(id, card) => if ValidId(id) then cards[id := card] else cards
    case Settle(id, decision, at) => Put(cards, id, Decide(cards, id, decision, at))
    case Use(id) =>
      Put(cards, id, Consume(cards, id))
  }

  function Run(ops: seq<Op>): Cards {
    if ops == [] then map[] else Step(Run(ops[..|ops| - 1]), ops[|ops| - 1])
  }

  /** A proposal starts a pending card under an id not in use. */
  predicate FreshIn(cards: Cards, op: Op) {
    op.Propose? ==>
      op.id !in cards && op.card.status == Pending && op.card.decidedAt.None? && op.card.denyReason.None?
  }

  predicate Fresh(ops: seq<Op>) {
    ops == [] || (Fresh(ops[..|ops| - 1]) && FreshIn(Run(ops[..|ops| - 1]), ops[|ops| - 1]))
  }

  /** Status only moves forward: pending to approved or denied, approved to consumed. */
  predicate Forward(s: Status, t: Status) {
    s == t || s == Pending || (s == Approved && t == Consumed)
  }

  /** `b` is a later state of card `a`: same identity, and a decision once stamped stays. */
  predicate Evolves(a: Card, b: Card) {
    && b.(status := a.status, decidedAt := a.decidedAt, denyReason := a.denyReason) == a
    && Forward(a.status, b.status)
    && (a.status != Pending ==> b.decidedAt == a.decidedAt && b.denyReason == a.denyReason)
  }

  predicate CardOk(c: Card) {
    (c.decidedAt.Some? <==> c.status != Pending) && (c.denyReason.Some? <==> c.status == Denied)
  }

  predicate CardsOk(cards: Cards) {
    forall id :: id in cards ==> CardOk(cards[id])
  }

  lemma StepOk(cards: Cards, op: Op)
    requires CardsOk(cards) && FreshIn(cards, op)
    ensures CardsOk(Step(cards, op))
  {
  }

  lemma StepEvolves(cards: Cards, op: Op, id: string)
    requires CardsOk(cards) && FreshIn(cards, op) && id in cards
    ensures id in Step(cards, op) && Evolves(cards[id], Step(cards, op)[id])
  {
  }

  lemma EvolvesTransitive(a: Card, b: Card, c: Card)
    requires Evolves(a, b) && Evolves(b, c)
    ensures Evolves(a, c)
  {
  }

  lemma {:induction false} RunOk(ops: seq<Op>)
    requires Fresh(ops)
    ensures CardsOk(Run(ops))
  {
    if ops != [] {
      var before := ops[..|ops| - 1];
      RunOk(before);
      StepOk(Run(before), ops[|ops| - 1]);
    }
  }

  lemma {:induction false} FreshPrefix(ops: seq<Op>, n: nat)
    requires Fresh(ops) && n <= |ops|
    ensures Fresh(ops[..n])
  {
    if n == |ops| {
      assert ops[..n] == ops;
    } else {
      FreshPrefix(ops[..|ops| - 1], n);
      assert ops[..|ops| - 1][..n] == ops[..n];
    }
  }

  /** The step at position `n` of a run. */
  lemma FreshAt(ops: seq<Op>, n: nat)
    requires Fresh(ops) && n < |ops|
    ensures Fresh(ops[..n]) && FreshIn(Run(ops[..n]), ops[n]) && Run(ops[..n + 1]) == Step(Run(ops[..n]), ops[n])
  {
    FreshPrefix(ops, n + 1);
    assert ops[..n + 1][..n] == ops[..n] && ops[..n + 1][n] == ops[n];
  }

  /** THE LIFE OF A CARD: over every run with fresh ids, a card that exists at some point
      exists at every later point under the same key, its status only moves forward, and its
      decision is stamped exactly once, with the time set iff it is no longer pending. */
  lemma {:induction false} CardsEvolve(ops: seq<Op>, n: nat, id: string)
    requires Fresh(ops) && n <= |ops| && id in Run(ops[..n])
    ensures id in Run(ops) && Evolves(Run(ops[..n])[id], Run(ops)[id]) && CardOk(Run(ops)[id])
    decreases |ops| - n
  {
    RunOk(ops);
    if n == |ops| {
      assert ops[..n] == ops;
    } else {
      FreshAt(ops, n);
      RunOk(ops[..n]);
      StepEvolves(Run(ops[..n]), ops[n], id);
      CardsEvolve(ops, n + 1, id);
      EvolvesTransitive(Run(ops[..n])[id], Run(ops[..n + 1])[id], Run(ops)[id]);
    }
  }

  // ---------------------------------------------------------------- approvals are conserved

  /** The cards of a key whose call was granted: approved, or approved and since used. */
  ghost function Granted(cards: Cards, key: Key): set<string> {
    set id | id in cards && IsGranted(cards[id], key)
  }

  ghost function ConsumedOf(cards: Cards, key: Key): set<string> {
    set id | id in cards && KeyOf(cards[id]) == key && cards[id].status == Consumed
  }

  /** This operation approves a card of the key. */
  predicate Approves(cards: Cards, op: Op, key: Key) {
    && op.Settle? && op.decision.Approve?
    && Decide(cards, op.id, op.decision, op.at).Ok? && KeyOf(cards[op.id]) == key
  }

  function Approvals(ops: seq<Op>, key: Key): nat {
    if ops == [] then 0
    else
      Approvals(ops[..|ops| - 1], key)
      + if Approves(Run(ops[..|ops| - 1]), ops[|ops| - 1], key) then 1 else 0
  }

  /** The card is one that was granted a call of this key. */
  predicate IsGranted(card: Card, key: Key) {
    KeyOf(card) == key && card.status in {Approved, Consumed}
  }

  /** An operation changes at most the card it names. */
  lemma StepFrame(cards: Cards, op: Op, id: string)
    requires id != op.id
    ensures id in Step(cards, op) <==> id in cards
    ensures id in cards ==> Step(cards, op)[id] == cards[id]
  {
  }

  /** The card it names becomes granted by an approval and by nothing else. */
  lemma StepGrants(cards: Cards, op: Op, key: Key)
    requires FreshIn(cards, op)
    ensures
      var was := op.id in cards && IsGranted(cards[op.id], key);
      var now := op.id in Step(cards, op) && IsGranted(Step(cards, op)[op.id], key);
      if Approves(cards, op, key) then !was && now else was == now
  {
  }

  lemma GrantedStep(cards: Cards, op: Op, key: Key)
    requires FreshIn(cards, op)
    ensures |Granted(Step(cards, op), key)| == |Granted(cards, key)| + if Approves(cards, op, key) then 1 else 0
  {
    var before, after := Granted(cards, key), Granted(Step(cards, op), key);
    StepGrants(cards, op, key);
    forall id | id != op.id ensures id in after <==> id in before { StepFrame(cards, op, id); }
    OneMore(before, after, op.id);
  }

  /** Sets that differ at most in `x`. */
  lemma OneMore(before: set<string>, after: set<string>, x: string)
    requires forall id :: id != x ==> (id in after <==> id in before)
    requires x in before ==> x in after
    ensures |after| == |before| + if x in after && x !in before then 1 else 0
  {
    if x in after && x !in before {
      assert after == before + {x};
    } else {
      assert after == before;
    }
  }

  /** The granted cards of a key are exactly as many as the successful approvals of that key, so
      cards consumed never outnumber approvals. */
  lemma {:induction false} ApprovalsConserved(ops: seq<Op>, key: Key)
    requires Fresh(ops)
    ensures |Granted(Run(ops), key)| == Approvals(ops, key)
    ensures |ConsumedOf(Run(ops), key)| <= Approvals(ops, key)
  {
    if ops == [] {
      assert Granted(Run(ops), key) == {} && ConsumedOf(Run(ops), key) == {};
    } else {
      var n := |ops| - 1;
      ApprovalsConserved(ops[..n], key);
      GrantedStep(Run(ops[..n]), ops[n], key);
      Subset(ConsumedOf(Run(ops), key), Granted(Run(ops), key));
    }
  }

  lemma {:induction false} Subset(a: set<string>, b: set<string>)
    requires a <= b
    ensures |a| <= |b|
  {
    if a != {} {
      var x :| x in a;
      Subset(a - {x}, b - {x});
    }
  }

  // ---------------------------------------------------------------- one open card per key

  /** Callers propose only when `FindMatching` finds nothing. */
  predicate Polite(cards: Cards, op: Op) {
    op.Propose? ==> forall id :: id in cards ==> !Matches(cards[id], KeyOf(op.card))
  }

  predicate AtMostOneOpen(cards: Cards) {
    forall a, b :: a in cards && b in cards && a != b && KeyOf(cards[a]) == KeyOf(cards[b]) ==>
      cards[a].status == Consumed || cards[b].status == Consumed
  }

  lemma OneOpenStep(cards: Cards, op: Op)
    requires AtMostOneOpen(cards) && FreshIn(cards, op) && Polite(cards, op)
    ensures AtMostOneOpen(Step(cards, op))
  {
    var after := Step(cards, op);
    forall a, b | a in after && b in after && a != b && KeyOf(after[a]) == KeyOf(after[b])
      ensures after[a].status == Consumed || after[b].status == Consumed
    {
      if op.Propose? && a == op.id {
        assert b in cards && !Matches(cards[b], KeyOf(op.card));
      } else if op.Propose? && b == op.id {
        assert a in cards && !Matches(cards[a], KeyOf(op.card));
      } else {
        assert a in cards && b in cards;
        assert KeyOf(after[a]) == KeyOf(cards[a]) && KeyOf(after[b]) == KeyOf(cards[b]);
      }
    }
  }

  /** Every proposal of the run is polite. */
  predicate AllPolite(ops: seq<Op>) {
    ops == [] || (AllPolite(ops[..|ops| - 1]) && Polite(Run(ops[..|ops| - 1]), ops[|ops| - 1]))
  }

  /** If callers propose only when nothing matches, every key has at most one card that is
      not consumed. */
  lemma {:induction false} OneOpenCardPerKey(ops: seq<Op>)
    requires Fresh(ops) && AllPolite(ops)
    ensures AtMostOneOpen(Run(ops))
  {
    if ops != [] {
      var before := ops[..|ops| - 1];
      OneOpenCardPerKey(before);
      OneOpenStep(Run(before), ops[|ops| - 1]);
    }
  }

  // ---------------------------------------------------------------- the gate

  datatype GateResult = LetThrough | ApprovalRejected(id: string) | ApprovalRequired(id: string) | Failed

  /** An operator settles a card, or a governed call reaches the gate. */
  datatype GateEvent =
    | Settled(id: string, decision: Decision, at: u64)
    | Called(key: Key, pick: Option<string>, id: string, capability: string, reason: string, at: u64)

  /** The lookup finds a matching card if there is one, and proposed ids are fresh. */
  predicate Proper(cards: Cards, e: GateEvent) {
    e.Called? ==>
      if e.pick.Some? then e.pick.value in cards && Matches(cards[e.pick.value], e.key)
      else e.id !in cards && forall id :: id in cards ==> !Matches(cards[id], e.key)
  }

  /** What the event does to the store, if anything. */
  function OpOf(cards: Cards, e: GateEvent): Option<Op>
    requires Proper(cards, e)
  {
    match e
    case Settled(id, decision, at) => Some(Settle(id, decision, at))
    case Called(key, Some(pick), _, _, _, _) => if cards[pick].status == Approved then Some(Use(pick)) else None
    case Called(key, None, id, capability, reason, at) => Some(Propose(id, NewCard(key, capability, reason, at)))
  }

  function After(cards: Cards, e: GateEvent): Cards
    requires Proper(cards, e)
  {
    var op := OpOf(cards, e);
    if op.Some? then Step(cards, op.value) else cards
  }

  /** The event is a call of this key that the gate lets through. */
  predicate LetsThrough(cards: Cards, e: GateEvent, key: Key)
    requires Proper(cards, e)
  {
    && e.Called? && e.key == key && e.pick.Some?
    && cards[e.pick.value].status == Approved && ValidId(e.pick.value)
  }

  /** What the caller is told. */
  function Answer(cards: Cards, e: GateEvent): (r: GateResult)
    requires Proper(cards, e) && e.Called?
    ensures r == LetThrough <==> LetsThrough(cards, e, e.key)
    ensures r.ApprovalRejected? <==> e.pick.Some? && cards[e.pick.value].status == Denied
    ensures e.pick.Some? && cards[e.pick.value].status == Pending ==> r == ApprovalRequired(e.pick.value)
    ensures r.ApprovalRejected? ==> r.id == e.pick.value
    ensures e.pick.None? && ValidId(e.id) ==> r == ApprovalRequired(e.id)
  {
    match e.pick
    case None => if ValidId(e.id) then ApprovalRequired(e.id) else Failed
    case Some(pick) =>
      match cards[pick].status
      case Approved => if ValidId(pick) then LetThrough else Failed
      case Denied => ApprovalRejected(pick)
      case _ => ApprovalRequired(pick)
  }

  /** A call that finds no card stores a pending one that says what was asked, and the next call
      of the key finds it. */
  lemma ProposalStored(cards: Cards, e: GateEvent)
    requires Proper(cards, e) && e.Called? && e.pick.None? && ValidId(e.id)
    ensures
      var after := After(cards, e);
      && e.id in after && Matches(after[e.id], e.key) && after[e.id].status == Pending
      && after[e.id].capability == e.capability && after[e.id].reason == e.reason && after[e.id].createdAt == e.at
      && forall id :: id in cards ==> id in after && after[id] == cards[id]
  {
  }

  /** ASKED AGAIN: where each key has at most one open card, a call let through leaves no card of
      its key that a lookup would find, so the next call of the key proposes anew. */
  lemma AskedAgain(cards: Cards, e: GateEvent, key: Key)
    requires AtMostOneOpen(cards) && Proper(cards, e) && LetsThrough(cards, e, key)
    ensures forall id :: id in After(cards, e) ==> !Matches(After(cards, e)[id], key)
  {
    var pick, after := e.pick.value, After(cards, e);
    forall id | id in after ensures !Matches(after[id], key) {
      if id != pick { StepFrame(cards, Use(pick), id); }
    }
  }

  /** A run of the gate from an empty store, with the calls it let through and the approvals
      it saw. */
  datatype Gate = Gate(cards: Cards, through: nat, approvals: nat)

  function GateRun(events: seq<GateEvent>, key: Key): Option<Gate> {
    if events == [] then Some(Gate(map[], 0, 0))
    else
      var before :- GateRun(events[..|events| - 1], key);
      var e := events[|events| - 1];
      if !Proper(before.cards, e) then None
      else
        var op := OpOf(before.cards, e);
        Some(Gate(
          After(before.cards, e),
          before.through + if LetsThrough(before.cards, e, key) then 1 else 0,
          before.approvals + if op.Some? && Approves(before.cards, op.value, key) then 1 else 0))
  }

  predicate IsUsed(card: Card, key: Key) {
    KeyOf(card) == key && card.status == Consumed
  }

  /** A card becomes used by the gate letting its call through and by nothing else. */
  lemma GateUses(cards: Cards, e: GateEvent, key: Key)
    requires Proper(cards, e) && OpOf(cards, e).Some?
    ensures
      var op := OpOf(cards, e).value;
      var was := op.id in cards && IsUsed(cards[op.id], key);
      var now := op.id in Step(cards, op) && IsUsed(Step(cards, op)[op.id], key);
      if LetsThrough(cards, e, key) then !was && now else was == now
  {
  }

  lemma ConsumedStep(cards: Cards, e: GateEvent, key: Key)
    requires Proper(cards, e)
    ensures |ConsumedOf(After(cards, e), key)| == |ConsumedOf(cards, key)| + if LetsThrough(cards, e, key) then 1 else 0
  {
    if OpOf(cards, e).Some? {
      var op := OpOf(cards, e).value;
      var before, after := ConsumedOf(cards, key), ConsumedOf(Step(cards, op), key);
      GateUses(cards, e, key);
      forall id | id != op.id ensures id in after <==> id in before { StepFrame(cards, op, id); }
      OneMore(before, after, op.id);
    }
  }

  lemma GateFresh(cards: Cards, e: GateEvent)
    requires Proper(cards, e) && OpOf(cards, e).Some?
    ensures FreshIn(cards, OpOf(cards, e).value) && Polite(cards, OpOf(cards, e).value)
  {
  }

  /** ONE APPROVAL, ONE CALL: in every run of operator decisions and gated calls, the calls of a
      key that the gate let through are as many as its used cards and at most as many as its
      approvals, and each key has at most one card that is not used up. */
  lemma {:induction false} OneApprovalOneCall(events: seq<GateEvent>, key: Key)
    requires GateRun(events, key).Some?
    ensures
      var g := GateRun(events, key).value;
      && g.through == |ConsumedOf(g.cards, key)| && |Granted(g.cards, key)| == g.approvals
      && g.through <= g.approvals && AtMostOneOpen(g.cards)
  {
    if events == [] {
      assert ConsumedOf(map[], key) == {} && Granted(map[], key) == {};
    } else {
      var before := GateRun(events[..|events| - 1], key).value;
      var e := events[|events| - 1];
      OneApprovalOneCall(events[..|events| - 1], key);
      ConsumedStep(before.cards, e, key);
      if OpOf(before.cards, e).Some? {
        GateFresh(before.cards, e);
        GrantedStep(before.cards, OpOf(before.cards, e).value, key);
        OneOpenStep(before.cards, OpOf(before.cards, e).value);
      }
      UsedWereGranted(GateRun(events, key).value.cards, key);
    }
  }

  lemma UsedWereGranted(cards: Cards, key: Key)
    ensures |ConsumedOf(cards, key)| <= |Granted(cards, key)|
  {
    Subset(ConsumedOf(cards, key), Granted(cards, key));
  }
}
