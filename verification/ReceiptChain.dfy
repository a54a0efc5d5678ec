/** The chain of signed execution receipts and its verifier. */
module ReceiptChain {
  import opened Basics
  import opened HashChain
  import opened ExecutionReceipt
  import CapToken

  /** What a compact JWS verifies to under a fixed key set. */
  type Verifier = string -> Option<Receipt>

  function SuiteVerifier(s: Suite): Verifier {
    jws => VerifyCompact(s, jws)
  }

  function SuiteHasher(s: Suite): Hash {
    jws => ReceiptHash(s, jws)
  }

  function ParentClaim(verify: Verifier): ParentOf {
    jws => match verify(jws) case Some(r) => r.parentHash case None => None
  }

  function Compacts(chain: seq<Signed>): seq<string> {
    seq(|chain|, i requires 0 <= i < |chain| => chain[i].jws)
  }

  /** Receipt `i` verifies, carries the hash of its predecessor and the first 16 characters
      of that hash as parent id; the first receipt carries neither. */
  predicate AcceptedAt(hash: Hash, verify: Verifier, chain: seq<Signed>, i: nat)
    requires i < |chain|
  {
    var claims := verify(chain[i].jws);
    && claims.Some?
    && if i == 0 then claims.value.parentHash.None? && claims.value.parentId.None?
       else
         var h := hash(chain[i - 1].jws);
         claims.value.parentHash == Some(h) && claims.value.parentId == Some(ShortId(h))
  }

  predicate Accepted(hash: Hash, verify: Verifier, chain: seq<Signed>) {
    forall i :: 0 <= i < |chain| ==> AcceptedAt(hash, verify, chain, i)
  }

  /** `Err(i)` names the first receipt that breaks the chain. */
  method VerifyErChain(hash: Hash, verify: Verifier, chain: seq<Signed>) returns (r: Result<(), nat>)
    ensures r.Ok? <==> Accepted(hash, verify, chain)
    ensures r.Err? ==>
      && r.error < |chain| && !AcceptedAt(hash, verify, chain, r.error)
      && forall j :: 0 <= j < r.error ==> AcceptedAt(hash, verify, chain, j)
  {
    var prev: Option<string> := None;
    for i := 0 to |chain|
      invariant prev == if i == 0 then None else Some(hash(chain[i - 1].jws))
      invariant forall j :: 0 <= j < i ==> AcceptedAt(hash, verify, chain, j)
    {
      var claims := verify(chain[i].jws);
      if claims.None? {
        assert !AcceptedAt(hash, verify, chain, i);
        return Err(i);
      }
      if claims.value.parentHash != prev {
        assert !AcceptedAt(hash, verify, chain, i);
        return Err(i);
      }
      var wantId: Option<string> := if prev.None? then None else Some(ShortId(prev.value));
      if claims.value.parentId != wantId {
        assert !AcceptedAt(hash, verify, chain, i);
        return Err(i);
      }
      prev := Some(hash(chain[i].jws));
    }
    return Ok(());
  }

  lemma AcceptedIsLinked(hash: Hash, verify: Verifier, chain: seq<Signed>)
    requires Accepted(hash, verify, chain)
    ensures Linked(hash, ParentClaim(verify), Compacts(chain))
  {
    forall i | 0 <= i < |chain|
      ensures LinkedAt(hash, ParentClaim(verify), Compacts(chain), i)
    {
      assert AcceptedAt(hash, verify, chain, i);
    }
  }

  /** Every receipt of an accepted chain but the first names its predecessor by the first 16
      characters of its hash; the first names none. */
  lemma AcceptedNamesParents(hash: Hash, verify: Verifier, chain: seq<Signed>, i: nat)
    requires Accepted(hash, verify, chain) && i < |chain| && forall x :: |hash(x)| == 64
    ensures verify(chain[i].jws).Some?
    ensures verify(chain[i].jws).value.parentId ==
      if i == 0 then None else Some(hash(chain[i - 1].jws)[..16])
  {
    assert AcceptedAt(hash, verify, chain, i);
  }

  /** The receipt stored beside each JWS is the one the JWS verifies to; every value built
      by signing has this. */
  predicate Consistent(verify: Verifier, chain: seq<Signed>) {
    forall i :: 0 <= i < |chain| ==> verify(chain[i].jws) == Some(chain[i].receipt)
  }

  /** Accepted chains that end in the same JWS have equal length and equal receipts at every
      index, unless two different JWSs of theirs have the same hash. */
  lemma ChainFixedByTail(hash: Hash, verify: Verifier, a: seq<Signed>, b: seq<Signed>)
    requires Accepted(hash, verify, a) && Accepted(hash, verify, b)
    requires Consistent(verify, a) && Consistent(verify, b)
    requires a != [] && b != [] && a[|a| - 1].jws == b[|b| - 1].jws
    ensures a == b || Collision(hash, Compacts(a), Compacts(b))
  {
    AcceptedIsLinked(hash, verify, a);
    AcceptedIsLinked(hash, verify, b);
    TailFixesChain(hash, ParentClaim(verify), Compacts(a), Compacts(b));
    if Compacts(a) == Compacts(b) {
      assert |a| == |Compacts(a)| == |b|;
      forall i | 0 <= i < |a| ensures a[i] == b[i] {
        assert Compacts(a)[i] == Compacts(b)[i];
      }
    }
  }

  /** No JWS occurs twice in an accepted chain. */
  lemma ChainHasNoRepeats(hash: Hash, verify: Verifier, chain: seq<Signed>, i: nat, j: nat)
    requires Accepted(hash, verify, chain) && i < j < |chain|
    ensures chain[i].jws != chain[j].jws || Collision(hash, Compacts(chain), Compacts(chain))
  {
    AcceptedIsLinked(hash, verify, chain);
    NoRepeats(hash, ParentClaim(verify), Compacts(chain), i, j);
  }

  // ---------------------------------------------------------------- growing a chain

  datatype Event = Event(claims: CapToken.Claims, call: Call, outcome: Outcome, step: Step)

  function Last(chain: seq<Signed>): Option<Signed> {
    if chain == [] then None else Some(chain[|chain| - 1])
  }

  /** Project with the last receipt as parent, sign, append; a rejected step appends nothing. */
  function Append(s: Suite, kid: string, chain: seq<Signed>, e: Event): seq<Signed> {
    match Project(s, e.claims, e.call, e.outcome, e.step.(parent := Last(chain)))
    case Some(r) => chain + [Sign(s, r, kid)]
    case None => chain
  }

  function Grow(s: Suite, kid: string, events: seq<Event>): seq<Signed>
    decreases |events|
  {
    if events == [] then [] else Append(s, kid, Grow(s, kid, events[..|events| - 1]), events[|events| - 1])
  }

  lemma AppendAccepted(hash: Hash, verify: Verifier, chain: seq<Signed>, next: Signed)
    requires Accepted(hash, verify, chain)
    requires AcceptedAt(hash, verify, chain + [next], |chain|)
    ensures Accepted(hash, verify, chain + [next])
  {
    forall i | 0 <= i < |chain|
      ensures AcceptedAt(hash, verify, chain + [next], i)
    {
      assert AcceptedAt(hash, verify, chain, i);
    }
  }

  /** A projected receipt carries its parent's hash and the id cut from it. */
  lemma ProjectedLinks(s: Suite, e: Event, parent: Option<Signed>)
    requires Project(s, e.claims, e.call, e.outcome, e.step.(parent := parent)).Some?
    ensures
      var r := Project(s, e.claims, e.call, e.outcome, e.step.(parent := parent)).value;
      if parent.None? then r.parentHash.None? && r.parentId.None?
      else
        var h := ReceiptHash(s, parent.value.jws);
        r.parentHash == Some(h) && r.parentId == Some(ShortId(h)) && r.parentId == Some(h[..16])
  {
  }

  /** Every chain grown by projecting onto the last receipt and signing is accepted. */
  lemma {:induction false} GrownChainsAccepted(s: Suite, kid: string, events: seq<Event>)
    requires Sound(s, kid)
    ensures
      var chain := Grow(s, kid, events);
      Accepted(SuiteHasher(s), SuiteVerifier(s), chain) && Consistent(SuiteVerifier(s), chain)
    decreases |events|
  {
    if events != [] {
      var before, e := events[..|events| - 1], events[|events| - 1];
      GrownChainsAccepted(s, kid, before);
      var chain := Grow(s, kid, before);
      var r := Project(s, e.claims, e.call, e.outcome, e.step.(parent := Last(chain)));
      if r.Some? {
        var next := Sign(s, r.value, kid);
        SignedVerifies(s, r.value, kid);
        ProjectedLinks(s, e, Last(chain));
        assert SuiteVerifier(s)(next.jws) == Some(r.value);
        AppendAccepted(SuiteHasher(s), SuiteVerifier(s), chain, next);
      }
    }
  }
}
