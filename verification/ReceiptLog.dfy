/** The dashboard's view of the receipt log: lines that do not decode are skipped, then the
    parent hashes of what is left are checked. */
module ReceiptLog {
  import opened Basics
  import opened Text
  import opened HashChain

  datatype Body = Body(parentHash: Option<string>, provider: Option<string>, verb: string, issuedAt: u64, cents: u64)
  datatype Loaded = Loaded(jws: string, body: Body)
  datatype Verification = Verification(count: nat, valid: bool, errorIndex: Option<nat>)

  /** `decode_body`: base64url and JSON decoding of the payload segment. */
  type Decode = string -> Option<Body>

  function Load(decode: Decode, lines: seq<string>): seq<Loaded> {
    if lines == [] then []
    else
      var rest := Load(decode, lines[1..]);
      if Trim(lines[0]) == "" then rest
      else
        match decode(lines[0])
        case Some(body) => [Loaded(lines[0], body)] + rest
        case None => rest
  }

  function Parent(decode: Decode): ParentOf {
    jws => match decode(jws) case Some(body) => body.parentHash case None => None
  }

  predicate LinkOk(hash: Hash, chain: seq<Loaded>, i: nat)
    requires i < |chain|
  {
    chain[i].body.parentHash == if i == 0 then None else Some(hash(chain[i - 1].jws))
  }

  /** The first receipt whose parent hash is not the hash of its predecessor. */
  predicate FirstBreak(hash: Hash, chain: seq<Loaded>, k: nat) {
    && k <= |chain|
    && (forall i :: 0 <= i < k ==> LinkOk(hash, chain, i))
    && (k < |chain| ==> !LinkOk(hash, chain, k))
  }

  /** What reading the chain file gives. */
  datatype Reading = Missing | Failed | Contents(text: string)

  /** A missing file is an empty log, any other read error is passed on as `None`. */
  method LoadChain(decode: Decode, file: Reading) returns (r: Option<seq<Loaded>>)
    ensures r == match file
      case Missing => Some([])
      case Failed => None
      case Contents(text) => Some(Load(decode, Lines(text)))
  {
    if file.Missing? { return Some([]); }
    if file.Failed? { return None; }
    var chain: seq<Loaded> := [];
    var lines := Lines(file.text);
    for k := 0 to |lines|
      invariant Load(decode, lines) == chain + Load(decode, lines[k..])
    {
      assert lines[k..][1..] == lines[k + 1..];
      if Trim(lines[k]) != "" {
        var body := decode(lines[k]);
        if body.Some? {
          Associative(chain, [Loaded(lines[k], body.value)], Load(decode, lines[k + 1..]));
          chain := chain + [Loaded(lines[k], body.value)];
        }
      }
    }
    assert chain + [] == chain;
    return Some(chain);
  }

  method VerifyReceipts(hash: Hash, chain: seq<Loaded>) returns (v: Verification)
    ensures v.count == |chain|
    ensures v.valid <==> FirstBreak(hash, chain, |chain|)
    ensures v.errorIndex.Some? <==> !v.valid
    ensures !v.valid ==> v.errorIndex.value < |chain| && FirstBreak(hash, chain, v.errorIndex.value)
  {
    var prev: Option<Loaded> := None;
    for i := 0 to |chain|
      invariant prev == if i == 0 then None else Some(chain[i - 1])
      invariant forall j :: 0 <= j < i ==> LinkOk(hash, chain, j)
    {
      var expected := if prev.None? then None else Some(hash(prev.value.jws));
      if chain[i].body.parentHash != expected {
        assert !LinkOk(hash, chain, i);
        return Verification(|chain|, false, Some(i));
      }
      prev := Some(chain[i]);
    }
    return Verification(|chain|, true, None);
  }

  // ---------------------------------------------------------------- losing lines

  /** Every line is a receipt and each links to the one before. */
  predicate ValidLog(hash: Hash, decode: Decode, lines: seq<string>) {
    && (forall i :: 0 <= i < |lines| ==> Trim(lines[i]) != "" && decode(lines[i]).Some?)
    && Linked(hash, Parent(decode), lines)
  }

  predicate Lost(decode: Decode, line: string) {
    Trim(line) == "" || decode(line).None?
  }

  /** Some lines of the log no longer decode; the others are untouched. */
  predicate Damaged(decode: Decode, lines: seq<string>, after: seq<string>) {
    |after| == |lines| && forall i :: 0 <= i < |lines| ==> after[i] == lines[i] || Lost(decode, after[i])
  }

  lemma {:induction false} LoadAppend(decode: Decode, a: seq<string>, b: seq<string>)
    ensures Load(decode, a + b) == Load(decode, a) + Load(decode, b)
  {
    if a == [] {
      assert a + b == b;
    } else {
      LoadAppend(decode, a[1..], b);
      assert (a + b)[1..] == a[1..] + b;
      if decode(a[0]).Some? {
        Associative([Loaded(a[0], decode(a[0]).value)], Load(decode, a[1..]), Load(decode, b));
      }
    }
  }

  lemma {:induction false} LoadIntact(decode: Decode, lines: seq<string>)
    requires forall i :: 0 <= i < |lines| ==> Trim(lines[i]) != "" && decode(lines[i]).Some?
    ensures |Load(decode, lines)| == |lines|
    ensures forall i :: 0 <= i < |lines| ==> Load(decode, lines)[i] == Loaded(lines[i], decode(lines[i]).value)
  {
    if lines != [] { LoadIntact(decode, lines[1..]); }
  }

  /** The first receipt loaded from a damaged stretch is an undamaged line of it. */
  lemma {:induction false} FirstSurvivor(decode: Decode, after: seq<string>) returns (k: nat)
    requires Load(decode, after) != []
    ensures k < |after| && !Lost(decode, after[k])
    ensures Load(decode, after)[0] == Loaded(after[k], decode(after[k]).value)
  {
    if Lost(decode, after[0]) {
      k := FirstSurvivor(decode, after[1..]);
      k := k + 1;
    } else {
      k := 0;
    }
  }

  /** The first damaged line, or the length if there is none. */
  function Gap(decode: Decode, after: seq<string>): (g: nat)
    ensures g <= |after|
    ensures forall i :: 0 <= i < g ==> !Lost(decode, after[i])
    ensures g < |after| ==> Lost(decode, after[g])
  {
    if after == [] || Lost(decode, after[0]) then 0 else 1 + Gap(decode, after[1..])
  }

  /** LOSSES ARE DETECTED. Let lines of a valid log become unreadable and let `g` be the first
      of them. Either nothing after `g` survives, and then the survivors are the prefix of
      length `g` and verify; or verification of the survivors fails exactly at index `g`,
      unless two different lines of the log have the same hash. */
  lemma LossDetected(hash: Hash, decode: Decode, lines: seq<string>, after: seq<string>)
    requires ValidLog(hash, decode, lines) && Damaged(decode, lines, after)
    ensures
      var g := Gap(decode, after);
      var survivors := Load(decode, after);
      && |survivors| >= g && survivors[..g] <= Load(decode, lines)
      && (|survivors| == g ==> FirstBreak(hash, survivors, g))
      && (|survivors| > g ==> FirstBreak(hash, survivors, g) || Collision(hash, lines, lines))
  {
    var g := Gap(decode, after);
    var survivors := Load(decode, after);
    Survivors(decode, lines, after);
    forall i | 0 <= i < g
      ensures LinkOk(hash, survivors, i)
    {
      assert LinkedAt(hash, Parent(decode), lines, i);
    }
    if |survivors| > g {
      LossBreaks(hash, decode, lines, after);
    }
  }

  /** The first receipt after the gap does not link to the last one before it. */
  lemma LossBreaks(hash: Hash, decode: Decode, lines: seq<string>, after: seq<string>)
    requires ValidLog(hash, decode, lines) && Damaged(decode, lines, after)
    requires |Load(decode, after)| > Gap(decode, after)
    ensures !LinkOk(hash, Load(decode, after), Gap(decode, after)) || Collision(hash, lines, lines)
  {
    var g := Gap(decode, after);
    var survivors := Load(decode, after);
    Survivors(decode, lines, after);
    var j := FirstSurvivor(decode, after[g..]);
    var k := g + j;
    assert after[g..][j] == after[k] == lines[k] && k > g;
    SkippedLink(hash, Parent(decode), lines, g, k);
    assert survivors[g] == survivors[g..][0];
  }

  /** What is loaded from a damaged log: the lines before the gap, then what survives after. */
  lemma Survivors(decode: Decode, lines: seq<string>, after: seq<string>)
    requires forall i :: 0 <= i < |lines| ==> Trim(lines[i]) != "" && decode(lines[i]).Some?
    requires Damaged(decode, lines, after)
    ensures
      var g := Gap(decode, after);
      var survivors := Load(decode, after);
      && |survivors| >= g && survivors[..g] <= Load(decode, lines)
      && (forall i :: 0 <= i < g ==> survivors[i] == Loaded(lines[i], decode(lines[i]).value))
      && survivors[g..] == Load(decode, after[g..])
  {
    var g := Gap(decode, after);
    assert after == after[..g] + after[g..] && lines == lines[..g] + lines[g..];
    assert after[..g] == lines[..g];
    LoadAppend(decode, after[..g], after[g..]);
    LoadAppend(decode, lines[..g], lines[g..]);
    LoadIntact(decode, lines[..g]);
  }
}
