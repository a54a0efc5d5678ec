/** Rebuilding the live chat history from an append-only journal with rollbacks. */
module JournalReplay {
  import opened Basics

  datatype Message = User(content: string) | Assistant(content: string)

  /** `Other` stands for tool invocations, settled costs and invalidations, which carry no
      message and exclude nothing. */
  datatype Entry =
    | UserMessage(content: string)
    | AssistantMessage(content: string)
    | Checkpoint(id: string)
    | Rollback(target: string)
    | Other

  type Log = seq<Entry>

  function MessageOf(e: Entry): seq<Message> {
    match e
    case UserMessage(c) => [User(c)]
    case AssistantMessage(c) => [Assistant(c)]
    case _ => []
  }

  // ---------------------------------------------------------------- exclusion

  /** The position of the last checkpoint with this id among the first `n` entries. */
  function PositionIn(log: Log, n: nat, id: string): (p: Option<nat>)
    requires n <= |log|
    ensures p.Some? ==> p.value < n && log[p.value] == Checkpoint(id)
  {
    if n == 0 then None
    else if log[n - 1] == Checkpoint(id) then Some(n - 1)
    else PositionIn(log, n - 1, id)
  }

  /** The position of the last checkpoint with this id. */
  function Position(log: Log, id: string): (p: Option<nat>)
    ensures p.Some? ==> p.value < |log| && log[p.value] == Checkpoint(id)
  {
    PositionIn(log, |log|, id)
  }

  /** The rollback at `r` excludes position `i`: after its checkpoint, up to itself. */
  predicate Covers(log: Log, r: nat, i: nat)
    requires r < |log|
  {
    && log[r].Rollback?
    && var p := Position(log, log[r].target);
       p.Some? && p.value < i <= r
  }

  predicate Excluded(log: Log, i: nat) {
    exists r :: 0 <= r < |log| && Covers(log, r, i)
  }

  /** Excluded by one of the first `n` entries. */
  predicate ExcludedBy(log: Log, n: nat, i: nat)
    requires n <= |log|
  {
    exists r :: 0 <= r < n && Covers(log, r, i)
  }

  lemma ExcludedByNext(log: Log, n: nat, i: nat)
    requires n < |log|
    ensures ExcludedBy(log, n + 1, i) <==> ExcludedBy(log, n, i) || Covers(log, n, i)
  {
  }

  /** The messages of the live entries among the first `n`. */
  function LiveUpTo(log: Log, n: nat): seq<Message>
    requires n <= |log|
  {
    if n == 0 then [] else LiveUpTo(log, n - 1) + LiveAt(log, n - 1)
  }

  function LiveAt(log: Log, i: nat): seq<Message>
    requires i < |log|
  {
    if Excluded(log, i) then [] else MessageOf(log[i])
  }

  function History(log: Log): seq<Message> {
    LiveUpTo(log, |log|)
  }

  function Positions(log: Log, n: nat): map<string, nat>
    requires n <= |log|
  {
    if n == 0 then map[]
    else if log[n - 1].Checkpoint? then Positions(log, n - 1)[log[n - 1].id := n - 1]
    else Positions(log, n - 1)
  }

  lemma {:induction false} PositionsLookup(log: Log, n: nat, id: string)
    requires n <= |log|
    ensures PositionIn(log, n, id) == if id in Positions(log, n) then Some(Positions(log, n)[id]) else None
  {
    if n > 0 { PositionsLookup(log, n - 1, id); }
  }

  /** Set the slots after `from` up to and including `to`, if there are any. */
  method MarkBetween(excluded: array<bool>, from: nat, to: nat)
    requires to < excluded.Length
    modifies excluded
    ensures forall i :: 0 <= i < excluded.Length ==> (excluded[i] <==> old(excluded[i]) || from < i <= to)
  {
    var slot := from + 1;
    while slot < to + 1
      invariant from < slot && (slot <= to + 1 || slot == from + 1)
      invariant forall i :: 0 <= i < excluded.Length ==>
        (excluded[i] <==> old(excluded[i]) || (from < i < slot && i <= to))
    {
      excluded[slot] := true;
      slot := slot + 1;
    }
  }

  /** The message says what the entry says, in the role of the entry. */
  predicate Says(e: Entry, m: Message) {
    || (e.UserMessage? && m.User? && m.content == e.content)
    || (e.AssistantMessage? && m.Assistant? && m.content == e.content)
  }

  predicate CarriesMessage(e: Entry) {
    e.UserMessage? || e.AssistantMessage?
  }

  predicate Speaks(log: Log, i: nat)
    requires i < |log|
  {
    CarriesMessage(log[i]) && !Excluded(log, i)
  }

  ghost predicate Increasing(at: seq<nat>) {
    forall i, j :: 0 <= i < j < |at| ==> at[i] < at[j]
  }

  /** `at` lists, in order, exactly the live positions below `n` that carry a message, and the
      history says those entries one by one. */
  ghost predicate Transcribes(log: Log, n: nat, at: seq<nat>, history: seq<Message>)
    requires n <= |log|
  {
    && Increasing(at)
    && (forall i: nat :: i in at <==> i < n && Speaks(log, i))
    && |at| == |history|
    && (forall k :: 0 <= k < |at| ==> at[k] < |log| && Says(log[at[k]], history[k]))
  }

  function SpokenAt(log: Log, n: nat): seq<nat>
    requires n <= |log|
  {
    if n == 0 then [] else if Speaks(log, n - 1) then SpokenAt(log, n - 1) + [n - 1] else SpokenAt(log, n - 1)
  }

  lemma {:induction false} SpokenExactly(log: Log, n: nat, i: nat)
    requires n <= |log|
    ensures i in SpokenAt(log, n) <==> i < n && Speaks(log, i)
  {
    if n > 0 { SpokenExactly(log, n - 1, i); }
  }

  lemma {:induction false} SpokenIncreases(log: Log, n: nat)
    requires n <= |log|
    ensures Increasing(SpokenAt(log, n)) && forall k :: 0 <= k < |SpokenAt(log, n)| ==> SpokenAt(log, n)[k] < n
  {
    if n > 0 { SpokenIncreases(log, n - 1); }
  }

  lemma LiveMessage(log: Log, i: nat)
    requires i < |log|
    ensures if Speaks(log, i) then |LiveAt(log, i)| == 1 && Says(log[i], LiveAt(log, i)[0]) else LiveAt(log, i) == []
  {
  }

  lemma {:induction false} SpokenSays(log: Log, n: nat)
    requires n <= |log|
    ensures |SpokenAt(log, n)| == |LiveUpTo(log, n)|
    ensures forall k :: 0 <= k < |SpokenAt(log, n)| ==>
      SpokenAt(log, n)[k] < |log| && Says(log[SpokenAt(log, n)[k]], LiveUpTo(log, n)[k])
  {
    if n > 0 {
      SpokenSays(log, n - 1);
      LiveMessage(log, n - 1);
    }
  }

  /** THE HISTORY IS THE TRANSCRIPT of the live entries, for every log. */
  lemma HistoryTranscribes(log: Log, n: nat)
    requires n <= |log|
    ensures Transcribes(log, n, SpokenAt(log, n), LiveUpTo(log, n))
  {
    SpokenIncreases(log, n);
    SpokenSays(log, n);
    forall i: nat ensures i in SpokenAt(log, n) <==> i < n && Speaks(log, i) {
      SpokenExactly(log, n, i);
    }
  }

  lemma HistoryTranscribed(log: Log)
    ensures exists at :: Transcribes(log, |log|, at, History(log))
  {
    HistoryTranscribes(log, |log|);
    assert Transcribes(log, |log|, SpokenAt(log, |log|), History(log));
  }

  /** The journal reader: fill the position map, mark exclusion intervals, collect. */
  method JournalEntriesToHistory(log: Log) returns (history: seq<Message>)
    ensures history == History(log)
    ensures exists at :: Transcribes(log, |log|, at, history)
  {
    var positions: map<string, nat> := map[];
    for pos := 0 to |log|
      invariant positions == Positions(log, pos)
    {
      if log[pos].Checkpoint? {
        positions := positions[log[pos].id := pos];
      }
    }
    assert log[..|log|] == log;

    var excluded := new bool[|log|](i => false);
    for pos := 0 to |log|
      invariant forall i :: 0 <= i < |log| ==> (excluded[i] <==> ExcludedBy(log, pos, i))
    {
      ghost var was := excluded[..];
      if log[pos].Rollback? {
        PositionsLookup(log, |log|, log[pos].target);
        if log[pos].target in positions {
          var checkpoint := positions[log[pos].target];
          assert forall i :: 0 <= i < |log| ==> (Covers(log, pos, i) <==> checkpoint < i <= pos);
          MarkBetween(excluded, checkpoint, pos);
        } else {
          assert forall i :: 0 <= i < |log| ==> !Covers(log, pos, i);
        }
      } else {
        assert forall i :: 0 <= i < |log| ==> !Covers(log, pos, i);
      }
      forall i | 0 <= i < |log|
        ensures excluded[i] <==> ExcludedBy(log, pos + 1, i)
      {
        ExcludedByNext(log, pos, i);
        assert was[i] <==> ExcludedBy(log, pos, i);
      }
    }

    history := [];
    for pos := 0 to |log|
      invariant history == LiveUpTo(log, pos)
      invariant forall i :: 0 <= i < |log| ==> (excluded[i] <==> Excluded(log, i))
    {
      if excluded[pos] { continue; }
      history := history + MessageOf(log[pos]);
    }
    HistoryTranscribed(log);
  }

  // ---------------------------------------------------------------- appending to the log

  predicate DistinctCheckpoints(log: Log) {
    forall i, j :: 0 <= i < j < |log| && log[i].Checkpoint? && log[j].Checkpoint? ==> log[i].id != log[j].id
  }

  /** No checkpoint of the log has this id. */
  predicate Unused(log: Log, id: string) {
    forall i :: 0 <= i < |log| ==> log[i] != Checkpoint(id)
  }

  lemma {:induction false} PositionInNone(log: Log, n: nat, id: string)
    requires n <= |log|
    ensures PositionIn(log, n, id).None? <==> forall i :: 0 <= i < n ==> log[i] != Checkpoint(id)
  {
    if n > 0 { PositionInNone(log, n - 1, id); }
  }

  lemma PositionNone(log: Log, id: string)
    ensures Position(log, id).None? <==> Unused(log, id)
  {
    PositionInNone(log, |log|, id);
  }

  /** Only the entries before `n` matter. */
  lemma {:induction false} PositionInSame(a: Log, b: Log, n: nat, id: string)
    requires n <= |a| && n <= |b| && forall i :: 0 <= i < n ==> a[i] == b[i]
    ensures PositionIn(a, n, id) == PositionIn(b, n, id)
  {
    if n > 0 { PositionInSame(a, b, n - 1, id); }
  }

  lemma PositionAppend(log: Log, e: Entry, id: string)
    ensures Position(log + [e], id) == if e == Checkpoint(id) then Some(|log|) else Position(log, id)
  {
    PositionInSame(log + [e], log, |log|, id);
  }

  /** Whether the appended entry is a rollback that excludes position `i`. */
  predicate CutBy(log: Log, e: Entry, i: nat) {
    e.Rollback? && var p := Position(log, e.target); p.Some? && p.value < i <= |log|
  }

  /** A checkpoint that reuses an id takes the earlier rollbacks to that id out of effect; any
      other entry leaves the earlier rollbacks as they were. */
  lemma CoversAppend(log: Log, e: Entry, r: nat, i: nat)
    requires r < |log|
    ensures Covers(log + [e], r, i) <==> Covers(log, r, i) && !(e.Checkpoint? && log[r] == Rollback(e.id))
  {
    if log[r].Rollback? { PositionAppend(log, e, log[r].target); }
  }

  /** What is excluded after one more entry, for every log: what an earlier rollback still
      excludes, and what the entry itself cuts. */
  lemma ExcludedExactly(log: Log, e: Entry, i: nat)
    ensures Excluded(log + [e], i) <==>
      || (exists r :: 0 <= r < |log| && Covers(log, r, i) && !(e.Checkpoint? && log[r] == Rollback(e.id)))
      || CutBy(log, e, i)
  {
    var next := log + [e];
    forall r | 0 <= r < |log|
      ensures Covers(next, r, i) <==> Covers(log, r, i) && !(e.Checkpoint? && log[r] == Rollback(e.id))
    {
      CoversAppend(log, e, r, i);
    }
    if e.Rollback? { PositionAppend(log, e, e.target); }
    assert next[|log|] == e && (Covers(next, |log|, i) <==> CutBy(log, e, i));
  }

  /** Appending one entry with a fresh checkpoint id adds exactly that entry's own exclusions. */
  lemma ExcludedAppend(log: Log, e: Entry, i: nat)
    requires e.Checkpoint? ==> Unused(log, e.id)
    ensures Excluded(log + [e], i) <==> Excluded(log, i) || CutBy(log, e, i)
  {
    ExcludedExactly(log, e, i);
    if e.Checkpoint? { PositionNone(log, e.id); }
  }

  /** When an excluded entry comes back to life: exactly when the next entry is a checkpoint
      whose id is the target of every rollback that excludes it. */
  lemma RevivedIff(log: Log, e: Entry, i: nat)
    requires Excluded(log, i)
    ensures !Excluded(log + [e], i) <==>
      e.Checkpoint? && forall r :: 0 <= r < |log| && Covers(log, r, i) ==> log[r].target == e.id
  {
    ExcludedExactly(log, e, i);
  }

  /** An excluded entry is never revived, however the log goes on, as long as no later
      checkpoint reuses an id. */
  lemma {:induction false} NeverRevived(log: Log, more: Log, i: nat)
    requires DistinctCheckpoints(log + more) && Excluded(log, i)
    ensures Excluded(log + more, i)
    decreases |more|
  {
    if more == [] {
      assert log + more == log;
    } else {
      var e := more[0];
      assert (log + [e]) + more[1..] == log + more;
      if e.Checkpoint? {
        forall k | 0 <= k < |log| ensures log[k] != Checkpoint(e.id) {
          assert (log + more)[k] == log[k] && (log + more)[|log|] == e;
        }
      }
      ExcludedAppend(log, e, i);
      NeverRevived(log + [e], more[1..], i);
    }
  }

  /** Without distinct ids the promise fails: a second checkpoint with the same id moves the
      end of an old rollback's interval past it and revives what it had excluded. */
  lemma ReusedIdRevives()
    ensures
      var log := [Checkpoint("a"), UserMessage("m"), Rollback("a")];
      Excluded(log, 1) && !Excluded(log + [Checkpoint("a")], 1)
  {
    var log := [Checkpoint("a"), UserMessage("m"), Rollback("a")];
    assert Position(log, "a") == PositionIn(log, 2, "a") == PositionIn(log, 1, "a") == Some(0);
    assert Covers(log, 2, 1);
    PositionAppend(log, Checkpoint("a"), "a");
  }

  // ---------------------------------------------------------------- the snapshot machine

  datatype Snapshots = Snapshots(history: seq<Message>, saved: map<string, seq<Message>>)

  /** A checkpoint saves the history; a rollback to a known checkpoint restores it. */
  function SnapshotStep(s: Snapshots, e: Entry): Snapshots {
    match e
    case Checkpoint(id) => s.(saved := s.saved[id := s.history])
    case Rollback(t) => if t in s.saved then s.(history := s.saved[t]) else s
    case _ => s.(history := s.history + MessageOf(e))
  }

  function SnapshotRun(log: Log): Snapshots {
    if log == [] then Snapshots([], map[])
    else SnapshotStep(SnapshotRun(log[..|log| - 1]), log[|log| - 1])
  }

  /** Each rollback to an earlier checkpoint names one that is live at that point. */
  predicate RollbacksLive(log: Log) {
    forall r :: 0 <= r < |log| && log[r].Rollback? ==>
      var p := Position(log[..r], log[r].target); p.Some? ==> !Excluded(log[..r], p.value)
  }

  function Flatten(pieces: seq<seq<Message>>): seq<Message> {
    if pieces == [] then [] else Flatten(pieces[..|pieces| - 1]) + pieces[|pieces| - 1]
  }

  /** Dropping pieces shortens the whole, unless the pieces dropped were empty. */
  lemma {:induction false} FlattenThinned(a: seq<seq<Message>>, b: seq<seq<Message>>)
    requires |a| == |b| && forall i :: 0 <= i < |a| ==> a[i] == b[i] || a[i] == []
    ensures |Flatten(a)| <= |Flatten(b)| && (|Flatten(a)| == |Flatten(b)| <==> a == b)
  {
    if a != [] { FlattenThinned(a[..|a| - 1], b[..|b| - 1]); }
  }

  lemma FlattenSnoc(pieces: seq<seq<Message>>, x: seq<Message>)
    ensures Flatten(pieces + [x]) == Flatten(pieces) + x
  {
    assert (pieces + [x])[..|pieces|] == pieces;
  }

  function Pieces(log: Log, n: nat): (r: seq<seq<Message>>)
    requires n <= |log|
    ensures |r| == n
  {
    if n == 0 then [] else Pieces(log, n - 1) + [LiveAt(log, n - 1)]
  }

  lemma {:induction false} PieceAt(log: Log, n: nat, i: nat)
    requires i < n <= |log|
    ensures Pieces(log, n)[i] == LiveAt(log, i)
  {
    if i < n - 1 { PieceAt(log, n - 1, i); }
  }

  lemma {:induction false} LiveIsFlat(log: Log, n: nat)
    requires n <= |log|
    ensures LiveUpTo(log, n) == Flatten(Pieces(log, n))
  {
    if n > 0 {
      LiveIsFlat(log, n - 1);
      FlattenSnoc(Pieces(log, n - 1), LiveAt(log, n - 1));
    }
  }

  lemma LiveUpToAppend(log: Log, e: Entry, n: nat)
    requires n <= |log| && (e.Checkpoint? ==> Unused(log, e.id))
    requires forall i :: 0 <= i < n ==> !CutBy(log, e, i)
    ensures LiveUpTo(log + [e], n) == LiveUpTo(log, n)
  {
    forall i | 0 <= i < n ensures Pieces(log + [e], n)[i] == Pieces(log, n)[i] {
      LiveAtAppend(log, e, i);
      PieceAt(log, n, i);
      PieceAt(log + [e], n, i);
    }
    LiveIsFlat(log, n);
    LiveIsFlat(log + [e], n);
    assert Pieces(log + [e], n) == Pieces(log, n);
  }

  lemma LiveAtAppend(log: Log, e: Entry, i: nat)
    requires i < |log| && (e.Checkpoint? ==> Unused(log, e.id)) && !CutBy(log, e, i)
    ensures LiveAt(log + [e], i) == LiveAt(log, i)
  {
    ExcludedAppend(log, e, i);
  }

  /** Nothing is live where everything is cut. */
  lemma {:induction false} LiveUpToCut(log: Log, from: nat, n: nat)
    requires from <= n <= |log|
    requires forall i :: from <= i < n ==> Excluded(log, i)
    ensures LiveUpTo(log, n) == LiveUpTo(log, from)
  {
    if n > from {
      LiveUpToCut(log, from, n - 1);
      assert LiveAt(log, n - 1) == [];
    }
  }

  /** A rollback leaves what is live before its checkpoint. */
  lemma RollbackKeeps(log: Log, id: string)
    requires Position(log, id).Some?
    ensures History(log + [Rollback(id)]) == LiveUpTo(log, Position(log, id).value)
  {
    var e := Rollback(id);
    var next, p := log + [e], Position(log, id).value;
    forall i | p < i < |next| ensures Excluded(next, i) { RollbackCuts(log, id, i); }
    LiveUpToCut(next, p + 1, |next|);
    CheckpointIsSilent(next, p);
    LiveUpToAppend(log, e, p);
  }

  lemma RollbackCuts(log: Log, id: string, i: nat)
    requires Position(log, id).Some? && Position(log, id).value < i <= |log|
    ensures Excluded(log + [Rollback(id)], i)
  {
    ExcludedAppend(log, Rollback(id), i);
  }

  lemma CheckpointIsSilent(log: Log, p: nat)
    requires p < |log| && log[p].Checkpoint?
    ensures LiveUpTo(log, p + 1) == LiveUpTo(log, p)
  {
    assert LiveAt(log, p) == [];
  }

  ghost predicate SnapshotInvariant(log: Log, s: Snapshots) {
    && s.history == History(log)
    && (forall id :: id in s.saved <==> Position(log, id).Some?)
    && (forall id :: id in s.saved ==>
          var p := Position(log, id); p.Some? && (!Excluded(log, p.value) ==> s.saved[id] == LiveUpTo(log, p.value)))
  }

  lemma NewEntryNotExcluded(log: Log)
    ensures !Excluded(log, |log|)
  {
  }

  lemma SnapshotKeeps(log: Log, s: Snapshots, e: Entry)
    requires SnapshotInvariant(log, s)
    requires e.Checkpoint? ==> Unused(log, e.id)
    requires e.Rollback? ==> var p := Position(log, e.target); p.Some? ==> !Excluded(log, p.value)
    ensures SnapshotInvariant(log + [e], SnapshotStep(s, e))
  {
    var next, s' := log + [e], SnapshotStep(s, e);
    HistoryStep(log, s, e);
    forall id
      ensures id in s'.saved <==> Position(next, id).Some?
      ensures id in s'.saved && Position(next, id).Some? && !Excluded(next, Position(next, id).value) ==>
        s'.saved[id] == LiveUpTo(next, Position(next, id).value)
    {
      SavedStep(log, s, e, id);
    }
  }

  lemma HistoryStep(log: Log, s: Snapshots, e: Entry)
    requires SnapshotInvariant(log, s)
    requires e.Checkpoint? ==> Unused(log, e.id)
    requires e.Rollback? ==> var p := Position(log, e.target); p.Some? ==> !Excluded(log, p.value)
    ensures SnapshotStep(s, e).history == History(log + [e])
  {
    var next := log + [e];
    ExcludedAppend(log, e, |log|);
    NewEntryNotExcluded(log);
    if e.Rollback? && Position(log, e.target).Some? {
      RollbackKeeps(log, e.target);
    } else {
      LiveUpToAppend(log, e, |log|);
      assert next[|log|] == e;
      assert MessageOf(e) == [] ==> LiveUpTo(next, |log|) + [] == LiveUpTo(next, |log|);
    }
  }

  lemma SavedStep(log: Log, s: Snapshots, e: Entry, id: string)
    requires SnapshotInvariant(log, s)
    requires e.Checkpoint? ==> Unused(log, e.id)
    ensures
      var next, s' := log + [e], SnapshotStep(s, e);
      && (id in s'.saved <==> Position(next, id).Some?)
      && (id in s'.saved ==>
            var p := Position(next, id).value; !Excluded(next, p) ==> s'.saved[id] == LiveUpTo(next, p))
  {
    var next := log + [e];
    PositionAppend(log, e, id);
    var p := Position(next, id);
    if p.Some? {
      ExcludedAppend(log, e, p.value);
      if !Excluded(next, p.value) {
        LiveUpToAppend(log, e, p.value);
      }
    }
  }

  /** REPLAY REFINES SNAPSHOT RESTORE: for every log with distinct checkpoint ids whose
      rollbacks name checkpoints live at that point, the interval reader returns what a
      machine that restores saved histories would hold. */
  lemma {:induction false} ReplayIsSnapshotRestore(log: Log)
    requires DistinctCheckpoints(log) && RollbacksLive(log)
    ensures History(log) == SnapshotRun(log).history
  {
    SnapshotHolds(log);
  }

  lemma {:induction false} SnapshotHolds(log: Log)
    requires DistinctCheckpoints(log) && RollbacksLive(log)
    ensures SnapshotInvariant(log, SnapshotRun(log))
  {
    if log != [] {
      var n := |log| - 1;
      var before, e := log[..n], log[n];
      assert RollbacksLive(before) by {
        forall r | 0 <= r < n && before[r].Rollback?
          ensures var p := Position(before[..r], before[r].target); p.Some? ==> !Excluded(before[..r], p.value)
        {
          assert before[..r] == log[..r];
        }
      }
      SnapshotHolds(before);
      SnapshotKeeps(before, SnapshotRun(before), e);
      assert before + [e] == log;
    }
  }

  const DEAD_ROLLBACK: Log := [Checkpoint("a"), UserMessage("m"), Checkpoint("b"), Rollback("a"), Rollback("b")]

  lemma DeadRollbackSnapshot()
    ensures SnapshotRun(DEAD_ROLLBACK).history == [User("m")]
  {
    var log := DEAD_ROLLBACK;
    assert log[..4][..3] == log[..3] && log[..3][..2] == log[..2] && log[..2][..1] == log[..1] && log[..1][..0] == [];
    assert SnapshotRun(log[..1]) == Snapshots([], map["a" := []]);
    assert SnapshotRun(log[..2]) == Snapshots([User("m")], map["a" := []]);
    assert SnapshotRun(log[..3]) == Snapshots([User("m")], map["a" := [], "b" := [User("m")]]);
    assert SnapshotRun(log[..4]) == Snapshots([], map["a" := [], "b" := [User("m")]]);
  }

  lemma DeadRollbackHistory()
    ensures History(DEAD_ROLLBACK) == []
  {
    var log := DEAD_ROLLBACK;
    assert PositionIn(log, 2, "a") == PositionIn(log, 1, "a") == Some(0);
    assert Position(log, "a") == PositionIn(log, 4, "a") == PositionIn(log, 3, "a") == Some(0);
    assert Covers(log, 3, 1);
    assert LiveUpTo(log, 2) == [] && LiveUpTo(log, 3) == [] && LiveUpTo(log, 4) == [];
  }

  /** The liveness condition is needed: a rollback to a checkpoint that an earlier rollback
      already excluded does not bring back what was live at that checkpoint. */
  lemma DeadCheckpointIsNotRestored()
    ensures DistinctCheckpoints(DEAD_ROLLBACK)
    ensures History(DEAD_ROLLBACK) != SnapshotRun(DEAD_ROLLBACK).history
  {
    DeadRollbackSnapshot();
    DeadRollbackHistory();
  }

  // ---------------------------------------------------------------- the truncation machine

  /** The live positions and where each checkpoint stands. */
  datatype Truncation = Truncation(live: set<nat>, mark: map<string, nat>)

  /** A rollback to a known checkpoint keeps the live positions up to it. */
  function TruncateStep(t: Truncation, e: Entry, at: nat): Truncation {
    match e
    case Checkpoint(id) => Truncation(t.live + {at}, t.mark[id := at])
    case Rollback(id) =>
      if id in t.mark then t.(live := set p | p in t.live && p <= t.mark[id]) else t.(live := t.live + {at})
    case _ => t.(live := t.live + {at})
  }

  function TruncateRun(log: Log): Truncation {
    if log == [] then Truncation({}, map[])
    else TruncateStep(TruncateRun(log[..|log| - 1]), log[|log| - 1], |log| - 1)
  }

  /** Without the liveness condition the reader still truncates: its live entries are those
      of the machine that, at each rollback, keeps the positions up to the checkpoint. */
  lemma {:induction false} ReplayIsTruncation(log: Log, i: nat)
    requires DistinctCheckpoints(log)
    ensures i in TruncateRun(log).live <==> i < |log| && !Excluded(log, i)
  {
    if log != [] {
      var before, e := log[..|log| - 1], log[|log| - 1];
      ReplayIsTruncation(before, i);
      if e.Rollback? { TruncationMarks(before, e.target); }
      TruncationStep(before, e, TruncateRun(before), i);
      assert before + [e] == log;
    }
  }

  lemma TruncationStep(log: Log, e: Entry, t: Truncation, i: nat)
    requires e.Checkpoint? ==> Unused(log, e.id)
    requires i in t.live <==> i < |log| && !Excluded(log, i)
    requires e.Rollback? ==>
      Position(log, e.target) == if e.target in t.mark then Some(t.mark[e.target]) else None
    ensures i in TruncateStep(t, e, |log|).live <==> i <= |log| && !Excluded(log + [e], i)
  {
    ExcludedAppend(log, e, i);
    NewEntryNotExcluded(log);
  }

  /** The machine marks each checkpoint where it stands in the log. */
  lemma {:induction false} TruncationMarks(log: Log, id: string)
    ensures
      Position(log, id) == (if id in TruncateRun(log).mark then Some(TruncateRun(log).mark[id]) else None)
  {
    if log != [] {
      var before, e := log[..|log| - 1], log[|log| - 1];
      TruncationMarks(before, id);
      PositionAppend(before, e, id);
      assert before + [e] == log;
    }
  }

  // ---------------------------------------------------------------- one rollback, exactly

  /** Entry `i` carries a message that was live at position `p` and has been excluded since. */
  predicate LostAt(log: Log, p: nat, i: nat)
    requires i < p <= |log|
  {
    Excluded(log, i) && !Excluded(log[..p], i) && MessageOf(log[i]) != []
  }

  /** No message that was live at position `p` has been excluded since. */
  predicate NothingLost(log: Log, p: nat)
    requires p <= |log|
  {
    forall i :: 0 <= i < p ==> !LostAt(log, p, i)
  }

  lemma LiveAtThinned(log: Log, p: nat, i: nat)
    requires DistinctCheckpoints(log) && i < p <= |log|
    ensures LostAt(log, p, i) ==> LiveAt(log, i) == [] && LiveAt(log[..p], i) != []
    ensures !LostAt(log, p, i) ==> LiveAt(log, i) == LiveAt(log[..p], i)
  {
    assert log[..p] + log[p..] == log && log[..p][i] == log[i];
    if Excluded(log[..p], i) { NeverRevived(log[..p], log[p..], i); }
  }

  /** Later entries only thin out what was live at `p`, and not at all iff nothing was lost. */
  lemma LiveThinned(log: Log, p: nat)
    requires DistinctCheckpoints(log) && p <= |log|
    ensures LiveUpTo(log, p) == LiveUpTo(log[..p], p) <==> NothingLost(log, p)
  {
    var a, b := Pieces(log, p), Pieces(log[..p], p);
    LiveIsFlat(log, p);
    LiveIsFlat(log[..p], p);
    forall i | 0 <= i < p
      ensures a[i] == b[i] || a[i] == []
      ensures a[i] == b[i] <==> !LostAt(log, p, i)
    {
      LiveAtThinned(log, p, i);
      PieceAt(log, p, i);
      PieceAt(log[..p], p, i);
    }
    FlattenThinned(a, b);
  }

  /** A ROLLBACK RESTORES ITS CHECKPOINT iff no message live at the checkpoint has been
      excluded since, for every log with distinct checkpoint ids. */
  lemma RollbackRestoresIff(log: Log, id: string)
    requires DistinctCheckpoints(log) && Position(log, id).Some?
    ensures
      var p := Position(log, id).value;
      History(log + [Rollback(id)]) == History(log[..p]) <==> NothingLost(log, p)
  {
    var p := Position(log, id).value;
    RollbackKeeps(log, id);
    LiveThinned(log, p);
  }

  lemma {:induction false} PositionInShorter(log: Log, m: nat, n: nat, id: string)
    requires n <= m <= |log| && PositionIn(log, m, id).Some? && PositionIn(log, m, id).value < n
    ensures PositionIn(log, n, id) == PositionIn(log, m, id)
  {
    if n < m { PositionInShorter(log, m - 1, n, id); }
  }

  lemma PositionPrefix(log: Log, id: string, n: nat)
    requires n <= |log| && Position(log, id).Some? && Position(log, id).value < n
    ensures Position(log[..n], id) == Position(log, id)
  {
    PositionInShorter(log, |log|, n, id);
    PositionInSame(log[..n], log, n, id);
  }

  /** In particular a rollback to a checkpoint that is itself live always restores it. */
  lemma LiveCheckpointLosesNothing(log: Log, p: nat)
    requires p < |log| && !Excluded(log, p)
    ensures NothingLost(log, p)
  {
    forall i | 0 <= i < p && Excluded(log, i) ensures Excluded(log[..p], i) && !LostAt(log, p, i) {
      var r :| 0 <= r < |log| && Covers(log, r, i);
      assert !Covers(log, r, p);
      PositionPrefix(log, log[r].target, p);
      assert log[..p][r] == log[r] && Covers(log[..p], r, i);
    }
  }
}
