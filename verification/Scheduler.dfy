/** The proactive scheduler: its two stores and what a run of ticks records. */
module Scheduler {
  import opened Basics
  import opened Text

  /** UTC calendar fields; `rest` is what lies below the minute. */
  datatype DateTime = DateTime(year: int, month: int, day: int, hour: int, minute: int, rest: int)

  predicate NotAfter(a: DateTime, b: DateTime) {
    || a.year < b.year
    || (a.year == b.year && (a.month < b.month
    || (a.month == b.month && (a.day < b.day
    || (a.day == b.day && (a.hour < b.hour
    || (a.hour == b.hour && (a.minute < b.minute
    || (a.minute == b.minute && a.rest <= b.rest)))))))))
  }

  predicate SameCronMinute(a: DateTime, b: DateTime) {
    a.year == b.year && a.month == b.month && a.day == b.day && a.hour == b.hour && a.minute == b.minute
  }

  /** Times are totally ordered. */
  lemma NotAfterOrder(a: DateTime, b: DateTime, c: DateTime)
    ensures NotAfter(a, b) || NotAfter(b, a)
    ensures NotAfter(a, b) && NotAfter(b, a) ==> a == b
    ensures NotAfter(a, b) && NotAfter(b, c) ==> NotAfter(a, c)
  {
  }

  /** The two times lie in different calendar minutes. */
  predicate MinutesDiffer(a: DateTime, b: DateTime) {
    a.minute != b.minute || a.hour != b.hour || a.day != b.day || a.month != b.month || a.year != b.year
  }

  /** Two times are in one cron minute iff they are equal but for what lies below the minute. */
  lemma SameMinuteIff(a: DateTime, b: DateTime)
    ensures SameCronMinute(a, b) <==> a == b.(rest := a.rest)
    ensures SameCronMinute(a, b) <==> !MinutesDiffer(a, b)
  {
  }

  datatype Cost = Cost(tokensIn: u64, tokensOut: u64, cents: u64, wallMs: u64, attention: u64)
  const ZERO := Cost(0, 0, 0, 0, 0)

  datatype Status = Enabled | Paused | Completed

  datatype Schedule = Schedule(
    id: string, name: string, expression: string, prompt: string, budget: Cost,
    attenuations: seq<string>, status: Status, lastFire: Option<DateTime>, fireCount: u64)

  datatype Error = NotFound | InvalidSchedule

  predicate Valid(s: Schedule) {
    Trim(s.name) != "" && Trim(s.prompt) != "" && s.attenuations != [] && s.budget != ZERO
  }

  /** `CronExpression::is_due` */
  type Cron = (string, DateTime) -> bool

  predicate IsDue(cron: Cron, s: Schedule, now: DateTime) {
    && s.status == Enabled && cron(s.expression, now)
    && !(s.lastFire.Some? && SameCronMinute(s.lastFire.value, now))
  }

  /** WHEN A SCHEDULE IS DUE: enabled, matching, and not fired before in this minute. */
  lemma DueIff(cron: Cron, s: Schedule, now: DateTime)
    ensures IsDue(cron, s, now) <==>
      && s.status.Enabled? && cron(s.expression, now)
      && (s.lastFire.None? || MinutesDiffer(s.lastFire.value, now))
  {
  }

  /** WHEN A SCHEDULE IS REFUSED: a blank name or prompt, no attenuation, or a budget that covers
      nothing. */
  lemma RefusedIff(s: Schedule)
    ensures !Valid(s) <==>
      || Blank(s.name) || Blank(s.prompt) || |s.attenuations| == 0
      || (&& s.budget.tokensIn == 0 && s.budget.tokensOut == 0 && s.budget.cents == 0
          && s.budget.wallMs == 0 && s.budget.attention == 0)
  {
    TrimBlank(s.name);
    TrimBlank(s.prompt);
  }

  function RecordSuccess(s: Schedule, now: DateTime): Schedule {
    s.(lastFire := Some(now), fireCount := Sat(s.fireCount + 1))
  }

  // ---------------------------------------------------------------- the two stores

  datatype Op = Upsert(schedule: Schedule) | Remove(id: string) | Record(id: string, at: DateTime)

  /** Recording returns the updated schedule, the other operations nothing. */
  type Outcome = Result<Option<Schedule>, Error>

  /** The in-memory store: a map by id. */
  function MapStep(m: map<string, Schedule>, op: Op): (map<string, Schedule>, Outcome) {
    match op
    case Upsert(s) => if Valid(s) then (m[s.id := s], Ok(None)) else (m, Err(InvalidSchedule))
    case Remove(id) => if id in m then (m - {id}, Ok(None)) else (m, Err(NotFound))
    case Record(id, at) =>
      if id !in m then (m, Err(NotFound))
      else
        var updated := RecordSuccess(m[id], at);
        (m[id := updated], Ok(Some(updated)))
  }

  function Find(list: seq<Schedule>, id: string): (k: nat)
    ensures k <= |list| && (k < |list| ==> list[k].id == id)
    ensures forall i :: 0 <= i < k ==> list[i].id != id
  {
    if list == [] || list[0].id == id then 0 else 1 + Find(list[1..], id)
  }

  function Without(list: seq<Schedule>, id: string): seq<Schedule> {
    if list == [] then []
    else (if list[0].id == id then [] else [list[0]]) + Without(list[1..], id)
  }

  lemma WithoutStep(list: seq<Schedule>, id: string, k: nat, kept: seq<Schedule>)
    requires k < |list|
    ensures kept + Without(list[k..], id) ==
      (if list[k].id == id then kept else kept + [list[k]]) + Without(list[k + 1..], id)
  {
    assert list[k..][0] == list[k] && list[k..][1..] == list[k + 1..];
    if list[k].id != id { Associative(kept, [list[k]], Without(list[k + 1..], id)); }
  }

  /** The file store: read the list, change it, write it back. */
  function FileStep(list: seq<Schedule>, op: Op): (seq<Schedule>, Outcome) {
    match op
    case Upsert(s) =>
      if !Valid(s) then (list, Err(InvalidSchedule))
      else
        var k := Find(list, s.id);
        if k < |list| then (list[k := s], Ok(None)) else (list + [s], Ok(None))
    case Remove(id) =>
      var kept := Without(list, id);
      if |kept| == |list| then (list, Err(NotFound)) else (kept, Ok(None))
    case Record(id, at) =>
      var k := Find(list, id);
      if k == |list| then (list, Err(NotFound))
      else
        var updated := RecordSuccess(list[k], at);
        (list[k := updated], Ok(Some(updated)))
  }

  class FileScheduleStore {
    var file: seq<Schedule>

    constructor ()
      ensures file == []
    { file := []; }

    method UpsertSchedule(s: Schedule) returns (r: Outcome)
      modifies this
      ensures (file, r) == FileStep(old(file), Upsert(s))
    {
      if !Valid(s) { return Err(InvalidSchedule); }
      var schedules := file;
      var k := Search(schedules, s.id);
      if k < |schedules| {
        schedules := schedules[k := s];
      } else {
        schedules := schedules + [s];
      }
      file := schedules;
      return Ok(None);
    }

    method RemoveSchedule(id: string) returns (r: Outcome)
      modifies this
      ensures (file, r) == FileStep(old(file), Remove(id))
    {
      var schedules := [];
      assert file[0..] == file;
      for k := 0 to |file|
        invariant unchanged(this)
        invariant Without(file, id) == schedules + Without(file[k..], id)
      {
        WithoutStep(file, id, k, schedules);
        if file[k].id != id { schedules := schedules + [file[k]]; }
      }
      assert schedules + [] == schedules;
      if |schedules| == |file| { return Err(NotFound); }
      file := schedules;
      return Ok(None);
    }

    method RecordSuccessfulFire(id: string, at: DateTime) returns (r: Outcome)
      modifies this
      ensures (file, r) == FileStep(old(file), Record(id, at))
    {
      var schedules := file;
      var k := Search(schedules, id);
      if k == |schedules| { return Err(NotFound); }
      var updated := RecordSuccess(schedules[k], at);
      file := schedules[k := updated];
      return Ok(Some(updated));
    }
  }

  /** The position of the first schedule with this id, or the end. */
  method Search(list: seq<Schedule>, id: string) returns (k: nat)
    ensures k == Find(list, id)
  {
    k := 0;
    while k < |list| && list[k].id != id
      invariant k <= |list| && forall i :: 0 <= i < k ==> list[i].id != id
    {
      k := k + 1;
    }
  }

  predicate UniqueIds(list: seq<Schedule>) {
    forall i, j :: 0 <= i < j < |list| ==> list[i].id != list[j].id
  }

  predicate AllValid(list: seq<Schedule>) {
    forall i :: 0 <= i < |list| ==> Valid(list[i])
  }

  predicate HasId(list: seq<Schedule>, id: string) {
    exists i :: 0 <= i < |list| && list[i].id == id
  }

  /** The list holds exactly the map's schedules, each once. */
  predicate Represents(list: seq<Schedule>, m: map<string, Schedule>) {
    && UniqueIds(list)
    && (forall i :: 0 <= i < |list| ==> list[i].id in m && m[list[i].id] == list[i])
    && (forall id :: id in m ==> HasId(list, id))
  }

  lemma FindIffPresent(list: seq<Schedule>, m: map<string, Schedule>, id: string)
    requires Represents(list, m)
    ensures Find(list, id) < |list| <==> id in m
    ensures id in m ==> list[Find(list, id)] == m[id]
  {
    if id in m { assert HasId(list, id); }
  }

  lemma ReplaceRepresents(list: seq<Schedule>, m: map<string, Schedule>, k: nat, s: Schedule)
    requires Represents(list, m) && k < |list| && list[k].id == s.id
    ensures Represents(list[k := s], m[s.id := s])
  {
    var next, m' := list[k := s], m[s.id := s];
    assert forall i :: 0 <= i < |list| ==> next[i].id == list[i].id;
    forall id | id in m' ensures HasId(next, id) {
      var i :| 0 <= i < |list| && list[i].id == id;
      assert next[i].id == id;
    }
    forall i | 0 <= i < |next| ensures next[i].id in m' && m'[next[i].id] == next[i] {
      if i != k { assert list[i].id != list[k].id; }
    }
  }

  lemma PushRepresents(list: seq<Schedule>, m: map<string, Schedule>, s: Schedule)
    requires Represents(list, m) && s.id !in m
    ensures Represents(list + [s], m[s.id := s])
  {
    var next, m' := list + [s], m[s.id := s];
    assert forall i :: 0 <= i < |list| ==> next[i] == list[i] && list[i].id != s.id;
    forall id | id in m' ensures HasId(next, id) {
      if id == s.id {
        assert next[|list|].id == id;
      } else {
        var i :| 0 <= i < |list| && list[i].id == id;
        assert next[i].id == id;
      }
    }
  }

  lemma {:induction false} WithoutMembers(list: seq<Schedule>, id: string)
    ensures forall s :: s in Without(list, id) <==> s in list && s.id != id
    ensures |Without(list, id)| <= |list|
    ensures |Without(list, id)| == |list| <==> !HasId(list, id)
  {
    if list != [] {
      var rest := list[1..];
      WithoutMembers(rest, id);
      assert list == [list[0]] + rest;
      assert HasId(list, id) <==> list[0].id == id || HasId(rest, id) by {
        if i :| 0 <= i < |rest| && rest[i].id == id { assert list[i + 1].id == id; }
        if i :| 0 < i < |list| && list[i].id == id { assert rest[i - 1].id == id; }
      }
    }
  }

  lemma {:induction false} WithoutUnique(list: seq<Schedule>, id: string)
    requires UniqueIds(list)
    ensures UniqueIds(Without(list, id))
  {
    if list != [] {
      WithoutUnique(list[1..], id);
      WithoutMembers(list[1..], id);
      var rest := Without(list[1..], id);
      forall j | 0 <= j < |rest| ensures rest[j].id != list[0].id {
        assert rest[j] in list[1..];
      }
    }
  }

  lemma RemoveRepresents(list: seq<Schedule>, m: map<string, Schedule>, id: string)
    requires Represents(list, m)
    ensures Represents(Without(list, id), m - {id})
  {
    WithoutMembers(list, id);
    WithoutUnique(list, id);
    var next := Without(list, id);
    forall x | x in m - {id} ensures HasId(next, x) {
      var i :| 0 <= i < |list| && list[i].id == x;
      assert list[i] in next;
      var j :| 0 <= j < |next| && next[j] == list[i];
    }
    forall j | 0 <= j < |next| ensures next[j].id in m - {id} && (m - {id})[next[j].id] == next[j] {
      assert next[j] in list;
    }
  }

  /** One operation on the file does to the list what it does to the map, with the same
      outcome, and keeps every schedule valid. */
  lemma FileRefinesMap(list: seq<Schedule>, m: map<string, Schedule>, op: Op)
    requires Represents(list, m) && AllValid(list)
    ensures FileStep(list, op).1 == MapStep(m, op).1
    ensures Represents(FileStep(list, op).0, MapStep(m, op).0) && AllValid(FileStep(list, op).0)
  {
    match op
    case Upsert(s) => UpsertRefines(list, m, s);
    case Remove(id) => RemoveRefines(list, m, id);
    case Record(id, at) => RecordRefines(list, m, id, at);
  }

  lemma UpsertRefines(list: seq<Schedule>, m: map<string, Schedule>, s: Schedule)
    requires Represents(list, m) && AllValid(list)
    ensures
      var f, g := FileStep(list, Upsert(s)), MapStep(m, Upsert(s));
      f.1 == g.1 && Represents(f.0, g.0) && AllValid(f.0)
  {
    if Valid(s) {
      FindIffPresent(list, m, s.id);
      if s.id in m { ReplaceRepresents(list, m, Find(list, s.id), s); } else { PushRepresents(list, m, s); }
    }
  }

  lemma RemoveRefines(list: seq<Schedule>, m: map<string, Schedule>, id: string)
    requires Represents(list, m) && AllValid(list)
    ensures
      var f, g := FileStep(list, Remove(id)), MapStep(m, Remove(id));
      f.1 == g.1 && Represents(f.0, g.0) && AllValid(f.0)
  {
    WithoutMembers(list, id);
    assert HasId(list, id) <==> id in m;
    RemoveRepresents(list, m, id);
    forall j | 0 <= j < |Without(list, id)| ensures Valid(Without(list, id)[j]) {
      assert Without(list, id)[j] in list;
    }
  }

  lemma RecordStaysValid(list: seq<Schedule>, k: nat, at: DateTime)
    requires AllValid(list) && k < |list|
    ensures AllValid(list[k := RecordSuccess(list[k], at)])
  {
    assert Valid(list[k]);
  }

  lemma RecordRefines(list: seq<Schedule>, m: map<string, Schedule>, id: string, at: DateTime)
    requires Represents(list, m) && AllValid(list)
    ensures
      var f, g := FileStep(list, Record(id, at)), MapStep(m, Record(id, at));
      f.1 == g.1 && Represents(f.0, g.0) && AllValid(f.0)
  {
    FindIffPresent(list, m, id);
    if id in m {
      var k := Find(list, id);
      ReplaceRepresents(list, m, k, RecordSuccess(list[k], at));
      RecordStaysValid(list, k, at);
    }
  }

  function FileRun(ops: seq<Op>): seq<Schedule> {
    if ops == [] then [] else FileStep(FileRun(ops[..|ops| - 1]), ops[|ops| - 1]).0
  }

  function MapRun(ops: seq<Op>): map<string, Schedule> {
    if ops == [] then map[] else MapStep(MapRun(ops[..|ops| - 1]), ops[|ops| - 1]).0
  }

  /** THE FILE STORE REFINES THE MAP STORE over every sequence of operations. */
  lemma {:induction false} FileRunRefinesMapRun(ops: seq<Op>, next: Op)
    ensures Represents(FileRun(ops), MapRun(ops)) && AllValid(FileRun(ops))
    ensures FileStep(FileRun(ops), next).1 == MapStep(MapRun(ops), next).1
    decreases |ops|
  {
    if ops != [] {
      var before, op := ops[..|ops| - 1], ops[|ops| - 1];
      FileRunRefinesMapRun(before, op);
      FileRefinesMap(FileRun(before), MapRun(before), op);
    }
    FileRefinesMap(FileRun(ops), MapRun(ops), next);
  }

  // ---------------------------------------------------------------- firing

  /** How far one fire gets. */
  datatype Fate = SubmitFails | DeliveryFails | RecordFails | Succeeds

  datatype Fire = Fire(id: string, at: DateTime)

  /** The stored schedules, the events delivered to the channel and the fires recorded. */
  datatype World = World(schedules: map<string, Schedule>, delivered: seq<Fire>, recorded: seq<Fire>)

  function FireSchedule(w: World, s: Schedule, now: DateTime, fate: Fate): World {
    if !Valid(s) || fate == SubmitFails || fate == DeliveryFails then w
    else
      var sent := w.(delivered := w.delivered + [Fire(s.id, now)]);
      if fate == RecordFails || s.id !in w.schedules then sent
      else
        sent.(schedules := w.schedules[s.id := RecordSuccess(w.schedules[s.id], now)],
              recorded := w.recorded + [Fire(s.id, now)])
  }

  /** `delivered` is reported only when the fire was also recorded; otherwise there is an error. */
  datatype FireReport = FireReport(id: string, delivered: bool)

  function ReportOf(w: World, s: Schedule, fate: Fate): FireReport {
    FireReport(s.id, Valid(s) && fate == Succeeds && s.id in w.schedules)
  }

  /** One tick: `loaded` is the list read at its start, in whatever order the store gave. */
  function FireDue(cron: Cron, w: World, loaded: seq<Schedule>, now: DateTime, fates: string -> Fate): World {
    if loaded == [] then w
    else
      var n := |loaded| - 1;
      var before := FireDue(cron, w, loaded[..n], now, fates);
      if IsDue(cron, loaded[n], now) then FireSchedule(before, loaded[n], now, fates(loaded[n].id)) else before
  }

  function Reports(
    cron: Cron, w: World, loaded: seq<Schedule>, now: DateTime, fates: string -> Fate): seq<FireReport>
  {
    if loaded == [] then []
    else
      var n := |loaded| - 1;
      Reports(cron, w, loaded[..n], now, fates) +
      if IsDue(cron, loaded[n], now)
      then [ReportOf(FireDue(cron, w, loaded[..n], now, fates), loaded[n], fates(loaded[n].id))]
      else []
  }

  class AutomationLoop {
    var schedules: map<string, Schedule>
    var delivered: seq<Fire>
    var recorded: seq<Fire>

    constructor (schedules: map<string, Schedule>)
      ensures State() == World(schedules, [], [])
    {
      this.schedules, delivered, recorded := schedules, [], [];
    }

    ghost function State(): World
      reads this
    {
      World(schedules, delivered, recorded)
    }

    method FireOne(s: Schedule, now: DateTime, fate: Fate) returns (report: FireReport)
      modifies this
      ensures State() == FireSchedule(old(State()), s, now, fate)
      ensures report == ReportOf(old(State()), s, fate)
    {
      if !Valid(s) || fate == SubmitFails || fate == DeliveryFails { return FireReport(s.id, false); }
      delivered := delivered + [Fire(s.id, now)];
      if fate == RecordFails || s.id !in schedules { return FireReport(s.id, false); }
      schedules := schedules[s.id := RecordSuccess(schedules[s.id], now)];
      recorded := recorded + [Fire(s.id, now)];
      return FireReport(s.id, true);
    }

    /** `listing` is what the store loads, `None` when loading fails. */
    method FireAllDue(cron: Cron, listing: Option<seq<Schedule>>, now: DateTime, fates: string -> Fate)
      returns (r: Option<seq<FireReport>>)
      modifies this
      ensures listing.None? ==> r.None? && State() == old(State())
      ensures listing.Some? ==>
        && State() == FireDue(cron, old(State()), listing.value, now, fates)
        && r == Some(Reports(cron, old(State()), listing.value, now, fates))
    {
      if listing.None? { return None; }
      var loaded := listing.value;
      var reports := [];
      for k := 0 to |loaded|
        invariant State() == FireDue(cron, old(State()), loaded[..k], now, fates)
        invariant reports == Reports(cron, old(State()), loaded[..k], now, fates)
      {
        assert loaded[..k + 1][..k] == loaded[..k];
        if IsDue(cron, loaded[k], now) {
          var report := FireOne(loaded[k], now, fates(loaded[k].id));
          reports := reports + [report];
        }
      }
      assert loaded[..|loaded|] == loaded;
      return Some(reports);
    }
  }

  // ---------------------------------------------------------------- runs of ticks

  /** A tick reads a representation of the stored map; a removal drops a schedule. */
  datatype Event =
    | Tick(now: DateTime, loaded: seq<Schedule>, fates: string -> Fate)
    | Drop(id: string)

  function EventStep(cron: Cron, w: World, e: Event): World {
    match e
    case Tick(now, loaded, fates) => FireDue(cron, w, loaded, now, fates)
    case Drop(id) => w.(schedules := w.schedules - {id})
  }

  function EventRun(cron: Cron, start: map<string, Schedule>, events: seq<Event>): World {
    if events == [] then World(start, [], [])
    else EventStep(cron, EventRun(cron, start, events[..|events| - 1]), events[|events| - 1])
  }

  /** No tick is later than `t`. */
  predicate AfterAll(events: seq<Event>, t: DateTime) {
    forall j :: 0 <= j < |events| && events[j].Tick? ==> NotAfter(events[j].now, t)
  }

  /** Each tick loads what is stored, and no tick is earlier than one before it. */
  ghost predicate Serial(cron: Cron, start: map<string, Schedule>, events: seq<Event>)
    decreases |events|
  {
    events == [] ||
    var before, e := events[..|events| - 1], events[|events| - 1];
    && Serial(cron, start, before)
    && (e.Tick? ==> Represents(e.loaded, EventRun(cron, start, before).schedules) && AfterAll(before, e.now))
  }

  function Count(fires: seq<Fire>, id: string): nat {
    if fires == [] then 0 else Count(fires[..|fires| - 1], id) + if fires[|fires| - 1].id == id then 1 else 0
  }

  /** What a schedule keeps of its first version: everything but its fire record. */
  predicate SameButFires(a: Schedule, b: Schedule) {
    b.(lastFire := a.lastFire, fireCount := a.fireCount) == a
  }

  /** What holds after every event: recorded fires are of schedules that were enabled, valid
      and due, no two of one schedule in one minute; counters and last-fire stamps agree with
      the record; and everything recorded was delivered. */
  ghost predicate Inv(cron: Cron, start: map<string, Schedule>, w: World) {
    && SchedulesOk(start, w)
    && (forall k :: 0 <= k < |w.recorded| ==> FireOk(cron, start, w.recorded[k]))
    && (forall k :: 0 <= k < |w.recorded| ==> Stamped(w, w.recorded[k]))
    && OncePerMinute(w.recorded)
    && multiset(w.recorded) <= multiset(w.delivered)
  }

  predicate SchedulesOk(start: map<string, Schedule>, w: World) {
    forall id :: id in w.schedules ==> id in start && ScheduleOk(start[id], w.schedules[id], Count(w.recorded, id))
  }

  /** The stored schedule is its first version with `fires` more recorded fires. */
  predicate ScheduleOk(first: Schedule, s: Schedule, fires: nat) {
    SameButFires(first, s) && s.fireCount == Sat(first.fireCount + fires)
  }

  predicate FireOk(cron: Cron, start: map<string, Schedule>, f: Fire) {
    f.id in start && start[f.id].status == Enabled && Valid(start[f.id]) && cron(start[f.id].expression, f.at)
  }

  /** If the schedule of a recorded fire is still stored, its last-fire stamp is a recorded
      fire of its own, not before this one. */
  predicate Stamped(w: World, f: Fire) {
    f.id in w.schedules ==>
      var last := w.schedules[f.id].lastFire;
      last.Some? && NotAfter(f.at, last.value) && Fire(f.id, last.value) in w.recorded
  }

  predicate OncePerMinute(fires: seq<Fire>) {
    forall j, k :: 0 <= j < k < |fires| && fires[j].id == fires[k].id ==> MinutesDiffer(fires[j].at, fires[k].at)
  }

  /** Every recorded fire lies at or before `now`. */
  predicate NoneAfter(fires: seq<Fire>, now: DateTime) {
    forall k :: 0 <= k < |fires| ==> NotAfter(fires[k].at, now)
  }

  /** A time between two times of one minute is in that minute. */
  lemma Between(a: DateTime, b: DateTime, c: DateTime)
    requires NotAfter(a, b) && NotAfter(b, c) && SameCronMinute(a, c)
    ensures SameCronMinute(b, c)
  {
  }

  lemma CountSnoc(fires: seq<Fire>, f: Fire, id: string)
    ensures Count(fires + [f], id) == Count(fires, id) + if f.id == id then 1 else 0
  {
    assert (fires + [f])[..|fires|] == fires;
  }

  /** A due schedule was not recorded earlier in this minute. */
  lemma NotYetThisMinute(cron: Cron, start: map<string, Schedule>, w: World, s: Schedule, now: DateTime, j: nat)
    requires Inv(cron, start, w) && NoneAfter(w.recorded, now)
    requires s.id in w.schedules && w.schedules[s.id] == s && IsDue(cron, s, now)
    requires j < |w.recorded| && w.recorded[j].id == s.id
    ensures !SameCronMinute(w.recorded[j].at, now)
  {
    assert Stamped(w, w.recorded[j]);
    var last := s.lastFire.value;
    var k :| 0 <= k < |w.recorded| && w.recorded[k] == Fire(s.id, last);
    assert NotAfter(last, now);
    if SameCronMinute(w.recorded[j].at, now) { Between(w.recorded[j].at, last, now); }
  }

  /** Firing one due schedule keeps the invariant. */
  lemma FireKeeps(cron: Cron, start: map<string, Schedule>, w: World, s: Schedule, now: DateTime, fate: Fate)
    requires Inv(cron, start, w) && NoneAfter(w.recorded, now)
    requires s.id in w.schedules && w.schedules[s.id] == s && IsDue(cron, s, now)
    ensures Inv(cron, start, FireSchedule(w, s, now, fate))
    ensures NoneAfter(FireSchedule(w, s, now, fate).recorded, now)
  {
    var w' := FireSchedule(w, s, now, fate);
    if Valid(s) && fate == Succeeds {
      RecordKeeps(cron, start, w, s, now);
    } else {
      assert w'.schedules == w.schedules && w'.recorded == w.recorded;
      forall k | 0 <= k < |w.recorded| ensures Stamped(w', w.recorded[k]) { assert Stamped(w, w.recorded[k]); }
      assert multiset(w.delivered) <= multiset(w'.delivered);
    }
  }

  lemma RecordKeeps(cron: Cron, start: map<string, Schedule>, w: World, s: Schedule, now: DateTime)
    requires Inv(cron, start, w) && NoneAfter(w.recorded, now)
    requires s.id in w.schedules && w.schedules[s.id] == s && IsDue(cron, s, now) && Valid(s)
    ensures Inv(cron, start, FireSchedule(w, s, now, Succeeds))
    ensures NoneAfter(FireSchedule(w, s, now, Succeeds).recorded, now)
  {
    RecordSchedulesOk(start, w, s, now);
    RecordStamps(w, s, now);
    RecordFires(cron, start, w.recorded, Fire(s.id, now));
    RecordOnce(cron, start, w, s, now);
    RecordDelivered(w.recorded, w.delivered, Fire(s.id, now));
  }

  lemma RecordStamps(w: World, s: Schedule, now: DateTime)
    requires s.id in w.schedules && w.schedules[s.id] == s && Valid(s) && NoneAfter(w.recorded, now)
    requires forall k :: 0 <= k < |w.recorded| ==> Stamped(w, w.recorded[k])
    ensures
      var w' := FireSchedule(w, s, now, Succeeds);
      forall k :: 0 <= k < |w'.recorded| ==> Stamped(w', w'.recorded[k])
  {
    var w' := FireSchedule(w, s, now, Succeeds);
    assert w'.recorded == w.recorded + [Fire(s.id, now)];
    forall k | 0 <= k < |w'.recorded| ensures Stamped(w', w'.recorded[k]) {
      if k < |w.recorded| { assert w'.recorded[k] == w.recorded[k] && w.recorded[k] in w.recorded; }
      StampedAfter(w, s, now, w'.recorded[k]);
    }
  }

  lemma RecordFires(cron: Cron, start: map<string, Schedule>, fires: seq<Fire>, f: Fire)
    requires FireOk(cron, start, f) && NoneAfter(fires, f.at)
    requires forall k :: 0 <= k < |fires| ==> FireOk(cron, start, fires[k])
    ensures forall k :: 0 <= k < |fires + [f]| ==> FireOk(cron, start, (fires + [f])[k])
    ensures NoneAfter(fires + [f], f.at)
  {
  }

  lemma RecordDelivered(recorded: seq<Fire>, delivered: seq<Fire>, f: Fire)
    requires multiset(recorded) <= multiset(delivered)
    ensures multiset(recorded + [f]) <= multiset(delivered + [f])
  {
    assert multiset(recorded + [f]) == multiset(recorded) + multiset{f};
    assert multiset(delivered + [f]) == multiset(delivered) + multiset{f};
  }

  lemma RecordSchedulesOk(start: map<string, Schedule>, w: World, s: Schedule, now: DateTime)
    requires SchedulesOk(start, w) && s.id in w.schedules && w.schedules[s.id] == s && Valid(s)
    ensures SchedulesOk(start, FireSchedule(w, s, now, Succeeds))
    ensures SameButFires(start[s.id], s)
  {
    var w' := FireSchedule(w, s, now, Succeeds);
    forall id | id in w'.schedules
      ensures id in start && ScheduleOk(start[id], w'.schedules[id], Count(w'.recorded, id))
    {
      CountSnoc(w.recorded, Fire(s.id, now), id);
      assert ScheduleOk(start[id], w.schedules[id], Count(w.recorded, id));
    }
  }

  lemma RecordOnce(cron: Cron, start: map<string, Schedule>, w: World, s: Schedule, now: DateTime)
    requires Inv(cron, start, w) && NoneAfter(w.recorded, now)
    requires s.id in w.schedules && w.schedules[s.id] == s && IsDue(cron, s, now)
    ensures OncePerMinute(w.recorded + [Fire(s.id, now)])
  {
    forall j | 0 <= j < |w.recorded| && w.recorded[j].id == s.id
      ensures !SameCronMinute(w.recorded[j].at, now)
    {
      NotYetThisMinute(cron, start, w, s, now, j);
    }
  }

  lemma StampedAfter(w: World, s: Schedule, now: DateTime, f: Fire)
    requires s.id in w.schedules && w.schedules[s.id] == s && Valid(s)
    requires f == Fire(s.id, now) || (f in w.recorded && Stamped(w, f) && NotAfter(f.at, now))
    ensures Stamped(FireSchedule(w, s, now, Succeeds), f)
  {
    var w' := FireSchedule(w, s, now, Succeeds);
    assert w'.recorded == w.recorded + [Fire(s.id, now)];
    if f.id == s.id {
      assert Fire(s.id, now) in w'.recorded;
    }
  }

  // ---------------------------------------------------------------- a whole tick

  /** The schedules of `loaded` from `n` on are still stored as loaded. */
  predicate Untouched(w: World, loaded: seq<Schedule>, n: nat)
    requires n <= |loaded|
  {
    forall i :: n <= i < |loaded| ==> loaded[i].id in w.schedules && w.schedules[loaded[i].id] == loaded[i]
  }

  lemma FireFrame(w: World, loaded: seq<Schedule>, n: nat, now: DateTime, fate: Fate)
    requires 0 < n <= |loaded| && UniqueIds(loaded) && Untouched(w, loaded, n - 1)
    ensures Untouched(FireSchedule(w, loaded[n - 1], now, fate), loaded, n)
  {
    forall i | n <= i < |loaded| ensures loaded[i].id != loaded[n - 1].id { }
  }

  /** What holds in the middle of a tick that has gone through `n` loaded schedules. */
  ghost predicate MidTick(
    cron: Cron, start: map<string, Schedule>, w: World, loaded: seq<Schedule>, n: nat, now: DateTime)
    requires n <= |loaded|
  {
    Inv(cron, start, w) && NoneAfter(w.recorded, now) && Untouched(w, loaded, n)
  }

  lemma MidTickStep(
    cron: Cron, start: map<string, Schedule>, w: World, loaded: seq<Schedule>, n: nat, now: DateTime, fate: Fate)
    requires n < |loaded| && UniqueIds(loaded) && MidTick(cron, start, w, loaded, n, now)
    ensures MidTick(
      cron, start, if IsDue(cron, loaded[n], now) then FireSchedule(w, loaded[n], now, fate) else w, loaded, n + 1, now)
  {
    var s := loaded[n];
    assert s.id in w.schedules && w.schedules[s.id] == s;
    if IsDue(cron, s, now) {
      FireKeeps(cron, start, w, s, now, fate);
      FireFrame(w, loaded, n + 1, now, fate);
    }
  }

  lemma FireDueSnoc(cron: Cron, w: World, loaded: seq<Schedule>, n: nat, now: DateTime, fates: string -> Fate)
    requires n < |loaded|
    ensures
      var before := FireDue(cron, w, loaded[..n], now, fates);
      FireDue(cron, w, loaded[..n + 1], now, fates) ==
      if IsDue(cron, loaded[n], now) then FireSchedule(before, loaded[n], now, fates(loaded[n].id)) else before
  {
    assert loaded[..n + 1][..n] == loaded[..n] && loaded[..n + 1][n] == loaded[n];
  }

  lemma {:induction false} TickKeeps(
    cron: Cron, start: map<string, Schedule>, w: World, loaded: seq<Schedule>, n: nat, now: DateTime,
    fates: string -> Fate)
    requires UniqueIds(loaded) && MidTick(cron, start, w, loaded, 0, now)
    requires n <= |loaded|
    ensures MidTick(cron, start, FireDue(cron, w, loaded[..n], now, fates), loaded, n, now)
    decreases n
  {
    if n == 0 {
      assert FireDue(cron, w, loaded[..n], now, fates) == w;
    } else {
      TickKeeps(cron, start, w, loaded, n - 1, now, fates);
      TickStep(cron, start, w, loaded, n - 1, now, fates);
    }
  }

  lemma TickStep(
    cron: Cron, start: map<string, Schedule>, w: World, loaded: seq<Schedule>, n: nat, now: DateTime,
    fates: string -> Fate)
    requires UniqueIds(loaded) && n < |loaded|
    requires MidTick(cron, start, FireDue(cron, w, loaded[..n], now, fates), loaded, n, now)
    ensures MidTick(cron, start, FireDue(cron, w, loaded[..n + 1], now, fates), loaded, n + 1, now)
  {
    MidTickStep(cron, start, FireDue(cron, w, loaded[..n], now, fates), loaded, n, now, fates(loaded[n].id));
    FireDueSnoc(cron, w, loaded, n, now, fates);
  }

  /** Whether this tick fires the schedule and records it. */
  predicate Fires(cron: Cron, s: Schedule, now: DateTime, fates: string -> Fate) {
    && s.status.Enabled? && cron(s.expression, now)
    && (s.lastFire.None? || MinutesDiffer(s.lastFire.value, now))
    && Valid(s) && fates(s.id) == Succeeds
  }

  lemma FireCounts(cron: Cron, w: World, s: Schedule, now: DateTime, fates: string -> Fate, id: string)
    requires s.id in w.schedules
    ensures
      var after := if IsDue(cron, s, now) then FireSchedule(w, s, now, fates(s.id)) else w;
      && after.schedules.Keys == w.schedules.Keys
      && Count(after.recorded, id) == Count(w.recorded, id) + if s.id == id && Fires(cron, s, now, fates) then 1 else 0
  {
    CountSnoc(w.recorded, Fire(s.id, now), id);
  }

  /** A tick over the stored schedules records one fire of each schedule that is due, valid
      and succeeds, and no other: nothing due is missed and nothing fires twice. */
  lemma {:induction false} TickRecordsExactly(
    cron: Cron, w: World, loaded: seq<Schedule>, n: nat, now: DateTime, fates: string -> Fate, k: nat)
    requires UniqueIds(loaded) && n <= |loaded| && k < |loaded|
    requires forall i :: 0 <= i < |loaded| ==> loaded[i].id in w.schedules.Keys
    ensures
      var after := FireDue(cron, w, loaded[..n], now, fates);
      && after.schedules.Keys == w.schedules.Keys
      && Count(after.recorded, loaded[k].id) ==
         Count(w.recorded, loaded[k].id) + if k < n && Fires(cron, loaded[k], now, fates) then 1 else 0
    decreases n
  {
    if n > 0 {
      TickRecordsExactly(cron, w, loaded, n - 1, now, fates, k);
      FireDueSnoc(cron, w, loaded, n - 1, now, fates);
      assert loaded[n - 1].id in w.schedules.Keys;
      FireCounts(cron, FireDue(cron, w, loaded[..n - 1], now, fates), loaded[n - 1], now, fates, loaded[k].id);
      assert loaded[n - 1].id == loaded[k].id <==> k == n - 1;
    }
  }

  /** The last tick of every serial run records exactly the schedules that are due, valid and
      succeed. */
  lemma RunRecordsExactly(cron: Cron, start: map<string, Schedule>, events: seq<Event>, k: nat)
    requires Serial(cron, start, events) && events != []
    requires events[|events| - 1].Tick? && k < |events[|events| - 1].loaded|
    ensures
      var before, e := events[..|events| - 1], events[|events| - 1];
      var id := e.loaded[k].id;
      && Count(EventRun(cron, start, events).recorded, id) ==
         Count(EventRun(cron, start, before).recorded, id) + (if Fires(cron, e.loaded[k], e.now, e.fates) then 1 else 0)
      && EventRun(cron, start, before).schedules.Keys == EventRun(cron, start, events).schedules.Keys
  {
    var before, e := events[..|events| - 1], events[|events| - 1];
    var w := EventRun(cron, start, before);
    TickRecordsExactly(cron, w, e.loaded, |e.loaded|, e.now, e.fates, k);
    assert e.loaded[..|e.loaded|] == e.loaded;
  }

  function DeliveredReports(reports: seq<FireReport>, id: string): nat {
    if reports == [] then 0
    else
      var last := reports[|reports| - 1];
      DeliveredReports(reports[..|reports| - 1], id) + if last.id == id && last.delivered then 1 else 0
  }

  /** The reports are truthful: over any list, a tick reports delivery exactly as often as it
      records a fire. */
  lemma {:induction false} ReportsAreTruthful(
    cron: Cron, w: World, loaded: seq<Schedule>, now: DateTime, fates: string -> Fate, id: string)
    ensures Count(FireDue(cron, w, loaded, now, fates).recorded, id) ==
      Count(w.recorded, id) + DeliveredReports(Reports(cron, w, loaded, now, fates), id)
    decreases |loaded|
  {
    if loaded != [] {
      var n := |loaded| - 1;
      var s, before := loaded[n], FireDue(cron, w, loaded[..n], now, fates);
      var reports := Reports(cron, w, loaded[..n], now, fates);
      ReportsAreTruthful(cron, w, loaded[..n], now, fates, id);
      ReportIsTruthful(before, s, now, fates(s.id), id);
      DeliveredSnoc(reports, ReportOf(before, s, fates(s.id)), id);
    }
  }

  lemma ReportIsTruthful(w: World, s: Schedule, now: DateTime, fate: Fate, id: string)
    ensures Count(FireSchedule(w, s, now, fate).recorded, id) ==
      Count(w.recorded, id) + if s.id == id && ReportOf(w, s, fate).delivered then 1 else 0
  {
    CountSnoc(w.recorded, Fire(s.id, now), id);
  }

  lemma DeliveredSnoc(reports: seq<FireReport>, r: FireReport, id: string)
    ensures DeliveredReports(reports + [r], id) ==
      DeliveredReports(reports, id) + if r.id == id && r.delivered then 1 else 0
    ensures DeliveredReports(reports + [], id) == DeliveredReports(reports, id)
  {
    assert (reports + [r])[..|reports|] == reports && reports + [] == reports;
  }

  lemma DropKeeps(cron: Cron, start: map<string, Schedule>, w: World, id: string)
    requires Inv(cron, start, w)
    ensures Inv(cron, start, w.(schedules := w.schedules - {id}))
  {
    var w' := w.(schedules := w.schedules - {id});
    forall k | 0 <= k < |w.recorded| ensures Stamped(w', w.recorded[k]) { assert Stamped(w, w.recorded[k]); }
  }

  /** AT MOST ONE RECORDED FIRE PER SCHEDULE AND MINUTE: over every serial run of ticks with
      non-decreasing times and removals, whatever fails, `Inv` holds at the end. */
  lemma {:induction false} RunsKeep(cron: Cron, start: map<string, Schedule>, events: seq<Event>, t: DateTime)
    requires Serial(cron, start, events) && AfterAll(events, t)
    ensures Inv(cron, start, EventRun(cron, start, events))
    ensures NoneAfter(EventRun(cron, start, events).recorded, t)
    decreases |events|
  {
    if events != [] {
      var n := |events| - 1;
      var before, e := events[..n], events[n];
      AfterAllPrefix(events, t);
      var w := EventRun(cron, start, before);
      match e {
        case Tick(now, loaded, fates) =>
          RunsKeep(cron, start, before, now);
          WholeTickKeeps(cron, start, w, e, t);
        case Drop(id) =>
          RunsKeep(cron, start, before, t);
          DropKeeps(cron, start, w, id);
      }
    }
  }

  lemma WholeTickKeeps(cron: Cron, start: map<string, Schedule>, w: World, e: Event, t: DateTime)
    requires e.Tick? && Inv(cron, start, w) && NoneAfter(w.recorded, e.now) && Represents(e.loaded, w.schedules)
    requires NotAfter(e.now, t)
    ensures Inv(cron, start, EventStep(cron, w, e)) && NoneAfter(EventStep(cron, w, e).recorded, t)
  {
    TickKeeps(cron, start, w, e.loaded, |e.loaded|, e.now, e.fates);
    assert e.loaded[..|e.loaded|] == e.loaded;
    NoneAfterLater(EventStep(cron, w, e).recorded, e.now, t);
  }

  lemma NoneAfterLater(fires: seq<Fire>, now: DateTime, t: DateTime)
    requires NoneAfter(fires, now) && NotAfter(now, t)
    ensures NoneAfter(fires, t)
  {
  }

  lemma AfterAllPrefix(events: seq<Event>, t: DateTime)
    requires events != [] && AfterAll(events, t)
    ensures AfterAll(events[..|events| - 1], t)
    ensures events[|events| - 1].Tick? ==> NotAfter(events[|events| - 1].now, t)
  {
  }
}
