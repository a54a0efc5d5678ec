/** Cost roll-ups over the receipt log, with saturating sums. */
module Costs {
  import opened Basics
  import opened Unicode
  import opened ReceiptLog
  import Text

  const DAY_MS: int := 24 * 60 * 60 * 1000

  datatype Bucket = Bucket(key: string, cents: u64, count: nat)

  datatype Report = Report(
    total: u64, today: u64, last7: u64, last30: u64, byProvider: seq<Bucket>, byDay: seq<Bucket>)

  /** `u64::saturating_add` */
  function SatAdd(a: u64, b: u64): u64 {
    Sat(a + b)
  }

  /** The day of a signed millisecond epoch, where the calendar can represent it. */
  type Calendar = int -> Option<string>

  /** `ms as i64` wraps. */
  function AsI64(ms: u64): int {
    if ms <= I64_MAX then ms else ms - U64_MAX - 1
  }

  function DayOf(calendar: Calendar, ms: u64): string {
    match calendar(AsI64(ms))
    case Some(day) => day
    case None => "day-" + Text.NatText(ms / DAY_MS)
  }

  function Provider(r: Loaded): string {
    if r.body.provider.Some? then r.body.provider.value else r.body.verb
  }

  /** Age within the window; a receipt from the future has age zero. */
  function Age(now: u64, r: Loaded): nat {
    if r.body.issuedAt < now then now - r.body.issuedAt else 0
  }

  /** The cast keeps the value modulo two to the 64th and lands in the signed range. */
  lemma AsI64Exact(ms: u64)
    ensures -0x8000_0000_0000_0000 <= AsI64(ms) <= 0x7fff_ffff_ffff_ffff
    ensures AsI64(ms) == ms || AsI64(ms) + 0x1_0000_0000_0000_0000 == ms
  {
  }

  /** A window of some days holds a receipt iff it was issued no more than that many times
      86,400,000 milliseconds before now; one from the future is always in it. */
  lemma WithinExact(now: u64, days: nat, r: Loaded)
    ensures Within(now, days)(r) <==> now <= r.body.issuedAt + days * 86_400_000
  {
  }

  type Filter = Loaded -> bool
  type KeyOf = Loaded -> string

  function Today(calendar: Calendar, now: u64): Filter {
    (r: Loaded) => DayOf(calendar, r.body.issuedAt) == DayOf(calendar, now)
  }

  function Within(now: u64, days: nat): Filter {
    (r: Loaded) => Age(now, r) <= days * DAY_MS
  }

  function Day(calendar: Calendar): KeyOf {
    (r: Loaded) => DayOf(calendar, r.body.issuedAt)
  }

  /** The exact spend of the receipts a filter selects. */
  function SpendWhere(p: Filter, rs: seq<Loaded>): nat {
    if rs == [] then 0
    else SpendWhere(p, rs[..|rs| - 1]) + if p(rs[|rs| - 1]) then rs[|rs| - 1].body.cents else 0
  }

  function CountWhere(p: Filter, rs: seq<Loaded>): nat {
    if rs == [] then 0 else CountWhere(p, rs[..|rs| - 1]) + if p(rs[|rs| - 1]) then 1 else 0
  }

  function All(): Filter {
    r => true
  }

  function Keyed(key: KeyOf, k: string): Filter {
    (r: Loaded) => key(r) == k
  }

  // ---------------------------------------------------------------- buckets in key order

  function KeyCmp(a: string, b: string): Ordering {
    Compare(Utf8(a), Utf8(b))
  }

  /** `entry(key).or_default()` and the update of its sum and count, in an ordered map. */
  function Add(bs: seq<Bucket>, key: string, cents: u64): seq<Bucket> {
    if bs == [] then [Bucket(key, cents, 1)]
    else
      match KeyCmp(key, bs[0].key)
      case Less => [Bucket(key, cents, 1)] + bs
      case Equal => [Bucket(bs[0].key, SatAdd(bs[0].cents, cents), bs[0].count + 1)] + bs[1..]
      case Greater => [bs[0]] + Add(bs[1..], key, cents)
  }

  function Buckets(key: KeyOf, rs: seq<Loaded>): seq<Bucket> {
    if rs == [] then []
    else Add(Buckets(key, rs[..|rs| - 1]), key(rs[|rs| - 1]), rs[|rs| - 1].body.cents)
  }

  function TotalCents(bs: seq<Bucket>): nat {
    if bs == [] then 0 else bs[0].cents + TotalCents(bs[1..])
  }

  function TotalCount(bs: seq<Bucket>): nat {
    if bs == [] then 0 else bs[0].count + TotalCount(bs[1..])
  }

  // ---------------------------------------------------------------- sorting

  type Before = (Bucket, Bucket) -> bool

  function Costlier(): Before {
    (a: Bucket, b: Bucket) => a.cents > b.cents || (a.cents == b.cents && KeyCmp(a.key, b.key) == Less)
  }

  function LaterDay(): Before {
    (a: Bucket, b: Bucket) => KeyCmp(b.key, a.key) == Less
  }

  function InsertBy(before: Before, x: Bucket, bs: seq<Bucket>): seq<Bucket> {
    if bs == [] then [x]
    else if before(bs[0], x) then [bs[0]] + InsertBy(before, x, bs[1..])
    else [x] + bs
  }

  function SortBy(before: Before, bs: seq<Bucket>): seq<Bucket> {
    if bs == [] then [] else InsertBy(before, bs[0], SortBy(before, bs[1..]))
  }

  // ---------------------------------------------------------------- the aggregation loop

  method AggregateReceipts(calendar: Calendar, receipts: seq<Loaded>, now: u64) returns (r: Report)
    ensures r.total == Sat(SpendWhere(All(), receipts))
    ensures r.today == Sat(SpendWhere(Today(calendar, now), receipts))
    ensures r.last7 == Sat(SpendWhere(Within(now, 7), receipts))
    ensures r.last30 == Sat(SpendWhere(Within(now, 30), receipts))
    ensures r.byProvider == SortBy(Costlier(), Buckets(Provider, receipts))
    ensures r.byDay == SortBy(LaterDay(), Buckets(Day(calendar), receipts))
  {
    var total: u64, today: u64, last7: u64, last30: u64 := 0, 0, 0, 0;
    var byProvider: seq<Bucket>, byDay: seq<Bucket> := [], [];
    var todayKey := DayOf(calendar, now);
    for i := 0 to |receipts|
      invariant total == Sat(SpendWhere(All(), receipts[..i]))
      invariant today == Sat(SpendWhere(Today(calendar, now), receipts[..i]))
      invariant last7 == Sat(SpendWhere(Within(now, 7), receipts[..i]))
      invariant last30 == Sat(SpendWhere(Within(now, 30), receipts[..i]))
      invariant byProvider == Buckets(Provider, receipts[..i]) && byDay == Buckets(Day(calendar), receipts[..i])
    {
      assert receipts[..i + 1][..i] == receipts[..i] && receipts[..i + 1][i] == receipts[i];
      var cents, issued := receipts[i].body.cents, receipts[i].body.issuedAt;
      total := SatAdd(total, cents);
      var day := DayOf(calendar, issued);
      if day == todayKey { today := SatAdd(today, cents); }
      var age := Age(now, receipts[i]);
      if age <= 7 * DAY_MS { last7 := SatAdd(last7, cents); }
      if age <= 30 * DAY_MS { last30 := SatAdd(last30, cents); }
      byProvider := Add(byProvider, Provider(receipts[i]), cents);
      byDay := Add(byDay, day, cents);
    }
    assert receipts[..|receipts|] == receipts;
    return Report(total, today, last7, last30, SortBy(Costlier(), byProvider), SortBy(LaterDay(), byDay));
  }

  // ---------------------------------------------------------------- what the buckets hold

  lemma KeyOrder(a: string, b: string, c: string)
    ensures KeyCmp(a, b) == Equal <==> a == b
    ensures KeyCmp(a, b) == Less <==> KeyCmp(b, a) == Greater
    ensures KeyCmp(a, b) == Less && KeyCmp(b, c) == Less ==> KeyCmp(a, c) == Less
  {
    CompareSymmetric(Utf8(a), Utf8(b));
    if Utf8(a) == Utf8(b) { Utf8Injective(a, b); }
    if KeyCmp(a, b) == Less && KeyCmp(b, c) == Less { CompareTransitive(Utf8(a), Utf8(b), Utf8(c)); }
  }

  predicate AscendingBuckets(bs: seq<Bucket>) {
    forall i, j :: 0 <= i < j < |bs| ==> KeyCmp(bs[i].key, bs[j].key) == Less
  }

  /** Adding changes one bucket's sum, saturating, and conserves the saturated total. */
  lemma {:induction false} AddConserves(bs: seq<Bucket>, key: string, cents: u64)
    ensures Sat(TotalCents(Add(bs, key, cents))) == Sat(TotalCents(bs) + cents)
    ensures TotalCount(Add(bs, key, cents)) == TotalCount(bs) + 1
  {
    if bs == [] {
      assert [Bucket(key, cents, 1)][1..] == [];
    } else {
      match KeyCmp(key, bs[0].key)
      case Less => assert ([Bucket(key, cents, 1)] + bs)[1..] == bs;
      case Equal =>
        var b := Bucket(bs[0].key, SatAdd(bs[0].cents, cents), bs[0].count + 1);
        assert ([b] + bs[1..])[1..] == bs[1..];
      case Greater =>
        AddConserves(bs[1..], key, cents);
        assert ([bs[0]] + Add(bs[1..], key, cents))[1..] == Add(bs[1..], key, cents);
    }
  }

  lemma {:induction false} AddKeys(bs: seq<Bucket>, key: string, cents: u64, i: nat)
    requires i < |Add(bs, key, cents)|
    ensures Add(bs, key, cents)[i].key == key || exists j :: 0 <= j < |bs| && bs[j].key == Add(bs, key, cents)[i].key
  {
    if bs != [] {
      match KeyCmp(key, bs[0].key)
      case Less => if i > 0 { assert bs[i - 1].key == Add(bs, key, cents)[i].key; }
      case Equal => assert bs[i].key == Add(bs, key, cents)[i].key;
      case Greater =>
        if i == 0 {
          assert bs[0].key == Add(bs, key, cents)[0].key;
        } else {
          AddKeys(bs[1..], key, cents, i - 1);
          if j :| 0 <= j < |bs[1..]| && bs[1..][j].key == Add(bs[1..], key, cents)[i - 1].key {
            assert bs[j + 1].key == Add(bs, key, cents)[i].key;
          }
        }
    }
  }

  lemma {:induction false} AddAscending(bs: seq<Bucket>, key: string, cents: u64)
    requires AscendingBuckets(bs)
    ensures AscendingBuckets(Add(bs, key, cents))
  {
    if bs != [] {
      KeyOrder(key, bs[0].key, "");
      KeyOrder(bs[0].key, key, "");
      match KeyCmp(key, bs[0].key)
      case Less =>
        forall j | 0 <= j < |bs| ensures KeyCmp(key, bs[j].key) == Less { KeyOrder(key, bs[0].key, bs[j].key); }
        AscendingCons(Add(bs, key, cents)[0], bs);
      case Equal =>
      case Greater =>
        AddAscending(bs[1..], key, cents);
        var rest := Add(bs[1..], key, cents);
        forall i | 0 <= i < |rest| ensures KeyCmp(bs[0].key, rest[i].key) == Less { AddKeys(bs[1..], key, cents, i); }
        AscendingCons(bs[0], rest);
    }
  }

  lemma AscendingCons(b: Bucket, bs: seq<Bucket>)
    requires AscendingBuckets(bs)
    requires forall i :: 0 <= i < |bs| ==> KeyCmp(b.key, bs[i].key) == Less
    ensures AscendingBuckets([b] + bs)
  {
  }

  /** The bucket of a key, zero if it has none. */
  function At(bs: seq<Bucket>, key: string): Bucket {
    if bs == [] then Bucket(key, 0, 0) else if bs[0].key == key then bs[0] else At(bs[1..], key)
  }

  lemma {:induction false} AddAt(bs: seq<Bucket>, key: string, cents: u64, k: string)
    requires AscendingBuckets(bs)
    ensures At(Add(bs, key, cents), k) ==
      if k == key then Bucket(k, SatAdd(At(bs, k).cents, cents), At(bs, k).count + 1) else At(bs, k)
  {
    if bs != [] {
      KeyOrder(key, bs[0].key, "");
      match KeyCmp(key, bs[0].key)
      case Less =>
        assert ([Bucket(key, cents, 1)] + bs)[1..] == bs;
        AtAbsent(bs, key);
      case Equal =>
        var b := Bucket(bs[0].key, SatAdd(bs[0].cents, cents), bs[0].count + 1);
        assert ([b] + bs[1..])[1..] == bs[1..];
      case Greater =>
        AddAt(bs[1..], key, cents, k);
        assert ([bs[0]] + Add(bs[1..], key, cents))[1..] == Add(bs[1..], key, cents);
    }
  }

  /** A key below all keys has no bucket. */
  lemma {:induction false} AtAbsent(bs: seq<Bucket>, key: string)
    requires AscendingBuckets(bs) && bs != [] && KeyCmp(key, bs[0].key) == Less
    ensures At(bs, key) == Bucket(key, 0, 0)
  {
    KeyOrder(key, bs[0].key, "");
    if |bs| > 1 {
      KeyOrder(key, bs[0].key, bs[1].key);
      AtAbsent(bs[1..], key);
    }
  }

  /** The saturated bucket total is the saturated spend, and the counts add up. */
  lemma {:induction false} BucketTotals(key: KeyOf, rs: seq<Loaded>)
    ensures Sat(TotalCents(Buckets(key, rs))) == Sat(SpendWhere(All(), rs))
    ensures TotalCount(Buckets(key, rs)) == |rs|
  {
    if rs != [] {
      var before, r := rs[..|rs| - 1], rs[|rs| - 1];
      BucketTotals(key, before);
      AddConserves(Buckets(key, before), key(r), r.body.cents);
    }
  }

  lemma {:induction false} BucketsAscending(key: KeyOf, rs: seq<Loaded>)
    ensures AscendingBuckets(Buckets(key, rs))
  {
    if rs != [] {
      BucketsAscending(key, rs[..|rs| - 1]);
      AddAscending(Buckets(key, rs[..|rs| - 1]), key(rs[|rs| - 1]), rs[|rs| - 1].body.cents);
    }
  }

  /** Each bucket holds its key's saturated spend and its number of receipts. */
  lemma {:induction false} BucketsExact(key: KeyOf, rs: seq<Loaded>, k: string)
    ensures At(Buckets(key, rs), k) == Bucket(k, Sat(SpendWhere(Keyed(key, k), rs)), CountWhere(Keyed(key, k), rs))
  {
    if rs != [] {
      var before, r := rs[..|rs| - 1], rs[|rs| - 1];
      BucketsExact(key, before, k);
      BucketsAscending(key, before);
      AddAt(Buckets(key, before), key(r), r.body.cents, k);
    }
  }

  // ---------------------------------------------------------------- sorting keeps the buckets

  /** A strict order that puts any two buckets with different keys in one place. */
  ghost predicate Orders(before: Before) {
    && (forall a, b, c :: before(a, b) && before(b, c) ==> before(a, c))
    && (forall a: Bucket, b: Bucket :: a.key != b.key ==> before(a, b) || before(b, a))
  }

  predicate SortedBy(before: Before, bs: seq<Bucket>) {
    forall i, j :: 0 <= i < j < |bs| ==> before(bs[i], bs[j])
  }

  predicate DistinctBuckets(bs: seq<Bucket>) {
    forall i, j :: 0 <= i < j < |bs| ==> bs[i].key != bs[j].key
  }

  lemma {:induction false} InsertByKeeps(before: Before, x: Bucket, bs: seq<Bucket>)
    ensures TotalCents(InsertBy(before, x, bs)) == x.cents + TotalCents(bs)
    ensures TotalCount(InsertBy(before, x, bs)) == x.count + TotalCount(bs)
    ensures multiset(InsertBy(before, x, bs)) == multiset(bs) + multiset{x}
  {
    if bs == [] {
      assert [x][1..] == [];
    } else if before(bs[0], x) {
      var rest := InsertBy(before, x, bs[1..]);
      InsertByKeeps(before, x, bs[1..]);
      ConsTotals(bs[0], rest);
      ConsTotals(bs[0], bs[1..]);
      Text.HeadTail(bs);
    } else {
      ConsTotals(x, bs);
    }
  }

  lemma ConsTotals(x: Bucket, bs: seq<Bucket>)
    ensures TotalCents([x] + bs) == x.cents + TotalCents(bs) && TotalCount([x] + bs) == x.count + TotalCount(bs)
    ensures multiset([x] + bs) == multiset(bs) + multiset{x}
  {
    Text.ConsParts(x, bs);
  }

  lemma InsertByMember(before: Before, x: Bucket, bs: seq<Bucket>, y: Bucket)
    requires y in InsertBy(before, x, bs)
    ensures y == x || y in bs
  {
    InsertByKeeps(before, x, bs);
    assert y in multiset(InsertBy(before, x, bs));
  }

  lemma {:induction false} InsertBySorted(before: Before, x: Bucket, bs: seq<Bucket>)
    requires Orders(before) && SortedBy(before, bs) && forall i :: 0 <= i < |bs| ==> bs[i].key != x.key
    ensures SortedBy(before, InsertBy(before, x, bs))
  {
    if bs != [] {
      if before(bs[0], x) {
        InsertBySorted(before, x, bs[1..]);
        var rest := InsertBy(before, x, bs[1..]);
        forall j | 0 <= j < |rest| ensures before(bs[0], rest[j]) {
          InsertByMember(before, x, bs[1..], rest[j]);
        }
      } else {
        assert before(x, bs[0]);
        forall j | 0 <= j < |bs| ensures before(x, bs[j]) {
          if j > 0 { assert before(bs[0], bs[j]); }
        }
      }
    }
  }

  lemma {:induction false} InsertByDistinct(before: Before, x: Bucket, bs: seq<Bucket>)
    requires DistinctBuckets(bs) && forall i :: 0 <= i < |bs| ==> bs[i].key != x.key
    ensures DistinctBuckets(InsertBy(before, x, bs))
  {
    if bs != [] && before(bs[0], x) {
      InsertByDistinct(before, x, bs[1..]);
      var rest := InsertBy(before, x, bs[1..]);
      forall j | 0 <= j < |rest| ensures rest[j].key != bs[0].key {
        InsertByMember(before, x, bs[1..], rest[j]);
      }
    }
  }

  /** Sorting is a permutation into order. */
  lemma {:induction false} SortByCorrect(before: Before, bs: seq<Bucket>)
    requires Orders(before) && DistinctBuckets(bs)
    ensures SortedBy(before, SortBy(before, bs)) && DistinctBuckets(SortBy(before, bs))
    ensures multiset(SortBy(before, bs)) == multiset(bs)
    ensures TotalCents(SortBy(before, bs)) == TotalCents(bs) && TotalCount(SortBy(before, bs)) == TotalCount(bs)
  {
    SortByKeeps(before, bs);
    if bs != [] {
      var rest := SortBy(before, bs[1..]);
      SortByCorrect(before, bs[1..]);
      OthersDiffer(bs, rest);
      InsertBySorted(before, bs[0], rest);
      InsertByDistinct(before, bs[0], rest);
    }
  }

  lemma {:induction false} SortByKeeps(before: Before, bs: seq<Bucket>)
    ensures multiset(SortBy(before, bs)) == multiset(bs)
    ensures TotalCents(SortBy(before, bs)) == TotalCents(bs) && TotalCount(SortBy(before, bs)) == TotalCount(bs)
  {
    if bs != [] {
      SortByKeeps(before, bs[1..]);
      InsertByKeeps(before, bs[0], SortBy(before, bs[1..]));
      Text.HeadTail(bs);
    }
  }

  lemma OthersDiffer(bs: seq<Bucket>, rest: seq<Bucket>)
    requires bs != [] && DistinctBuckets(bs) && multiset(rest) == multiset(bs[1..])
    ensures forall i :: 0 <= i < |rest| ==> rest[i].key != bs[0].key
  {
    forall i | 0 <= i < |rest| ensures rest[i].key != bs[0].key {
      assert rest[i] in multiset(rest) && rest[i] in bs[1..];
    }
  }

  lemma CostlierOrder(a: Bucket, b: Bucket, c: Bucket)
    ensures Costlier()(a, b) && Costlier()(b, c) ==> Costlier()(a, c)
    ensures a.key != b.key ==> Costlier()(a, b) || Costlier()(b, a)
  {
    KeyOrder(a.key, b.key, c.key);
    KeyOrder(b.key, a.key, c.key);
  }

  /** The provider list puts the larger spend first, and equal spends in code point order. */
  lemma CostlierExact(a: Bucket, b: Bucket)
    ensures Costlier()(a, b) <==>
      b.cents < a.cents || (a.cents == b.cents && Precedes(CodePoints(a.key), CodePoints(b.key)))
    ensures LaterDay()(a, b) <==> Precedes(CodePoints(b.key), CodePoints(a.key))
  {
    Utf8OrderIsCodePointOrder(a.key, b.key);
    Utf8OrderIsCodePointOrder(b.key, a.key);
    CompareExact(CodePoints(a.key), CodePoints(b.key));
    CompareExact(CodePoints(b.key), CodePoints(a.key));
  }

  /** A receipt is booked under its provider, or under its verb when it names none. */
  lemma ProviderExact(r: Loaded, name: string)
    ensures Provider(r) == name <==> r.body.provider == Some(name) || (r.body.provider == None && r.body.verb == name)
  {
  }

  lemma LaterDayOrder(a: Bucket, b: Bucket, c: Bucket)
    ensures LaterDay()(a, b) && LaterDay()(b, c) ==> LaterDay()(a, c)
    ensures a.key != b.key ==> LaterDay()(a, b) || LaterDay()(b, a)
  {
    KeyOrder(c.key, b.key, a.key);
    KeyOrder(a.key, b.key, c.key);
    KeyOrder(b.key, a.key, c.key);
  }

  lemma OrdersOfReports()
    ensures Orders(Costlier()) && Orders(LaterDay())
  {
    var x := Bucket("", 0, 0);
    forall a: Bucket, b: Bucket, c: Bucket ensures Costlier()(a, b) && Costlier()(b, c) ==> Costlier()(a, c) {
      CostlierOrder(a, b, c);
    }
    forall a: Bucket, b: Bucket ensures a.key != b.key ==> Costlier()(a, b) || Costlier()(b, a) {
      CostlierOrder(a, b, x);
    }
    forall a: Bucket, b: Bucket, c: Bucket ensures LaterDay()(a, b) && LaterDay()(b, c) ==> LaterDay()(a, c) {
      LaterDayOrder(a, b, c);
    }
    forall a: Bucket, b: Bucket ensures a.key != b.key ==> LaterDay()(a, b) || LaterDay()(b, a) {
      LaterDayOrder(a, b, x);
    }
  }

  // ---------------------------------------------------------------- the report

  /** THE ROLL-UPS CONSERVE SPEND: for every receipt list the total is the saturated sum of
      the provider buckets and of the day buckets, the bucket counts add up to the number of
      receipts, and both lists are permutations of the exact buckets in their order. */
  lemma RollUpsConserve(key: KeyOf, before: Before, rs: seq<Loaded>)
    requires before == Costlier() || before == LaterDay()
    ensures
      var list := SortBy(before, Buckets(key, rs));
      && Sat(TotalCents(list)) == Sat(SpendWhere(All(), rs)) && TotalCount(list) == |rs|
      && SortedBy(before, list) && DistinctBuckets(list) && multiset(list) == multiset(Buckets(key, rs))
  {
    BucketTotals(key, rs);
    BucketsAscending(key, rs);
    OrdersOfReports();
    var bs := Buckets(key, rs);
    forall i, j | 0 <= i < j < |bs| ensures bs[i].key != bs[j].key {
      KeyOrder(bs[i].key, bs[j].key, "");
    }
    SortByCorrect(before, bs);
  }

  lemma {:induction false} SpendMonotone(p: Filter, q: Filter, rs: seq<Loaded>)
    requires forall i :: 0 <= i < |rs| && p(rs[i]) ==> q(rs[i])
    ensures SpendWhere(p, rs) <= SpendWhere(q, rs)
  {
    if rs != [] { SpendMonotone(p, q, rs[..|rs| - 1]); }
  }

  /** The calendar names days, not longer spans, and no day by the fallback's form. */
  ghost predicate NamesDays(calendar: Calendar) {
    && (forall a, b :: calendar(a).Some? && calendar(a) == calendar(b) ==> a / DAY_MS == b / DAY_MS)
    && (forall a :: calendar(a).Some? ==> !("day-" <= calendar(a).value))
  }

  /** Two instants with the same day label are less than a day apart, also where the label is
      the fallback and where the cast to `i64` wraps. */
  lemma SameLabelSameDay(calendar: Calendar, a: u64, b: u64)
    requires NamesDays(calendar) && DayOf(calendar, a) == DayOf(calendar, b)
    ensures b - a < DAY_MS
  {
    LabelKind(calendar, a);
    LabelKind(calendar, b);
    if calendar(AsI64(a)).None? {
      FallbackInjective(a / DAY_MS, b / DAY_MS);
      DayApart(a, b);
    } else {
      assert AsI64(a) / DAY_MS == AsI64(b) / DAY_MS;
      DayApart(AsI64(a), AsI64(b));
    }
  }

  lemma DayApart(a: int, b: int)
    requires a / DAY_MS == b / DAY_MS
    ensures -DAY_MS < b - a < DAY_MS
  {
  }

  lemma LabelKind(calendar: Calendar, ms: u64)
    requires NamesDays(calendar)
    ensures calendar(AsI64(ms)).None? <==> "day-" <= DayOf(calendar, ms)
  {
    if calendar(AsI64(ms)).None? {
      assert DayOf(calendar, ms)[..4] == "day-";
    }
  }

  lemma FallbackInjective(m: nat, n: nat)
    requires "day-" + Text.NatText(m) == "day-" + Text.NatText(n)
    ensures m == n
  {
    assert ("day-" + Text.NatText(m))[4..] == Text.NatText(m);
    assert ("day-" + Text.NatText(n))[4..] == Text.NatText(n);
    Text.NatTextValue(m);
    Text.NatTextValue(n);
  }

  /** Today's spend is within the last seven days', that within the last thirty days', and
      that within the total, for every list of receipts and every clock. */
  lemma WindowsNest(calendar: Calendar, rs: seq<Loaded>, now: u64)
    requires NamesDays(calendar)
    ensures
      Sat(SpendWhere(Today(calendar, now), rs)) <= Sat(SpendWhere(Within(now, 7), rs))
        <= Sat(SpendWhere(Within(now, 30), rs)) <= Sat(SpendWhere(All(), rs))
  {
    forall i | 0 <= i < |rs| && Today(calendar, now)(rs[i])
      ensures Within(now, 7)(rs[i])
    {
      SameLabelSameDay(calendar, rs[i].body.issuedAt, now);
    }
    SpendMonotone(Today(calendar, now), Within(now, 7), rs);
    SpendMonotone(Within(now, 7), Within(now, 30), rs);
    SpendMonotone(Within(now, 30), All(), rs);
  }
}
