/** Day labels as calendar dates: when their order is the order of the days. */
module DayLabels {
  import opened Basics
  import opened Text
  import opened Unicode
  import opened ReceiptLog
  import opened Costs

  datatype Date = Date(year: int, month: nat, day: nat)

  predicate ValidDate(d: Date) {
    1 <= d.month <= 12 && 1 <= d.day <= 31
  }

  predicate Earlier(a: Date, b: Date) {
    || a.year < b.year
    || (a.year == b.year && (a.month < b.month || (a.month == b.month && a.day < b.day)))
  }

  /** The date of a signed millisecond epoch, within the library's range. */
  type DateOf = int -> Option<Date>

  /** The dates follow the days, one date a day. */
  ghost predicate Chronological(dates: DateOf) {
    && (forall a :: dates(a).Some? ==> ValidDate(dates(a).value))
    && (forall a, b :: dates(a).Some? && dates(b).Some? && a / DAY_MS < b / DAY_MS ==>
          Earlier(dates(a).value, dates(b).value))
    && (forall a, b :: a / DAY_MS == b / DAY_MS ==> dates(a) == dates(b))
  }

  // ---------------------------------------------------------------- `%Y-%m-%d`

  function Two(n: nat): string
    requires n < 100
  {
    [Digit(n / 10), Digit(n % 10)]
  }

  function Four(n: nat): string
    requires n < 10000
  {
    Two(n / 100) + Two(n % 100)
  }

  /** At least four digits. */
  function YearDigits(n: nat): string {
    if n < 10000 then Four(n) else NatText(n)
  }

  /** A year of more than four digits, or before year zero, carries a sign. */
  function Sign(year: int): string {
    if year < 0 then "-" else if year > 9999 then "+" else ""
  }

  function Abs(n: int): nat {
    if n < 0 then -n else n
  }

  function MonthDay(d: Date): string
    requires ValidDate(d)
  {
    Two(d.month) + ("-" + Two(d.day))
  }

  function DateText(d: Date): string
    requires ValidDate(d)
  {
    Sign(d.year) + (YearDigits(Abs(d.year)) + ("-" + MonthDay(d)))
  }

  function CalendarOf(dates: DateOf): Calendar {
    ms => match dates(ms) case Some(d) => if ValidDate(d) then Some(DateText(d)) else None case None => None
  }

  // ---------------------------------------------------------------- labels name days

  lemma TwoValue(n: nat)
    requires n < 100
    ensures AllDigits(Two(n)) && NatValue(Two(n)) == n
  {
    var s := Two(n);
    assert s[..1] == [Digit(n / 10)] && s[..1][..0] == "";
    assert NatValue(s[..1]) == n / 10;
  }

  lemma FourValue(n: nat)
    requires n < 10000
    ensures AllDigits(Four(n)) && NatValue(Four(n)) == n
  {
    var s, hi, lo := Four(n), Two(n / 100), Two(n % 100);
    TwoValue(n / 100);
    assert s[..3] == hi + [lo[0]] && s[..3][..2] == hi;
    assert NatValue(s[..3]) == n / 100 * 10 + n % 100 / 10;
  }

  lemma YearDigitsValue(n: nat)
    ensures AllDigits(YearDigits(n)) && YearDigits(n) != "" && NatValue(YearDigits(n)) == n
  {
    if n < 10000 { FourValue(n); } else { NatTextValue(n); }
  }

  lemma DateTextParts(d: Date)
    requires ValidDate(d)
    ensures
      var digits := YearDigits(Abs(d.year));
      && '-' !in digits && SplitOnce(digits + ['-'] + MonthDay(d), '-') == Some((digits, MonthDay(d)))
      && DateText(d) == Sign(d.year) + (digits + ['-'] + MonthDay(d))
      && digits != "" && IsDigit(digits[0])
  {
    var digits := YearDigits(Abs(d.year));
    YearDigitsValue(Abs(d.year));
    SplitOnceOf(digits, '-', MonthDay(d));
    Associative(digits, "-", MonthDay(d));
  }

  lemma MonthDayInjective(a: Date, b: Date)
    requires ValidDate(a) && ValidDate(b) && MonthDay(a) == MonthDay(b)
    ensures a.month == b.month && a.day == b.day
  {
    assert MonthDay(a)[..2] == Two(a.month) && MonthDay(b)[..2] == Two(b.month);
    assert MonthDay(a)[3..] == Two(a.day) && MonthDay(b)[3..] == Two(b.day);
    TwoValue(a.month);
    TwoValue(b.month);
    TwoValue(a.day);
    TwoValue(b.day);
  }

  lemma SignedTail(d: Date)
    requires ValidDate(d)
    ensures
      var tail := YearDigits(Abs(d.year)) + ['-'] + MonthDay(d);
      && DateText(d) != ""
      && (d.year < 0 ==> DateText(d)[0] == '-' && DateText(d)[1..] == tail)
      && (d.year > 9999 ==> DateText(d)[0] == '+' && DateText(d)[1..] == tail)
      && (0 <= d.year <= 9999 ==> IsDigit(DateText(d)[0]) && DateText(d) == tail)
  {
    DateTextParts(d);
  }

  /** Different dates have different labels. */
  lemma DateTextInjective(a: Date, b: Date)
    requires ValidDate(a) && ValidDate(b) && DateText(a) == DateText(b)
    ensures a == b
  {
    SignedTail(a);
    SignedTail(b);
    DateTextParts(a);
    DateTextParts(b);
    assert YearDigits(Abs(a.year)) == YearDigits(Abs(b.year)) && MonthDay(a) == MonthDay(b);
    YearDigitsValue(Abs(a.year));
    YearDigitsValue(Abs(b.year));
    MonthDayInjective(a, b);
  }

  /** A chronological calendar names days, as the window theorems ask. */
  lemma CalendarNamesDays(dates: DateOf)
    requires Chronological(dates)
    ensures NamesDays(CalendarOf(dates))
  {
    var calendar := CalendarOf(dates);
    forall a, b | calendar(a).Some? && calendar(a) == calendar(b) ensures a / DAY_MS == b / DAY_MS {
      DateTextInjective(dates(a).value, dates(b).value);
    }
    forall a | calendar(a).Some? ensures !("day-" <= calendar(a).value) {
      SignedTail(dates(a).value);
      assert "day-"[0] == 'd';
    }
  }

  // ---------------------------------------------------------------- label order

  lemma KeyCmpCons(c: char, s: string, d: char, t: string)
    requires c as int < 0x80 && d as int < 0x80
    ensures KeyCmp([c] + s, [d] + t) == if c < d then Less else if c > d then Greater else KeyCmp(s, t)
  {
    assert ([c] + s)[1..] == s && ([d] + t)[1..] == t;
    var x, y := Utf8([c] + s), Utf8([d] + t);
    assert x == [c as int] + Utf8(s) && y == [d as int] + Utf8(t);
    assert x[1..] == Utf8(s) && y[1..] == Utf8(t);
  }

  lemma TwoCmp(m: nat, s: string, n: nat, t: string)
    requires m < 100 && n < 100
    ensures KeyCmp(Two(m) + s, Two(n) + t) == if m < n then Less else if m > n then Greater else KeyCmp(s, t)
  {
    assert Two(m) + s == [Digit(m / 10)] + ([Digit(m % 10)] + s);
    assert Two(n) + t == [Digit(n / 10)] + ([Digit(n % 10)] + t);
    KeyCmpCons(Digit(m / 10), [Digit(m % 10)] + s, Digit(n / 10), [Digit(n % 10)] + t);
    KeyCmpCons(Digit(m % 10), s, Digit(n % 10), t);
  }

  lemma FourCmp(m: nat, s: string, n: nat, t: string)
    requires m < 10000 && n < 10000
    ensures KeyCmp(Four(m) + s, Four(n) + t) == if m < n then Less else if m > n then Greater else KeyCmp(s, t)
  {
    Associative(Two(m / 100), Two(m % 100), s);
    Associative(Two(n / 100), Two(n % 100), t);
    TwoCmp(m / 100, Two(m % 100) + s, n / 100, Two(n % 100) + t);
    TwoCmp(m % 100, s, n % 100, t);
  }

  lemma MonthDayCmp(a: Date, b: Date)
    requires ValidDate(a) && ValidDate(b)
    ensures KeyCmp("-" + MonthDay(a), "-" + MonthDay(b)) == Less <==>
      a.month < b.month || (a.month == b.month && a.day < b.day)
  {
    KeyCmpCons('-', MonthDay(a), '-', MonthDay(b));
    TwoCmp(a.month, "-" + Two(a.day), b.month, "-" + Two(b.day));
    KeyCmpCons('-', Two(a.day), '-', Two(b.day));
    assert Two(a.day) + "" == Two(a.day) && Two(b.day) + "" == Two(b.day);
    TwoCmp(a.day, "", b.day, "");
  }

  /** With four-digit years, labels are ordered as their dates. */
  lemma FourDigitOrder(a: Date, b: Date)
    requires ValidDate(a) && ValidDate(b) && 0 <= a.year <= 9999 && 0 <= b.year <= 9999
    ensures KeyCmp(DateText(a), DateText(b)) == Less <==> Earlier(a, b)
  {
    assert DateText(a) == Four(a.year) + ("-" + MonthDay(a)) && DateText(b) == Four(b.year) + ("-" + MonthDay(b));
    FourCmp(a.year, "-" + MonthDay(a), b.year, "-" + MonthDay(b));
    MonthDayCmp(a, b);
  }

  /** The instant lies in a year that prints with four digits, and its cast does not wrap. */
  predicate Plain(dates: DateOf, ms: u64) {
    ms <= I64_MAX && dates(ms).Some? && 0 <= dates(ms).value.year <= 9999
  }

  lemma FirstCharDecides(a: string, b: string)
    requires a != "" && b != "" && a[0] as int < 0x80 && b[0] as int < 0x80 && a[0] != b[0]
    ensures KeyCmp(a, b) == Less <==> a[0] < b[0]
  {
    KeyCmpCons(a[0], a[1..], b[0], b[1..]);
    assert [a[0]] + a[1..] == a && [b[0]] + b[1..] == b;
  }

  /** For two instants of four-digit years the label order is the day order. */
  lemma PlainOrder(dates: DateOf, a: u64, b: u64)
    requires Chronological(dates) && Plain(dates, a) && Plain(dates, b)
    ensures KeyCmp(DayOf(CalendarOf(dates), a), DayOf(CalendarOf(dates), b)) == Less <==> a / DAY_MS < b / DAY_MS
  {
    FourDigitOrder(dates(a).value, dates(b).value);
  }

  // ---------------------------------------------------------------- label order of every pair

  /** The number of decimal digits. */
  function Len(n: nat): nat {
    if n < 10 then 1 else Len(n / 10) + 1
  }

  /** The leading `k` decimal digits of a number that has more. */
  function Lead(n: nat, k: nat): nat {
    if n < 10 || Len(n) <= k then n else Lead(n / 10, k)
  }

  /** The decimal text of `m`, ended, stands before that of `n`: digit by digit from the left,
      the shorter first where it is the start of the longer. `width` is the least number of
      digits printed. */
  predicate DigitsBelow(m: nat, n: nat, width: nat) {
    var k, l := Max(Len(m), width), Max(Len(n), width);
    m != n && if k <= l then m <= Lead(n, k) else Lead(m, l) < n
  }

  function Max(a: nat, b: nat): nat {
    if a < b then b else a
  }

  /** `s` ends a number: nothing follows, or a dash. */
  predicate Ends(s: string) {
    s == "" || s[0] == '-'
  }

  lemma {:induction false} LenOfText(n: nat)
    ensures |NatText(n)| == Len(n)
  {
    if n >= 10 { LenOfText(n / 10); }
  }

  lemma {:induction false} LeadLen(n: nat, k: nat)
    requires 1 <= k
    ensures Len(Lead(n, k)) == if Len(n) <= k then Len(n) else k
  {
    if n >= 10 && Len(n) > k { LeadLen(n / 10, k); }
  }

  /** Numbers with equally many digits are ordered as their texts. */
  lemma {:induction false} SameLenCmp(m: nat, s: string, n: nat, t: string)
    requires Len(m) == Len(n)
    ensures KeyCmp(NatText(m) + s, NatText(n) + t) == if m < n then Less else if m > n then Greater else KeyCmp(s, t)
    decreases m
  {
    if m < 10 {
      LenPositive(n / 10);
      KeyCmpCons(Digit(m), s, Digit(n), t);
    } else {
      LenPositive(m / 10);
      Associative(NatText(m / 10), [Digit(m % 10)], s);
      Associative(NatText(n / 10), [Digit(n % 10)], t);
      SameLenCmp(m / 10, [Digit(m % 10)] + s, n / 10, [Digit(n % 10)] + t);
      KeyCmpCons(Digit(m % 10), s, Digit(n % 10), t);
    }
  }

  /** A number with more than `k` digits is its leading digits and further digits. */
  lemma {:induction false} LeadText(n: nat, k: nat, t: string) returns (more: string)
    requires 1 <= k < Len(n)
    ensures NatText(n) + t == NatText(Lead(n, k)) + more && more != "" && IsDigit(more[0])
  {
    Associative(NatText(n / 10), [Digit(n % 10)], t);
    if Len(n / 10) <= k {
      more := [Digit(n % 10)] + t;
    } else {
      more := LeadText(n / 10, k, [Digit(n % 10)] + t);
    }
  }

  lemma EndsFirst(s: string, more: string)
    requires Ends(s) && more != "" && IsDigit(more[0])
    ensures KeyCmp(s, more) == Less && KeyCmp(more, s) == Greater
  {
    if s == "" {
      HeadTail(more);
      assert Utf8(more) == [more[0] as int] + Utf8(more[1..]);
    } else {
      FirstCharDecides(s, more);
      FirstCharDecides(more, s);
      KeyOrder(more, s, "");
    }
  }

  /** How the texts of two numbers compare. */
  lemma NatCmp(m: nat, s: string, n: nat, t: string)
    requires m != n && Ends(s) && Ends(t)
    ensures KeyCmp(NatText(m) + s, NatText(n) + t) == Less <==> DigitsBelow(m, n, 1)
  {
    LenPositive(m);
    LenPositive(n);
    if Len(m) == Len(n) {
      SameLenCmp(m, s, n, t);
    } else if Len(m) < Len(n) {
      ShorterCmp(m, s, n, t);
    } else {
      ShorterCmp(n, t, m, s);
      KeyOrder(NatText(m) + s, NatText(n) + t, "");
      KeyOrder(NatText(n) + t, NatText(m) + s, "");
    }
  }

  lemma LenPositive(n: nat)
    ensures Len(n) >= 1
  {
  }

  lemma ShorterCmp(m: nat, s: string, n: nat, t: string)
    requires Len(m) < Len(n) && Ends(s)
    ensures KeyCmp(NatText(m) + s, NatText(n) + t) == if m <= Lead(n, Len(m)) then Less else Greater
  {
    LenPositive(m);
    var more := LeadText(n, Len(m), t);
    LeadLen(n, Len(m));
    SameLenCmp(m, s, Lead(n, Len(m)), more);
    EndsFirst(s, more);
  }

  // ---------------------------------------------------------------- years

  lemma LenFour(n: nat)
    ensures n < 10000 <==> Len(n) <= 4
    ensures 1000 <= n < 10000 ==> Len(n) == 4
  {
    assert Len(n) == if n < 10 then 1 else Len(n / 10) + 1;
    assert Len(n / 10) == if n / 10 < 10 then 1 else Len(n / 10 / 10) + 1;
    assert Len(n / 10 / 10) == if n / 10 / 10 < 10 then 1 else Len(n / 10 / 10 / 10) + 1;
    assert Len(n / 10 / 10 / 10) == if n / 10 / 10 / 10 < 10 then 1 else Len(n / 10 / 10 / 10 / 10) + 1;
    LenPositive(n / 10 / 10 / 10 / 10);
    assert n / 10 / 10 / 10 == n / 1000 && n / 10 / 10 == n / 100;
  }

  lemma FourText(n: nat)
    requires 1000 <= n < 10000
    ensures NatText(n) == Four(n)
  {
    var a, b, c := n / 10, n / 10 / 10, n / 10 / 10 / 10;
    assert NatText(c) == [Digit(c)] && NatText(b) == NatText(c) + [Digit(b % 10)];
    assert NatText(a) == NatText(b) + [Digit(a % 10)] && NatText(n) == NatText(a) + [Digit(n % 10)];
    assert n / 100 == b && n / 100 / 10 == c && n % 100 / 10 == a % 10 && n % 100 % 10 == n % 10;
  }

  /** A year of at least five digits is a year of four and further digits. */
  lemma LongYear(n: nat, t: string) returns (more: string)
    requires n >= 10000
    ensures Lead(n, 4) < 10000 && NatText(n) + t == Four(Lead(n, 4)) + more && more != "" && IsDigit(more[0])
  {
    LenFour(n);
    more := LeadText(n, 4, t);
    LeadLen(n, 4);
    LenFour(Lead(n, 4));
    LeadPositive(n, 4);
    FourText(Lead(n, 4));
  }

  lemma {:induction false} LeadPositive(n: nat, k: nat)
    requires 4 <= k && n >= 1000
    ensures Lead(n, k) >= 1000
  {
    if n >= 10 && Len(n) > k {
      LenFour(n);
      LeadPositive(n / 10, k);
    }
  }

  lemma YearCmp(m: nat, s: string, n: nat, t: string)
    requires m != n && Ends(s) && Ends(t)
    ensures KeyCmp(YearDigits(m) + s, YearDigits(n) + t) == Less <==> DigitsBelow(m, n, 4)
  {
    LenFour(m);
    LenFour(n);
    if m < 10000 && n < 10000 {
      FourCmp(m, s, n, t);
    } else if m >= 10000 && n >= 10000 {
      NatCmp(m, s, n, t);
    } else if m < 10000 {
      var more := LongYear(n, t);
      FourCmp(m, s, Lead(n, 4), more);
      EndsFirst(s, more);
    } else {
      var more := LongYear(m, s);
      FourCmp(Lead(m, 4), more, n, t);
      EndsFirst(t, more);
    }
  }

  // ---------------------------------------------------------------- the order of labels

  /** Labels fall into four kinds by their first character, in this order. */
  datatype Kind = LongYears | YearsBefore | FourDigitYears | DayNumbers

  function KindOf(d: Option<Date>): Kind {
    if d.None? then DayNumbers
    else if d.value.year > 9999 then LongYears
    else if d.value.year < 0 then YearsBefore
    else FourDigitYears
  }

  function Rank(k: Kind): nat {
    match k
    case LongYears => 0
    case YearsBefore => 1
    case FourDigitYears => 2
    case DayNumbers => 3
  }

  /** Whether the label of `a` stands before that of `b`, by kind and then by number: within one
      kind years are compared without their sign, digit by digit from the left. */
  predicate LabelBelow(dates: DateOf, a: u64, b: u64) {
    var d, e := dates(AsI64(a)), dates(AsI64(b));
    if KindOf(d) != KindOf(e) then Rank(KindOf(d)) < Rank(KindOf(e))
    else if d.None? then DigitsBelow(a / DAY_MS, b / DAY_MS, 1)
    else if d.value.year != e.value.year then DigitsBelow(Abs(d.value.year), Abs(e.value.year), 4)
    else d.value.month < e.value.month || (d.value.month == e.value.month && d.value.day < e.value.day)
  }

  lemma KindChar(dates: DateOf, ms: u64)
    requires Chronological(dates)
    ensures
      var text, k := DayOf(CalendarOf(dates), ms), KindOf(dates(AsI64(ms)));
      text != "" &&
      match k
      case LongYears => text[0] == '+'
      case YearsBefore => text[0] == '-'
      case FourDigitYears => IsDigit(text[0])
      case DayNumbers => text[0] == 'd'
  {
    if dates(AsI64(ms)).Some? { SignedTail(dates(AsI64(ms)).value); }
  }

  lemma KindsDecide(dates: DateOf, a: u64, b: u64)
    requires Chronological(dates) && KindOf(dates(AsI64(a))) != KindOf(dates(AsI64(b)))
    ensures KeyCmp(DayOf(CalendarOf(dates), a), DayOf(CalendarOf(dates), b)) == Less <==> LabelBelow(dates, a, b)
  {
    KindChar(dates, a);
    KindChar(dates, b);
    FirstCharDecides(DayOf(CalendarOf(dates), a), DayOf(CalendarOf(dates), b));
  }

  /** A common start does not matter. */
  lemma {:induction false} CommonStart(p: string, s: string, t: string)
    requires forall i :: 0 <= i < |p| ==> p[i] as int < 0x80
    ensures KeyCmp(p + s, p + t) == KeyCmp(s, t)
  {
    if p == "" {
      assert p + s == s && p + t == t;
    } else {
      CommonStart(p[1..], s, t);
      HeadTail(p);
      Associative([p[0]], p[1..], s);
      Associative([p[0]], p[1..], t);
      KeyCmpCons(p[0], p[1..] + s, p[0], p[1..] + t);
    }
  }

  lemma DatesCompare(d: Date, e: Date)
    requires ValidDate(d) && ValidDate(e) && KindOf(Some(d)) == KindOf(Some(e))
    ensures KeyCmp(DateText(d), DateText(e)) == Less <==>
      if d.year != e.year then DigitsBelow(Abs(d.year), Abs(e.year), 4)
      else d.month < e.month || (d.month == e.month && d.day < e.day)
  {
    var s, t := "-" + MonthDay(d), "-" + MonthDay(e);
    CommonStart(Sign(d.year), YearDigits(Abs(d.year)) + s, YearDigits(Abs(e.year)) + t);
    if d.year != e.year {
      YearCmp(Abs(d.year), s, Abs(e.year), t);
    } else {
      YearDigitsValue(Abs(d.year));
      CommonStart(YearDigits(Abs(d.year)), s, t);
      MonthDayCmp(d, e);
    }
  }

  lemma DayNumbersCompare(m: nat, n: nat)
    ensures KeyCmp("day-" + NatText(m), "day-" + NatText(n)) == Less <==> DigitsBelow(m, n, 1)
  {
    CommonStart("day-", NatText(m), NatText(n));
    if m == n {
      KeyOrder(NatText(m), NatText(n), "");
    } else {
      assert NatText(m) + "" == NatText(m) && NatText(n) + "" == NatText(n);
      NatCmp(m, "", n, "");
    }
  }

  /** THE ORDER OF LABELS, for every two instants: which label stands first is decided by the
      dates, or by the day numbers where there is no date. */
  lemma LabelOrderIff(dates: DateOf, a: u64, b: u64)
    requires Chronological(dates)
    ensures KeyCmp(DayOf(CalendarOf(dates), a), DayOf(CalendarOf(dates), b)) == Less <==> LabelBelow(dates, a, b)
  {
    var d, e := dates(AsI64(a)), dates(AsI64(b));
    if KindOf(d) != KindOf(e) {
      KindsDecide(dates, a, b);
    } else if d.Some? {
      DatesCompare(d.value, e.value);
    } else {
      DayNumbersCompare(a / DAY_MS, b / DAY_MS);
    }
  }

  /** WHEN LABELS FOLLOW TIME, for every two instants of different days: the later label belongs
      to the later day iff `LabelBelow` holds of the two; for four-digit years it always does. */
  lemma LabelsFollowTimeIff(dates: DateOf, a: u64, b: u64)
    requires Chronological(dates) && a / DAY_MS < b / DAY_MS
    ensures
      var calendar := CalendarOf(dates);
      LaterDay()(Bucket(DayOf(calendar, b), 0, 0), Bucket(DayOf(calendar, a), 0, 0)) <==> LabelBelow(dates, a, b)
    ensures Plain(dates, a) && Plain(dates, b) ==> LabelBelow(dates, a, b)
  {
    LabelOrderIff(dates, a, b);
    if Plain(dates, a) && Plain(dates, b) { PlainOrder(dates, a, b); }
  }

  /** A receipt of the year 10000 is listed below one of 1970. */
  lemma YearTenThousandListedLast(dates: DateOf, far: u64)
    requires Chronological(dates)
    requires dates(0) == Some(Date(1970, 1, 1)) && far <= I64_MAX && dates(far) == Some(Date(10000, 1, 1))
    ensures KeyCmp(DayOf(CalendarOf(dates), far), DayOf(CalendarOf(dates), 0)) == Less
  {
    var x, y := DayOf(CalendarOf(dates), far), DayOf(CalendarOf(dates), 0);
    SignedTail(Date(10000, 1, 1));
    SignedTail(Date(1970, 1, 1));
    FirstCharDecides(x, y);
  }

  /** MOST RECENT DAY FIRST: for receipts of four-digit years, every day listed before another
      is the later day. */
  lemma DaysDescend(dates: DateOf, rs: seq<Loaded>, i: nat, j: nat, m: nat, n: nat)
    requires Chronological(dates) && forall k :: 0 <= k < |rs| ==> Plain(dates, rs[k].body.issuedAt)
    requires i < j < |SortBy(LaterDay(), Buckets(Day(CalendarOf(dates)), rs))| && m < |rs| && n < |rs|
    requires
      var list := SortBy(LaterDay(), Buckets(Day(CalendarOf(dates)), rs));
      DayOf(CalendarOf(dates), rs[m].body.issuedAt) == list[i].key &&
      DayOf(CalendarOf(dates), rs[n].body.issuedAt) == list[j].key
    ensures rs[n].body.issuedAt / DAY_MS < rs[m].body.issuedAt / DAY_MS
  {
    RollUpsConserve(Day(CalendarOf(dates)), LaterDay(), rs);
    var list := SortBy(LaterDay(), Buckets(Day(CalendarOf(dates)), rs));
    assert LaterDay()(list[i], list[j]);
    PlainOrder(dates, rs[n].body.issuedAt, rs[m].body.issuedAt);
  }

  /** A receipt of the year 100000 is listed below one of the year before it. */
  lemma YearHundredThousandListedBelow(dates: DateOf, a: u64, b: u64)
    requires Chronological(dates) && a < b <= I64_MAX
    requires dates(a) == Some(Date(99999, 12, 31)) && dates(b) == Some(Date(100000, 1, 1))
    ensures KeyCmp(DayOf(CalendarOf(dates), b), DayOf(CalendarOf(dates), a)) == Less
  {
    LabelOrderIff(dates, b, a);
    assert Len(99999) == 5 by { LenOfFive(99999); }
    assert Len(100000) == 6 by { LenOfFive(100000 / 10); }
    assert Lead(100000, 5) == 10000 by { LenOfFive(10000); }
  }

  lemma LenOfFive(n: nat)
    requires 10000 <= n < 100000
    ensures Len(n) == 5
  {
    LenFour(n / 10);
  }
}
