/** RFC 8785 canonical JSON: members sorted by UTF-16 code units at every level, then
    rendered without white space. */
module Jcs {
  import opened Text
  import opened Json
  import opened Unicode

  // ---------------------------------------------------------------- sorting members

  function Insert(m: Member, ms: seq<Member>): seq<Member> {
    if ms == [] then [m]
    else if Utf16Cmp(m.key, ms[0].key) == Greater then [ms[0]] + Insert(m, ms[1..])
    else [m] + ms
  }

  function Sort(ms: seq<Member>): seq<Member> {
    if ms == [] then [] else Insert(ms[0], Sort(ms[1..]))
  }

  predicate Ascending(ms: seq<Member>) {
    forall i, j :: 0 <= i < j < |ms| ==> Utf16Cmp(ms[i].key, ms[j].key) == Less
  }

  /** The UTF-16 units of each key stand before those of every later one. */
  predicate KeysIncrease(ms: seq<Member>) {
    forall i, j :: 0 <= i < j < |ms| ==> Precedes(Utf16(ms[i].key), Utf16(ms[j].key))
  }

  lemma AscendingIncreases(ms: seq<Member>)
    ensures Ascending(ms) <==> KeysIncrease(ms)
  {
    forall i, j | 0 <= i < j < |ms|
      ensures Utf16Cmp(ms[i].key, ms[j].key) == Less <==> Precedes(Utf16(ms[i].key), Utf16(ms[j].key))
    {
      Utf16TotalOrder(ms[i].key, ms[j].key, "");
    }
  }

  predicate DistinctKeys(ms: seq<Member>) {
    forall i, j :: 0 <= i < j < |ms| ==> ms[i].key != ms[j].key
  }

  lemma {:induction false} InsertElements(m: Member, ms: seq<Member>, x: Member)
    ensures |Insert(m, ms)| == |ms| + 1
    ensures x in Insert(m, ms) <==> x == m || x in ms
  {
    if ms != [] {
      assert ms == [ms[0]] + ms[1..];
      if Utf16Cmp(m.key, ms[0].key) == Greater { InsertElements(m, ms[1..], x); }
    }
  }

  lemma {:induction false} SortElements(ms: seq<Member>, x: Member)
    ensures |Sort(ms)| == |ms|
    ensures x in Sort(ms) <==> x in ms
  {
    if ms != [] {
      SortElements(ms[1..], x);
      InsertElements(ms[0], Sort(ms[1..]), x);
      assert ms == [ms[0]] + ms[1..];
    }
  }

  lemma {:induction false} InsertAscending(m: Member, ms: seq<Member>)
    requires Ascending(ms) && forall i :: 0 <= i < |ms| ==> ms[i].key != m.key
    ensures Ascending(Insert(m, ms))
  {
    if ms != [] {
      Utf16TotalOrder(m.key, ms[0].key, "");
      if Utf16Cmp(m.key, ms[0].key) == Greater {
        InsertAscending(m, ms[1..]);
        var rest := Insert(m, ms[1..]);
        Utf16TotalOrder(ms[0].key, m.key, "");
        forall j | 0 <= j < |rest|
          ensures Utf16Cmp(ms[0].key, rest[j].key) == Less
        {
          InsertElements(m, ms[1..], rest[j]);
        }
      } else {
        forall j | 0 <= j < |ms|
          ensures Utf16Cmp(m.key, ms[j].key) == Less
        {
          Utf16TotalOrder(m.key, ms[0].key, ms[j].key);
        }
      }
    }
  }

  lemma {:induction false} SortAscending(ms: seq<Member>)
    requires DistinctKeys(ms)
    ensures Ascending(Sort(ms)) && KeysIncrease(Sort(ms))
  {
    AscendingIncreases(Sort(ms));
    if ms != [] {
      SortAscending(ms[1..]);
      var rest := Sort(ms[1..]);
      forall i | 0 <= i < |rest|
        ensures rest[i].key != ms[0].key
      {
        SortElements(ms[1..], rest[i]);
      }
      InsertAscending(ms[0], rest);
    }
  }

  /** A set of members has one ascending arrangement. */
  lemma {:induction false} AscendingUnique(a: seq<Member>, b: seq<Member>)
    requires Ascending(a) && Ascending(b)
    requires forall x :: x in a <==> x in b
    ensures a == b
  {
    assert b != [] ==> b[0] in b;
    if a != [] {
      assert a[0] in b;
      FirstsEqual(a, b);
      forall x
        ensures x in a[1..] <==> x in b[1..]
      {
        TailMembers(a, x);
        TailMembers(b, x);
      }
      AscendingUnique(a[1..], b[1..]);
      HeadTail(a);
      HeadTail(b);
    }
  }

  lemma FirstsEqual(a: seq<Member>, b: seq<Member>)
    requires Ascending(a) && Ascending(b) && a != [] && b != [] && a[0] in b && b[0] in a
    ensures a[0] == b[0]
  {
    var i :| 0 <= i < |b| && b[i] == a[0];
    var j :| 0 <= j < |a| && a[j] == b[0];
    Utf16TotalOrder(a[0].key, b[0].key, "");
    Utf16TotalOrder(b[0].key, a[0].key, "");
  }

  lemma TailMembers(a: seq<Member>, x: Member)
    requires Ascending(a) && a != []
    ensures x in a[1..] <==> x in a && x != a[0]
  {
    Utf16TotalOrder(a[0].key, a[0].key, "");
    assert a == [a[0]] + a[1..];
  }

  // ---------------------------------------------------------------- the canonical form

  /** Every object's members sorted, at every level. */
  function Normalize(v: Value): Value {
    match v
    case Arr(items) => Arr(NormalizeItems(items))
    case Obj(members) => Obj(Sort(NormalizeMembers(members)))
    case _ => v
  }

  function NormalizeItems(items: seq<Value>): seq<Value> {
    if items == [] then [] else [Normalize(items[0])] + NormalizeItems(items[1..])
  }

  function NormalizeMembers(members: seq<Member>): seq<Member> {
    if members == [] then []
    else [Member(members[0].key, Normalize(members[0].value))] + NormalizeMembers(members[1..])
  }

  function Canonical(v: Value): string {
    Print(Normalize(v))
  }

  lemma {:induction false} NormalizeItemsAt(items: seq<Value>, i: nat)
    requires i < |items|
    ensures |NormalizeItems(items)| == |items| && NormalizeItems(items)[i] == Normalize(items[i])
  {
    if |items| > 1 { NormalizeItemsAt(items[1..], if i == 0 then 0 else i - 1); }
  }

  lemma {:induction false} NormalizeMembersAt(members: seq<Member>, i: nat)
    requires i < |members|
    ensures |NormalizeMembers(members)| == |members|
    ensures NormalizeMembers(members)[i] == Member(members[i].key, Normalize(members[i].value))
  {
    if |members| > 1 { NormalizeMembersAt(members[1..], if i == 0 then 0 else i - 1); }
  }

  // ---------------------------------------------------------------- the writer

  class Output {
    var text: string

    constructor ()
      ensures text == ""
    {
      text := "";
    }

    method Push(s: string)
      modifies this
      ensures text == old(text) + s
    {
      text := text + s;
    }
  }

  lemma {:induction false} EscapeSnoc(s: string, c: char)
    ensures Escape(s + [c]) == Escape(s) + EscapeChar(c)
  {
    if s == "" {
      assert s + [c] == [c];
      assert Escape([c]) == EscapeChar(c) + Escape([c][1..]);
    } else {
      EscapeSnoc(s[1..], c);
      assert (s + [c])[1..] == s[1..] + [c];
      Associative(EscapeChar(s[0]), Escape(s[1..]), EscapeChar(c));
    }
  }

  lemma CommaJoin(a: string, b: string, c: string)
    ensures "," + (a + (b + c)) == "," + (a + b) + c
  {
  }

  lemma {:induction false} MoreSnoc(items: seq<Value>, v: Value)
    ensures PrintMore(items + [v]) == PrintMore(items) + ("," + Print(v))
  {
    if items == [] {
      assert items + [v] == [v] && [v][1..] == [];
      assert PrintMore([v]) == "," + (Print(v) + "");
    } else {
      MoreSnoc(items[1..], v);
      assert (items + [v])[1..] == items[1..] + [v];
      assert (items + [v])[0] == items[0];
      CommaJoin(Print(items[0]), PrintMore(items[1..]), "," + Print(v));
    }
  }

  lemma ItemsSnoc(items: seq<Value>, v: Value)
    ensures PrintItems(items + [v]) == PrintItems(items) + ((if items == [] then "" else ",") + Print(v))
  {
    if items == [] {
      assert items + [v] == [v] && [v][1..] == [];
    } else {
      MoreSnoc(items[1..], v);
      assert (items + [v])[1..] == items[1..] + [v] && (items + [v])[0] == items[0];
      Associative(Print(items[0]), PrintMore(items[1..]), "," + Print(v));
    }
  }

  lemma {:induction false} MoreMembersSnoc(ms: seq<Member>, m: Member)
    ensures PrintMoreMembers(ms + [m]) == PrintMoreMembers(ms) + ("," + PrintMember(m))
  {
    if ms == [] {
      assert ms + [m] == [m] && [m][1..] == [];
      assert PrintMoreMembers([m]) == "," + (PrintMember(m) + "");
    } else {
      MoreMembersSnoc(ms[1..], m);
      assert (ms + [m])[1..] == ms[1..] + [m];
      assert (ms + [m])[0] == ms[0];
      CommaJoin(PrintMember(ms[0]), PrintMoreMembers(ms[1..]), "," + PrintMember(m));
    }
  }

  lemma MembersSnoc(ms: seq<Member>, m: Member)
    ensures PrintMembers(ms + [m]) == PrintMembers(ms) + ((if ms == [] then "" else ",") + PrintMember(m))
  {
    if ms == [] {
      assert ms + [m] == [m] && [m][1..] == [];
    } else {
      MoreMembersSnoc(ms[1..], m);
      assert (ms + [m])[1..] == ms[1..] + [m] && (ms + [m])[0] == ms[0];
      Associative(PrintMember(ms[0]), PrintMoreMembers(ms[1..]), "," + PrintMember(m));
    }
  }

  /** Sorting by key commutes with normalising the values. */
  lemma {:induction false} InsertNormalize(m: Member, ms: seq<Member>)
    ensures NormalizeMembers(Insert(m, ms)) ==
      Insert(Member(m.key, Normalize(m.value)), NormalizeMembers(ms))
  {
    if ms == [] {
      assert [m][1..] == [];
    } else if Utf16Cmp(m.key, ms[0].key) == Greater {
      InsertNormalize(m, ms[1..]);
      assert Insert(m, ms)[1..] == Insert(m, ms[1..]);
      assert NormalizeMembers(ms)[1..] == NormalizeMembers(ms[1..]);
    } else {
      assert Insert(m, ms)[1..] == ms;
    }
  }

  lemma {:induction false} SortNormalize(ms: seq<Member>)
    ensures NormalizeMembers(Sort(ms)) == Sort(NormalizeMembers(ms))
  {
    if ms != [] {
      SortNormalize(ms[1..]);
      InsertNormalize(ms[0], Sort(ms[1..]));
      assert NormalizeMembers(ms)[1..] == NormalizeMembers(ms[1..]);
    }
  }

  lemma EscapeStep(s: string, i: nat)
    requires i < |s|
    ensures Escape(s[..i + 1]) == Escape(s[..i]) + EscapeChar(s[i])
  {
    EscapeSnoc(s[..i], s[i]);
    assert s[..i] + [s[i]] == s[..i + 1];
  }

  method WriteString(s: string, out: Output)
    modifies out
    ensures out.text == old(out.text) + StringText(s)
  {
    Appends(out.text, "\"", Escape(s), "\"", "");
    out.Push("\"");
    ghost var base := out.text;
    for i := 0 to |s|
      invariant out.text == base + Escape(s[..i])
    {
      EscapeStep(s, i);
      Associative(base, Escape(s[..i]), EscapeChar(s[i]));
      out.Push(EscapeChar(s[i]));
    }
    assert s[..|s|] == s;
    out.Push("\"");
  }

  /** The recursive writer appends exactly the canonical form. */
  method WriteValue(v: Value, out: Output)
    modifies out
    ensures out.text == old(out.text) + Canonical(v)
    decreases v, 2
  {
    match v
    case Null => out.Push("null");
    case Bool(b) => out.Push(if b then "true" else "false");
    case Num(n) => out.Push(IntText(n));
    case Str(s) => WriteString(s, out);
    case Arr(items) => WriteArray(items, out);
    case Obj(members) => WriteObject(v, out);
  }

  /** The canonical text of a list of items, without its brackets. */
  function CanonicalItems(items: seq<Value>): string {
    PrintItems(NormalizeItems(items))
  }

  function CanonicalMembers(ms: seq<Member>): string {
    PrintMembers(NormalizeMembers(ms))
  }

  lemma {:induction false} NormalizeItemsSnoc(items: seq<Value>, v: Value)
    ensures NormalizeItems(items + [v]) == NormalizeItems(items) + [Normalize(v)]
  {
    if items == [] {
      assert items + [v] == [v] && [v][1..] == [];
    } else {
      NormalizeItemsSnoc(items[1..], v);
      assert (items + [v])[1..] == items[1..] + [v];
    }
  }

  lemma {:induction false} NormalizeMembersSnoc(ms: seq<Member>, m: Member)
    ensures NormalizeMembers(ms + [m]) == NormalizeMembers(ms) + [Member(m.key, Normalize(m.value))]
  {
    if ms == [] {
      assert ms + [m] == [m] && [m][1..] == [];
    } else {
      NormalizeMembersSnoc(ms[1..], m);
      assert (ms + [m])[1..] == ms[1..] + [m];
    }
  }

  lemma ItemsStep(items: seq<Value>, i: nat)
    requires i < |items|
    ensures CanonicalItems(items[..i + 1]) ==
      CanonicalItems(items[..i]) + ((if i == 0 then "" else ",") + Canonical(items[i]))
  {
    assert items[..i + 1] == items[..i] + [items[i]];
    NormalizeItemsSnoc(items[..i], items[i]);
    if i > 0 { NormalizeItemsAt(items[..i], 0); }
    ItemsSnoc(NormalizeItems(items[..i]), Normalize(items[i]));
  }

  lemma ItemWritten(base: string, items: seq<Value>, i: nat)
    requires i < |items|
    ensures
      var written := base + CanonicalItems(items[..i]);
      base + CanonicalItems(items[..i + 1]) == (if i == 0 then written else written + ",") + Canonical(items[i])
  {
    ItemsStep(items, i);
    var separator := if i == 0 then "" else ",";
    Associative(base, CanonicalItems(items[..i]), separator + Canonical(items[i]));
    Associative(base + CanonicalItems(items[..i]), separator, Canonical(items[i]));
    assert i == 0 ==> base + CanonicalItems(items[..i]) + separator == base + CanonicalItems(items[..i]);
  }

  lemma MembersStep(ms: seq<Member>, i: nat)
    requires i < |ms|
    ensures CanonicalMembers(ms[..i + 1]) ==
      CanonicalMembers(ms[..i]) +
      ((if i == 0 then "" else ",") + PrintMember(Member(ms[i].key, Normalize(ms[i].value))))
  {
    assert ms[..i + 1] == ms[..i] + [ms[i]];
    NormalizeMembersSnoc(ms[..i], ms[i]);
    if i > 0 { NormalizeMembersAt(ms[..i], 0); }
    MembersSnoc(NormalizeMembers(ms[..i]), Member(ms[i].key, Normalize(ms[i].value)));
  }

  method WriteArray(items: seq<Value>, out: Output)
    modifies out
    ensures out.text == old(out.text) + Canonical(Arr(items))
    decreases items, 0
  {
    out.Push("[");
    ghost var base := out.text;
    for i := 0 to |items|
      invariant out.text == base + CanonicalItems(items[..i])
    {
      ItemWritten(base, items, i);
      if i > 0 { out.Push(","); }
      WriteValue(items[i], out);
    }
    assert items[..|items|] == items;
    out.Push("]");
  }

  method WriteObject(v: Value, out: Output)
    requires v.Obj?
    modifies out
    ensures out.text == old(out.text) + Canonical(v)
    decreases v, 1
  {
    var sorted := Sort(v.members);
    forall m | m in sorted ensures m in v.members { SortElements(v.members, m); }
    SortNormalize(v.members);
    out.Push("{");
    WriteMembers(sorted, v, out);
    out.Push("}");
  }

  method WriteMembers(ms: seq<Member>, ghost v: Value, out: Output)
    requires v.Obj? && forall m :: m in ms ==> m in v.members
    modifies out
    ensures out.text == old(out.text) + CanonicalMembers(ms)
    decreases v, 0
  {
    ghost var base := out.text;
    for i := 0 to |ms|
      invariant out.text == base + CanonicalMembers(ms[..i])
    {
      MembersStep(ms, i);
      Associative(base, CanonicalMembers(ms[..i]),
                  (if i == 0 then "" else ",") + PrintMember(Member(ms[i].key, Normalize(ms[i].value))));
      assert ms[i] in v.members;
      WriteMember(ms[i], i == 0, out);
    }
    assert ms[..|ms|] == ms;
  }

  method WriteMember(m: Member, first: bool, out: Output)
    modifies out
    ensures out.text ==
      old(out.text) + ((if first then "" else ",") + PrintMember(Member(m.key, Normalize(m.value))))
    decreases m, 0
  {
    Appends(out.text, if first then "" else ",", StringText(m.key), ":", Canonical(m.value));
    out.Push(if first then "" else ",");
    WriteString(m.key, out);
    out.Push(":");
    WriteValue(m.value, out);
  }

  method ToCanonicalBytes(v: Value) returns (bytes: seq<nat>)
    ensures bytes == Utf8(Canonical(v))
  {
    var out := new Output();
    WriteValue(v, out);
    assert "" + Canonical(v) == Canonical(v);
    bytes := Utf8(out.text);
  }
}
