/** The canonical-form theorem: equal bytes exactly for equal content. */
module JcsCanonical {
  import opened Basics
  import opened Json
  import opened Unicode
  import opened Jcs

  /** Object keys are distinct at every level, as in a `serde_json` map. */
  predicate WellFormed(v: Value) {
    match v
    case Arr(items) => forall i :: 0 <= i < |items| ==> WellFormed(items[i])
    case Obj(ms) => DistinctKeys(ms) && forall i :: 0 <= i < |ms| ==> WellFormed(ms[i].value)
    case _ => true
  }

  ghost function Keys(ms: seq<Member>): set<string> {
    set i | 0 <= i < |ms| :: ms[i].key
  }

  ghost function ValueAt(ms: seq<Member>, key: string): Value
    requires key in Keys(ms)
  {
    var i :| 0 <= i < |ms| && ms[i].key == key;
    ms[i].value
  }

  /** Equality of JSON values as data: objects agree when they have the same keys and the
      same content under each key, in whatever order their members stand. */
  ghost predicate SameContent(v: Value, w: Value) {
    match (v, w)
    case (Arr(a), Arr(b)) => |a| == |b| && forall i :: 0 <= i < |a| ==> SameContent(a[i], b[i])
    case (Obj(a), Obj(b)) =>
      && Keys(a) == Keys(b)
      && forall i :: 0 <= i < |a| ==> a[i].key in Keys(b) && SameContent(a[i].value, ValueAt(b, a[i].key))
    case (_, _) => v == w
  }

  lemma IndexOf(ms: seq<Member>, key: string) returns (i: nat)
    requires DistinctKeys(ms) && key in Keys(ms)
    ensures i < |ms| && ms[i].key == key && ms[i].value == ValueAt(ms, key)
  {
    i :| 0 <= i < |ms| && ms[i].key == key && ms[i].value == ValueAt(ms, key);
  }

  function NormalMember(m: Member): Member {
    Member(m.key, Normalize(m.value))
  }

  lemma NormalizedHas(ms: seq<Member>, i: nat)
    requires i < |ms|
    ensures NormalMember(ms[i]) in Sort(NormalizeMembers(ms))
  {
    NormalizeMembersAt(ms, i);
    SortElements(NormalizeMembers(ms), NormalMember(ms[i]));
  }

  lemma NormalizedFrom(ms: seq<Member>, x: Member) returns (i: nat)
    requires x in Sort(NormalizeMembers(ms))
    ensures i < |ms| && x == NormalMember(ms[i])
  {
    var n := NormalizeMembers(ms);
    SortElements(n, x);
    i :| 0 <= i < |n| && n[i] == x;
    if ms != [] { NormalizeMembersAt(ms, 0); }
    NormalizeMembersAt(ms, i);
  }

  lemma NormalizedAscending(ms: seq<Member>)
    requires DistinctKeys(ms)
    ensures Ascending(Sort(NormalizeMembers(ms)))
  {
    var n := NormalizeMembers(ms);
    if ms != [] { NormalizeMembersAt(ms, 0); }
    forall i, j | 0 <= i < j < |n|
      ensures n[i].key != n[j].key
    {
      NormalizeMembersAt(ms, i);
      NormalizeMembersAt(ms, j);
    }
    SortAscending(n);
  }

  /** Every object of the value lists its keys in strictly increasing UTF-16 order. */
  predicate Ordered(v: Value) {
    match v
    case Arr(items) => forall i :: 0 <= i < |items| ==> Ordered(items[i])
    case Obj(ms) => KeysIncrease(ms) && forall i :: 0 <= i < |ms| ==> Ordered(ms[i].value)
    case _ => true
  }

  /** What is rendered has its keys strictly increasing at every level. */
  lemma {:induction false} NormalizeOrdered(v: Value)
    requires WellFormed(v)
    ensures Ordered(Normalize(v))
  {
    match v {
      case Arr(items) =>
        if items != [] { NormalizeItemsAt(items, 0); }
        forall i | 0 <= i < |items|
          ensures Ordered(NormalizeItems(items)[i]) && |NormalizeItems(items)| == |items|
        {
          NormalizeItemsAt(items, i);
          NormalizeOrdered(items[i]);
        }
      case Obj(ms) =>
        NormalizedAscending(ms);
        var sorted := Sort(NormalizeMembers(ms));
        AscendingIncreases(sorted);
        forall k | 0 <= k < |sorted|
          ensures Ordered(sorted[k].value)
        {
          var i := NormalizedFrom(ms, sorted[k]);
          NormalizeOrdered(ms[i].value);
        }
      case _ =>
    }
  }

  lemma {:induction false} SameContentNormalizes(v: Value, w: Value)
    requires WellFormed(v) && WellFormed(w) && SameContent(v, w)
    ensures Normalize(v) == Normalize(w)
    decreases v, 1
  {
    match (v, w) {
      case (Arr(a), Arr(b)) =>
        if a != [] { NormalizeItemsAt(a, 0); NormalizeItemsAt(b, 0); }
        forall i | 0 <= i < |a|
          ensures |NormalizeItems(a)| == |a| == |NormalizeItems(b)| && NormalizeItems(a)[i] == NormalizeItems(b)[i]
        {
          NormalizeItemsAt(a, i);
          NormalizeItemsAt(b, i);
          SameContentNormalizes(a[i], b[i]);
        }
      case (Obj(a), Obj(b)) =>
        NormalizedAscending(a);
        NormalizedAscending(b);
        forall x
          ensures x in Sort(NormalizeMembers(a)) <==> x in Sort(NormalizeMembers(b))
        {
          if x in Sort(NormalizeMembers(a)) {
            var i := NormalizedFrom(a, x);
            var j := SameMembers(v, w, i);
            NormalizedHas(b, j);
          }
          if x in Sort(NormalizeMembers(b)) {
            var k := NormalizedFrom(b, x);
            assert b[k].key in Keys(b);
            var i := IndexOf(a, b[k].key);
            var j := SameMembers(v, w, i);
            assert j == k;
            NormalizedHas(a, i);
          }
        }
        AscendingUnique(Sort(NormalizeMembers(a)), Sort(NormalizeMembers(b)));
      case _ =>
    }
  }

  /** The members of two objects with the same content normalise alike. */
  lemma {:induction false} SameMembers(v: Value, w: Value, i: nat) returns (j: nat)
    requires v.Obj? && w.Obj? && WellFormed(v) && WellFormed(w) && SameContent(v, w)
    requires i < |v.members|
    ensures j < |w.members| && NormalMember(v.members[i]) == NormalMember(w.members[j])
    decreases v, 0
  {
    var m := v.members[i];
    j := IndexOf(w.members, m.key);
    assert WellFormed(m.value) && WellFormed(w.members[j].value);
    SameContentNormalizes(m.value, w.members[j].value);
  }

  lemma {:induction false} NormalizesSameContent(v: Value, w: Value)
    requires WellFormed(v) && WellFormed(w) && Normalize(v) == Normalize(w)
    ensures SameContent(v, w)
    decreases v, 1
  {
    match (v, w) {
      case (Arr(a), Arr(b)) => SameItems(v, w);
      case (Obj(a), Obj(b)) =>
        NormalizedKeys(a, b);
        NormalizedKeys(b, a);
        forall i | 0 <= i < |a|
          ensures a[i].key in Keys(b) && SameContent(a[i].value, ValueAt(b, a[i].key))
        {
          SameValue(v, w, i);
        }
      case _ =>
    }
  }

  lemma NormalizedKeys(a: seq<Member>, b: seq<Member>)
    requires Sort(NormalizeMembers(a)) == Sort(NormalizeMembers(b))
    ensures Keys(a) <= Keys(b)
  {
    forall k | k in Keys(a)
      ensures k in Keys(b)
    {
      var i :| 0 <= i < |a| && a[i].key == k;
      NormalizedHas(a, i);
      var j := NormalizedFrom(b, NormalMember(a[i]));
      assert b[j].key == k;
    }
  }

  lemma {:induction false} SameValue(v: Value, w: Value, i: nat)
    requires v.Obj? && w.Obj? && WellFormed(v) && WellFormed(w) && Normalize(v) == Normalize(w)
    requires i < |v.members|
    ensures v.members[i].key in Keys(w.members)
    ensures SameContent(v.members[i].value, ValueAt(w.members, v.members[i].key))
    decreases v, 0
  {
    NormalizedHas(v.members, i);
    var j := NormalizedFrom(w.members, NormalMember(v.members[i]));
    assert w.members[j].key in Keys(w.members);
    var k := IndexOf(w.members, w.members[j].key);
    assert k == j;
    assert WellFormed(v.members[i].value) && WellFormed(w.members[j].value);
    NormalizesSameContent(v.members[i].value, w.members[j].value);
  }

  lemma {:induction false} SameItems(v: Value, w: Value)
    requires v.Arr? && w.Arr? && WellFormed(v) && WellFormed(w) && Normalize(v) == Normalize(w)
    ensures SameContent(v, w)
    decreases v, 0
  {
    var a, b := v.items, w.items;
    if a != [] { NormalizeItemsAt(a, 0); }
    if b != [] { NormalizeItemsAt(b, 0); }
    assert |a| == |b|;
    forall i | 0 <= i < |a|
      ensures SameContent(a[i], b[i])
    {
      NormalizeItemsAt(a, i);
      NormalizeItemsAt(b, i);
      NormalizesSameContent(a[i], b[i]);
    }
  }

  /** A reader recovers from the canonical text the value with its members in order. */
  lemma CanonicalReadsBack(v: Value)
    ensures Parse(Canonical(v)) == Some(Normalize(v))
    ensures WellFormed(v) ==> Ordered(Normalize(v))
  {
    ParsePrint(Normalize(v));
    if WellFormed(v) { NormalizeOrdered(v); }
  }

  /** THE CANONICAL FORM: two values have the same canonical bytes iff they are the same data. */
  lemma CanonicalBytesIffSameContent(v: Value, w: Value)
    requires WellFormed(v) && WellFormed(w)
    ensures Utf8(Canonical(v)) == Utf8(Canonical(w)) <==> SameContent(v, w)
  {
    if Utf8(Canonical(v)) == Utf8(Canonical(w)) {
      Utf8Injective(Canonical(v), Canonical(w));
      ParsePrint(Normalize(v));
      ParsePrint(Normalize(w));
      NormalizesSameContent(v, w);
    }
    if SameContent(v, w) { SameContentNormalizes(v, w); }
  }
}
