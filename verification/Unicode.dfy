/** The UTF-16 and UTF-8 encodings of strings, and the order of UTF-16 code units. */
module Unicode {
  import opened Basics

  function Units(c: char): seq<nat> {
    var n := c as int;
    if n < 0x10000 then [n]
    else [0xD800 + (n - 0x10000) / 0x400, 0xDC00 + (n - 0x10000) % 0x400]
  }

  /** `str::encode_utf16` */
  function Utf16(s: string): seq<nat> {
    if s == "" then [] else Units(s[0]) + Utf16(s[1..])
  }

  function Two(n: nat): seq<nat> {
    [0xC0 + n / 0x40, 0x80 + n % 0x40]
  }

  function Three(n: nat): seq<nat> {
    [0xE0 + n / 0x1000, 0x80 + n / 0x40 % 0x40, 0x80 + n % 0x40]
  }

  function Four(n: nat): seq<nat> {
    [0xF0 + n / 0x40000, 0x80 + n / 0x1000 % 0x40, 0x80 + n / 0x40 % 0x40, 0x80 + n % 0x40]
  }

  function Bytes(c: char): seq<nat> {
    var n := c as int;
    if n < 0x80 then [n] else if n < 0x800 then Two(n) else if n < 0x10000 then Three(n) else Four(n)
  }

  /** `String::into_bytes` */
  function Utf8(s: string): seq<nat> {
    if s == "" then [] else Bytes(s[0]) + Utf8(s[1..])
  }

  /** The units of one character are recognised at the front of any unit sequence. */
  lemma UnitsPrefixFree(a: char, b: char, x: seq<nat>, y: seq<nat>)
    requires Units(a) + x == Units(b) + y
    ensures a == b && x == y
  {
    var u, v := Units(a) + x, Units(b) + y;
    assert u[0] == Units(a)[0] && v[0] == Units(b)[0];
    assert |Units(a)| == |Units(b)|;
    if |Units(a)| == 2 {
      assert u[1] == Units(a)[1] && v[1] == Units(b)[1];
    }
    assert a as int == b as int;
    assert x == u[|Units(a)|..] && y == v[|Units(b)|..];
  }

  lemma {:induction false} Utf16Injective(a: string, b: string)
    requires Utf16(a) == Utf16(b)
    ensures a == b
    decreases |a|
  {
    if a != "" && b != "" {
      UnitsPrefixFree(a[0], b[0], Utf16(a[1..]), Utf16(b[1..]));
      Utf16Injective(a[1..], b[1..]);
      assert a == [a[0]] + a[1..] && b == [b[0]] + b[1..];
    }
  }

  lemma BytesPrefixFree(a: char, b: char, x: seq<nat>, y: seq<nat>)
    requires Bytes(a) + x == Bytes(b) + y
    ensures a == b && x == y
  {
    var u, v := Bytes(a) + x, Bytes(b) + y;
    var m, n := a as int, b as int;
    assert u[0] == Bytes(a)[0] && v[0] == Bytes(b)[0];
    assert |Bytes(a)| == |Bytes(b)|;
    assert forall i :: 0 <= i < |Bytes(a)| ==> u[i] == Bytes(a)[i] && v[i] == Bytes(b)[i];
    BytesInjective(a, b);
    assert x == u[|Bytes(a)|..] && y == v[|Bytes(b)|..];
  }

  lemma BytesInjective(a: char, b: char)
    requires |Bytes(a)| == |Bytes(b)| && forall i :: 0 <= i < |Bytes(a)| ==> Bytes(a)[i] == Bytes(b)[i]
    ensures a == b
  {
    var m, n := a as int, b as int;
    assert Bytes(a)[|Bytes(a)| - 1] == Bytes(b)[|Bytes(b)| - 1];
    if |Bytes(a)| >= 2 {
      assert m % 0x40 == n % 0x40;
      assert m / 0x40 == n / 0x40 by {
        assert Bytes(a)[0] == Bytes(b)[0];
        if |Bytes(a)| == 3 {
          assert Bytes(a)[1] == Bytes(b)[1];
          assert m / 0x1000 == m / 0x40 / 0x40 && n / 0x1000 == n / 0x40 / 0x40;
        } else if |Bytes(a)| == 4 {
          assert Bytes(a)[1] == Bytes(b)[1] && Bytes(a)[2] == Bytes(b)[2];
          assert m / 0x1000 == m / 0x40 / 0x40 && n / 0x1000 == n / 0x40 / 0x40;
          assert m / 0x40000 == m / 0x1000 / 0x40 && n / 0x40000 == n / 0x1000 / 0x40;
        }
      }
    }
    assert m == n;
  }

  lemma {:induction false} Utf8Injective(a: string, b: string)
    requires Utf8(a) == Utf8(b)
    ensures a == b
    decreases |a|
  {
    if a != "" && b != "" {
      BytesPrefixFree(a[0], b[0], Utf8(a[1..]), Utf8(b[1..]));
      Utf8Injective(a[1..], b[1..]);
      assert a == [a[0]] + a[1..] && b == [b[0]] + b[1..];
    }
  }

  // ---------------------------------------------------------------- ordering

  datatype Ordering = Less | Equal | Greater

  function Compare(x: seq<nat>, y: seq<nat>): Ordering {
    if x == [] && y == [] then Equal
    else if x == [] then Less
    else if y == [] then Greater
    else if x[0] < y[0] then Less
    else if x[0] > y[0] then Greater
    else Compare(x[1..], y[1..])
  }

  function Utf16Cmp(a: string, b: string): Ordering {
    Compare(Utf16(a), Utf16(b))
  }

  /** `x` stands before `y`: at the first place where they differ `x` is smaller, or `x` is a
      proper start of `y`. */
  predicate Precedes(x: seq<nat>, y: seq<nat>) {
    exists k :: 0 <= k <= |x| && PrecedesAt(x, y, k)
  }

  predicate PrecedesAt(x: seq<nat>, y: seq<nat>, k: nat)
    requires k <= |x|
  {
    k < |y| && x[..k] == y[..k] && (k == |x| || x[k] < y[k])
  }

  lemma PrecedesCons(x: seq<nat>, y: seq<nat>)
    requires x != [] && y != []
    ensures Precedes(x, y) <==> x[0] < y[0] || (x[0] == y[0] && Precedes(x[1..], y[1..]))
  {
    if Precedes(x, y) {
      var k :| 0 <= k <= |x| && PrecedesAt(x, y, k);
      if k > 0 {
        assert x[..k][0] == y[..k][0];
        assert x[1..][..k - 1] == x[..k][1..] && y[1..][..k - 1] == y[..k][1..];
        assert PrecedesAt(x[1..], y[1..], k - 1);
      }
    }
    if x[0] < y[0] { assert PrecedesAt(x, y, 0); }
    if x[0] == y[0] && Precedes(x[1..], y[1..]) {
      var k :| 0 <= k <= |x[1..]| && PrecedesAt(x[1..], y[1..], k);
      assert x[..k + 1] == [x[0]] + x[1..][..k] && y[..k + 1] == [y[0]] + y[1..][..k];
      assert PrecedesAt(x, y, k + 1);
    }
  }

  /** Comparison is the lexicographic order, in its usual direction. */
  lemma {:induction false} CompareExact(x: seq<nat>, y: seq<nat>)
    ensures Compare(x, y) == Less <==> Precedes(x, y)
    ensures Compare(x, y) == Greater <==> Precedes(y, x)
    ensures Compare(x, y) == Equal <==> x == y
  {
    if x == [] || y == [] {
      if x == [] && y != [] { assert PrecedesAt(x, y, 0); }
      if y == [] && x != [] { assert PrecedesAt(y, x, 0); }
    } else {
      PrecedesCons(x, y);
      PrecedesCons(y, x);
      CompareExact(x[1..], y[1..]);
      assert x == [x[0]] + x[1..] && y == [y[0]] + y[1..];
    }
  }

  lemma {:induction false} CompareSymmetric(x: seq<nat>, y: seq<nat>)
    ensures Compare(x, y) == Equal <==> x == y
    ensures Compare(x, y) == Less <==> Compare(y, x) == Greater
  {
    if x != [] && y != [] {
      CompareSymmetric(x[1..], y[1..]);
      assert x == [x[0]] + x[1..] && y == [y[0]] + y[1..];
    }
  }

  lemma {:induction false} CompareTransitive(x: seq<nat>, y: seq<nat>, z: seq<nat>)
    requires Compare(x, y) == Less && Compare(y, z) == Less
    ensures Compare(x, z) == Less
  {
    if x != [] && x[0] == y[0] && y[0] == z[0] {
      CompareTransitive(x[1..], y[1..], z[1..]);
    }
  }

  /** The key order is the lexicographic order of UTF-16 code units and a strict total order on
      strings, not just on their encodings: distinct strings never compare equal. */
  lemma Utf16TotalOrder(a: string, b: string, c: string)
    ensures Utf16Cmp(a, b) == Less <==> Precedes(Utf16(a), Utf16(b))
    ensures Utf16Cmp(a, b) == Equal <==> a == b
    ensures Utf16Cmp(a, b) == Less <==> Utf16Cmp(b, a) == Greater
    ensures Utf16Cmp(a, b) == Less && Utf16Cmp(b, c) == Less ==> Utf16Cmp(a, c) == Less
  {
    CompareExact(Utf16(a), Utf16(b));
    CompareSymmetric(Utf16(a), Utf16(b));
    if Utf16(a) == Utf16(b) { Utf16Injective(a, b); }
    if Utf16Cmp(a, b) == Less && Utf16Cmp(b, c) == Less {
      CompareTransitive(Utf16(a), Utf16(b), Utf16(c));
    }
  }

  // ---------------------------------------------------------------- decoding

  /** A unit below the surrogates or above them is a character; a high and a low surrogate are
      one together. */
  function DecodeUtf16(u: seq<nat>): Option<seq<nat>> {
    if u == [] then Some([])
    else if u[0] < 0xD800 || 0xE000 <= u[0] < 0x10000 then
      var rest :- DecodeUtf16(u[1..]);
      Some([u[0]] + rest)
    else if u[0] < 0xDC00 && |u| > 1 && 0xDC00 <= u[1] < 0xE000 then
      var rest :- DecodeUtf16(u[2..]);
      Some([0x10000 + (u[0] - 0xD800) * 0x400 + (u[1] - 0xDC00)] + rest)
    else None
  }

  predicate Continues(b: nat) {
    0x80 <= b < 0xC0
  }

  /** One character and its number of bytes: the lead byte tells how many continuation bytes
      follow, six bits each. */
  function DecodeChar(u: seq<nat>): (r: Option<(nat, nat)>)
    requires u != []
    ensures r.Some? ==> 0 < r.value.1 <= |u|
  {
    if u[0] < 0x80 then Some((u[0], 1))
    else if 0xC0 <= u[0] < 0xE0 && |u| > 1 && Continues(u[1]) then
      Some(((u[0] - 0xC0) * 0x40 + (u[1] - 0x80), 2))
    else if 0xE0 <= u[0] < 0xF0 && |u| > 2 && Continues(u[1]) && Continues(u[2]) then
      Some((((u[0] - 0xE0) * 0x40 + (u[1] - 0x80)) * 0x40 + (u[2] - 0x80), 3))
    else if 0xF0 <= u[0] < 0xF8 && |u| > 3 && Continues(u[1]) && Continues(u[2]) && Continues(u[3]) then
      Some(((((u[0] - 0xF0) * 0x40 + (u[1] - 0x80)) * 0x40 + (u[2] - 0x80)) * 0x40 + (u[3] - 0x80), 4))
    else None
  }

  function DecodeUtf8(u: seq<nat>): Option<seq<nat>> {
    if u == [] then Some([])
    else
      var c :- DecodeChar(u);
      var rest :- DecodeUtf8(u[c.1..]);
      Some([c.0] + rest)
  }

  function CodePoints(s: string): seq<nat> {
    seq(|s|, i requires 0 <= i < |s| => s[i] as int)
  }

  lemma CodePointsCons(s: string)
    requires s != ""
    ensures CodePoints(s) == [s[0] as int] + CodePoints(s[1..])
  {
  }

  lemma UnitsDecode(c: char, rest: seq<nat>)
    ensures DecodeUtf16(Units(c) + rest) == Before(c as int, DecodeUtf16(rest))
  {
    var n, u := c as int, Units(c) + rest;
    if n < 0x10000 {
      assert u[0] == n && u[1..] == rest;
    } else {
      assert u[0] == 0xD800 + (n - 0x10000) / 0x400 && u[1] == 0xDC00 + (n - 0x10000) % 0x400 && u[2..] == rest;
    }
  }

  /** UTF-16 decoding gives back the code points. */
  lemma {:induction false} Utf16Decodes(s: string)
    ensures DecodeUtf16(Utf16(s)) == Some(CodePoints(s))
  {
    if s == "" {
      assert CodePoints(s) == [];
    } else {
      Utf16Decodes(s[1..]);
      UnitsDecode(s[0], Utf16(s[1..]));
      CodePointsCons(s);
    }
  }

  lemma BytesDecode(c: char, rest: seq<nat>)
    ensures DecodeUtf8(Bytes(c) + rest) == Before(c as int, DecodeUtf8(rest))
  {
    CharDecodes(c, rest);
    assert (Bytes(c) + rest)[|Bytes(c)|..] == rest;
  }

  lemma CharDecodes(c: char, rest: seq<nat>)
    ensures DecodeChar(Bytes(c) + rest) == Some((c as int, |Bytes(c)|))
  {
    var n := c as int;
    if n < 0x80 {
      assert (Bytes(c) + rest)[0] == n;
    } else if n < 0x800 {
      Decode2(n / 0x40, n % 0x40, rest);
    } else if n < 0x10000 {
      Decode3(n / 0x1000, n / 0x40 % 0x40, n % 0x40, rest);
      Digits3(n);
    } else {
      Decode4(n / 0x40000, n / 0x1000 % 0x40, n / 0x40 % 0x40, n % 0x40, rest);
      Digits4(n);
    }
  }

  function Before(n: nat, rest: Option<seq<nat>>): Option<seq<nat>> {
    if rest.Some? then Some([n] + rest.value) else None
  }

  lemma Decode2(a: nat, b: nat, rest: seq<nat>)
    requires a < 0x20 && b < 0x40
    ensures DecodeChar([0xC0 + a, 0x80 + b] + rest) == Some((a * 0x40 + b, 2))
  {
  }

  lemma Decode3(a: nat, b: nat, c: nat, rest: seq<nat>)
    requires a < 0x10 && b < 0x40 && c < 0x40
    ensures DecodeChar([0xE0 + a, 0x80 + b, 0x80 + c] + rest) == Some(((a * 0x40 + b) * 0x40 + c, 3))
  {
  }

  lemma Decode4(a: nat, b: nat, c: nat, d: nat, rest: seq<nat>)
    requires a < 0x8 && b < 0x40 && c < 0x40 && d < 0x40
    ensures DecodeChar([0xF0 + a, 0x80 + b, 0x80 + c, 0x80 + d] + rest) ==
      Some((((a * 0x40 + b) * 0x40 + c) * 0x40 + d, 4))
  {
  }

  lemma Digits3(n: nat)
    ensures (n / 0x1000 * 0x40 + n / 0x40 % 0x40) * 0x40 + n % 0x40 == n
  {
    assert n / 0x1000 == n / 0x40 / 0x40;
  }

  lemma Digits4(n: nat)
    ensures ((n / 0x40000 * 0x40 + n / 0x1000 % 0x40) * 0x40 + n / 0x40 % 0x40) * 0x40 + n % 0x40 == n
  {
    assert n / 0x40000 == n / 0x1000 / 0x40;
    Digits3(n);
  }

  /** UTF-8 decoding gives back the code points. */
  lemma {:induction false} Utf8Decodes(s: string)
    ensures DecodeUtf8(Utf8(s)) == Some(CodePoints(s))
  {
    if s == "" {
      assert CodePoints(s) == [];
    } else {
      Utf8Decodes(s[1..]);
      BytesDecode(s[0], Utf8(s[1..]));
      CodePointsCons(s);
    }
  }

  // ---------------------------------------------------------------- byte order is code point order

  lemma {:induction false} CompareStart(p: seq<nat>, x: seq<nat>, y: seq<nat>)
    ensures Compare(p + x, p + y) == Compare(x, y)
  {
    if p == [] {
      assert p + x == x && p + y == y;
    } else {
      assert (p + x)[1..] == p[1..] + x && (p + y)[1..] == p[1..] + y;
      CompareStart(p[1..], x, y);
    }
  }

  /** Bytes of a smaller character stand before those of a larger one, whatever follows. */
  lemma BytesOrder(a: char, b: char, x: seq<nat>, y: seq<nat>)
    requires a < b
    ensures Compare(Bytes(a) + x, Bytes(b) + y) == Less
  {
    var k := FirstDifference(a, b);
    SmallerCompares(Bytes(a) + x, Bytes(b) + y, k);
  }

  lemma {:induction false} SmallerCompares(x: seq<nat>, y: seq<nat>, k: nat)
    requires SmallerAt(x, y, k)
    ensures Compare(x, y) == Less
  {
    if k > 0 { SmallerCompares(x[1..], y[1..], k - 1); }
  }

  /** Somewhere `x` is smaller than `y`, and they agree before that place. */
  predicate SmallerAt(x: seq<nat>, y: seq<nat>, k: nat) {
    k < |x| && k < |y| && x[k] < y[k] && forall i :: 0 <= i < k ==> x[i] == y[i]
  }

  /** The place where the bytes of two characters first differ. */
  lemma FirstDifference(a: char, b: char) returns (k: nat)
    requires a < b
    ensures SmallerAt(Bytes(a), Bytes(b), k)
  {
    if a as int < 0x80 || |Bytes(a)| != |Bytes(b)| {
      k := 0;
      LeadSmaller(a, b);
    } else {
      k := SameLength(a, b);
    }
  }

  lemma SameLength(a: char, b: char) returns (k: nat)
    requires a < b && 0x80 <= a as int && |Bytes(a)| == |Bytes(b)|
    ensures SmallerAt(Bytes(a), Bytes(b), k)
  {
    var m, n := a as int, b as int;
    if n < 0x800 {
      k := Difference2(m, n);
    } else if n < 0x10000 {
      k := Difference3(m, n);
    } else {
      k := Difference4(m, n);
    }
  }

  lemma LeadRange(c: char)
    ensures
      var n, lead := c as int, Bytes(c)[0];
      if n < 0x80 then lead == n
      else if n < 0x800 then 0xC0 <= lead < 0xE0
      else if n < 0x10000 then 0xE0 <= lead < 0xF0
      else 0xF0 <= lead
  {
  }

  lemma LeadSmaller(a: char, b: char)
    requires a < b && (a as int < 0x80 || |Bytes(a)| != |Bytes(b)|)
    ensures Bytes(a)[0] < Bytes(b)[0]
  {
    LeadRange(a);
    LeadRange(b);
  }

  lemma Difference2(m: nat, n: nat) returns (k: nat)
    requires m < n
    ensures SmallerAt(Two(m), Two(n), k)
  {
    Later(m, n);
    k := if m / 0x40 < n / 0x40 then 0 else 1;
  }

  lemma Difference3(m: nat, n: nat) returns (k: nat)
    requires m < n
    ensures SmallerAt(Three(m), Three(n), k)
  {
    Later(m, n);
    Later(m / 0x40, n / 0x40);
    Upper(m);
    Upper(n);
    k := if m / 0x1000 < n / 0x1000 then 0 else if m / 0x40 < n / 0x40 then 1 else 2;
  }

  lemma Difference4(m: nat, n: nat) returns (k: nat)
    requires m < n
    ensures SmallerAt(Four(m), Four(n), k)
  {
    Later(m, n);
    Later(m / 0x40, n / 0x40);
    Later(m / 0x1000, n / 0x1000);
    Upper(m);
    Upper(n);
    k :=
      if m / 0x40000 < n / 0x40000 then 0
      else if m / 0x1000 < n / 0x1000 then 1
      else if m / 0x40 < n / 0x40 then 2
      else 3;
  }

  lemma Upper(n: nat)
    ensures n / 0x1000 == n / 0x40 / 0x40 && n / 0x40000 == n / 0x1000 / 0x40
  {
  }

  /** Six bits at a time: equal upper parts leave the order to the lower part. */
  lemma Later(m: nat, n: nat)
    ensures m <= n ==> m / 0x40 <= n / 0x40
    ensures m / 0x40 == n / 0x40 && m < n ==> m % 0x40 < n % 0x40
    ensures m / 0x40 == n / 0x40 && m % 0x40 == n % 0x40 ==> m == n
  {
  }

  /** Comparing strings by their UTF-8 bytes compares them by their code points. */
  lemma {:induction false} Utf8OrderIsCodePointOrder(a: string, b: string)
    ensures Compare(Utf8(a), Utf8(b)) == Compare(CodePoints(a), CodePoints(b))
  {
    if a != "" && b != "" {
      assert CodePoints(a)[1..] == CodePoints(a[1..]) && CodePoints(b)[1..] == CodePoints(b[1..]);
      if a[0] == b[0] {
        CompareStart(Bytes(a[0]), Utf8(a[1..]), Utf8(b[1..]));
        Utf8OrderIsCodePointOrder(a[1..], b[1..]);
      } else if a[0] < b[0] {
        BytesOrder(a[0], b[0], Utf8(a[1..]), Utf8(b[1..]));
      } else {
        BytesOrder(b[0], a[0], Utf8(b[1..]), Utf8(a[1..]));
        CompareSymmetric(Utf8(b), Utf8(a));
      }
    }
  }

  /** UTF-16 order is not code point order: U+FF61 stands after U+10000. */
  lemma Utf16OrderDiffers(a: char, b: char)
    requires a as int == 0xFF61 && b as int == 0x10000
    ensures Utf16Cmp([a], [b]) == Greater && Compare(CodePoints([a]), CodePoints([b])) == Less
  {
    assert Units(a) == [0xFF61] && Units(b) == [0xD800, 0xDC00];
    assert [a][1..] == "" && [b][1..] == "";
  }
}
