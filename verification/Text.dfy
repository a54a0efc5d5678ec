/** The string operations the modelled code calls: trimming, stripping, splitting,
    line iteration and decimal integers. */
module Text {
  import opened Basics

  // ---------------------------------------------------------------- white space

  /** The Unicode White_Space property, as Rust's `char::is_whitespace` tests it. */
  predicate IsWhitespace(c: char) {
    var n := c as int;
    || 0x9 <= n <= 0xD
    || n == 0x20 || n == 0x85 || n == 0xA0 || n == 0x1680
    || 0x2000 <= n <= 0x200A
    || n == 0x2028 || n == 0x2029 || n == 0x202F || n == 0x205F || n == 0x3000
  }

  /** The 25 characters of the property, one by one. */
  lemma WhitespaceExact(c: char)
    ensures IsWhitespace(c) <==> c as int in [
      0x9, 0xA, 0xB, 0xC, 0xD, 0x20, 0x85, 0xA0, 0x1680,
      0x2000, 0x2001, 0x2002, 0x2003, 0x2004, 0x2005, 0x2006, 0x2007, 0x2008, 0x2009, 0x200A,
      0x2028, 0x2029, 0x202F, 0x205F, 0x3000]
  {
  }

  /** ASCII letters and digits, one by one. */
  predicate AsciiAlphanumeric(c: char) {
    'a' <= c <= 'z' || 'A' <= c <= 'Z' || '0' <= c <= '9'
  }

  lemma AlphanumericExact(c: char)
    ensures AsciiAlphanumeric(c) <==>
      c in "abcdefghijklmnopqrstuvwxyz" || c in "ABCDEFGHIJKLMNOPQRSTUVWXYZ" || c in "0123456789"
  {
  }

  predicate Blank(s: string) {
    forall i :: 0 <= i < |s| ==> IsWhitespace(s[i])
  }

  function TrimStart(s: string): (r: string)
    ensures |r| <= |s|
  {
    if s != "" && IsWhitespace(s[0]) then TrimStart(s[1..]) else s
  }

  function TrimEnd(s: string): (r: string)
    ensures |r| <= |s|
  {
    if s != "" && IsWhitespace(s[|s| - 1]) then TrimEnd(s[..|s| - 1]) else s
  }

  function Trim(s: string): string {
    TrimEnd(TrimStart(s))
  }

  /** Leading blanks are all that `TrimStart` removes. */
  lemma {:induction false} TrimStartOf(blank: string, s: string)
    requires Blank(blank)
    requires s == "" || !IsWhitespace(s[0])
    ensures TrimStart(blank + s) == s
  {
    if blank == "" {
      assert blank + s == s;
    } else {
      assert (blank + s)[1..] == blank[1..] + s;
      TrimStartOf(blank[1..], s);
    }
  }

  lemma {:induction false} TrimEndOf(s: string, blank: string)
    requires Blank(blank)
    requires s == "" || !IsWhitespace(s[|s| - 1])
    ensures TrimEnd(s + blank) == s
  {
    if blank == "" {
      assert s + blank == s;
    } else {
      var n := |blank| - 1;
      assert (s + blank)[..|s + blank| - 1] == s + blank[..n];
      TrimEndOf(s, blank[..n]);
    }
  }

  /** `Trim` recovers any text that has no blank at either end. */
  lemma TrimOf(before: string, s: string, after: string)
    requires Blank(before) && Blank(after)
    requires s == "" || (!IsWhitespace(s[0]) && !IsWhitespace(s[|s| - 1]))
    ensures Trim(before + s + after) == s
  {
    if s == "" {
      TrimStartOf(before + after, "");
      assert before + s + after == (before + after) + "";
    } else {
      assert before + s + after == before + (s + after);
      TrimStartOf(before, s + after);
      TrimEndOf(s, after);
    }
  }

  lemma TrimIdentity(s: string)
    requires s == "" || (!IsWhitespace(s[0]) && !IsWhitespace(s[|s| - 1]))
    ensures Trim(s) == s
  {
    TrimOf("", s, "");
    assert "" + s + "" == s;
  }

  /** What `TrimStart` removes is blank, and what it leaves does not start with a blank. */
  lemma {:induction false} TrimStartParts(s: string) returns (before: string)
    ensures Blank(before) && s == before + TrimStart(s)
    ensures TrimStart(s) == "" || !IsWhitespace(TrimStart(s)[0])
  {
    if s != "" && IsWhitespace(s[0]) {
      var rest := TrimStartParts(s[1..]);
      before := [s[0]] + rest;
      HeadTail(s);
      Associative([s[0]], rest, TrimStart(s));
    } else {
      before := "";
    }
  }

  lemma {:induction false} TrimEndParts(s: string) returns (after: string)
    ensures Blank(after) && s == TrimEnd(s) + after
    ensures TrimEnd(s) == "" || !IsWhitespace(TrimEnd(s)[|TrimEnd(s)| - 1])
  {
    if s != "" && IsWhitespace(s[|s| - 1]) {
      var rest := TrimEndParts(s[..|s| - 1]);
      after := rest + [s[|s| - 1]];
      InitLast(s);
      Associative(TrimEnd(s), rest, [s[|s| - 1]]);
    } else {
      after := "";
    }
  }

  /** What `Trim` removes is blank at both ends. */
  lemma TrimParts(s: string) returns (before: string, after: string)
    ensures Blank(before) && Blank(after)
    ensures s == before + Trim(s) + after
    ensures Trim(s) == "" || (!IsWhitespace(Trim(s)[0]) && !IsWhitespace(Trim(s)[|Trim(s)| - 1]))
  {
    before := TrimStartParts(s);
    after := TrimEndParts(TrimStart(s));
    if Trim(s) != "" { assert Trim(s)[0] == TrimStart(s)[0]; }
  }

  /** Nothing is left of a text iff it is blank. */
  lemma TrimBlank(s: string)
    ensures Trim(s) == "" <==> Blank(s)
  {
    var before, after := TrimParts(s);
    if Blank(s) { TrimOf(s, "", ""); assert s + "" + "" == s; }
    if Trim(s) == "" { assert s == before + after; }
  }

  // ---------------------------------------------------------------- strip and split

  function StripPrefix(s: string, p: string): (r: Option<string>)
    ensures r.Some? ==> s == p + r.value
  {
    if p <= s then Some(s[|p|..]) else None
  }

  function StripSuffix(s: string, p: string): (r: Option<string>)
    ensures r.Some? ==> s == r.value + p
  {
    if |p| <= |s| && s[|s| - |p|..] == p then Some(s[..|s| - |p|]) else None
  }

  /** Split at the first occurrence of `c`, which belongs to neither half. */
  function SplitOnce(s: string, c: char): (r: Option<(string, string)>)
    ensures r.Some? ==> s == r.value.0 + [c] + r.value.1 && c !in r.value.0
    ensures r.None? ==> c !in s
  {
    if s == "" then None
    else if s[0] == c then Some(("", s[1..]))
    else
      match SplitOnce(s[1..], c)
      case None => None
      case Some((a, b)) =>
        assert s == [s[0]] + s[1..];
        Some(([s[0]] + a, b))
  }

  lemma {:induction false} SplitOnceOf(a: string, c: char, b: string)
    requires c !in a
    ensures SplitOnce(a + [c] + b, c) == Some((a, b))
  {
    var s := a + [c] + b;
    if a == "" {
      assert s[1..] == b;
    } else {
      assert s[1..] == a[1..] + [c] + b;
      SplitOnceOf(a[1..], c, b);
      assert [a[0]] + a[1..] == a;
    }
  }

  lemma {:induction false} SplitOnceNone(s: string, c: char)
    requires c !in s
    ensures SplitOnce(s, c) == None
  {
    if s != "" { SplitOnceNone(s[1..], c); }
  }

  // ---------------------------------------------------------------- lines

  function DropCarriageReturn(s: string): string {
    if s != "" && s[|s| - 1] == '\r' then s[..|s| - 1] else s
  }

  /** Rust's `str::lines`: split at `\n`, drop a `\r` before it, no line after a final `\n`. */
  function Lines(s: string): seq<string>
    decreases |s|
  {
    var split := SplitOnce(s, '\n');
    if s == "" then []
    else if split.None? then [s]
    else
      assert |s| == |split.value.0| + 1 + |split.value.1|;
      [DropCarriageReturn(split.value.0)] + Lines(split.value.1)
  }

  /** The text is empty or its last line is complete. */
  predicate NewlineTerminated(s: string) {
    s == "" || s[|s| - 1] == '\n'
  }

  lemma LinesFirst(line: string, rest: string)
    requires '\n' !in line
    ensures Lines(line + "\n" + rest) == [DropCarriageReturn(line)] + Lines(rest)
  {
    SplitOnceOf(line, '\n', rest);
    assert line + "\n" + rest == line + ['\n'] + rest;
  }

  /** A non-empty newline-terminated text is a first line, its newline, and such a text. */
  lemma FirstLine(s: string) returns (a: string, b: string)
    requires s != "" && NewlineTerminated(s)
    ensures '\n' !in a && NewlineTerminated(b) && |b| < |s|
    ensures s == a + "\n" + b
  {
    assert s[|s| - 1] in s;
    var split := SplitOnce(s, '\n').value;
    a, b := split.0, split.1;
    if b != "" { assert s[|s| - 1] == b[|b| - 1]; }
  }

  /** Appending to a newline-terminated text appends its lines. */
  lemma {:induction false} LinesAppend(s: string, t: string)
    requires NewlineTerminated(s)
    ensures Lines(s + t) == Lines(s) + Lines(t)
    decreases |s|
  {
    if s == "" {
      assert s + t == t;
    } else {
      var a, b := FirstLine(s);
      LinesAppend(b, t);
      LinesFirst(a, b);
      LinesFirst(a, b + t);
      Associative(a + "\n", b, t);
      Associative([DropCarriageReturn(a)], Lines(b), Lines(t));
    }
  }

  lemma HeadTail<T>(s: seq<T>)
    requires s != []
    ensures s == [s[0]] + s[1..]
  {
  }

  lemma InitLast<T>(s: seq<T>)
    requires s != []
    ensures s == s[..|s| - 1] + [s[|s| - 1]]
  {
  }

  /** Taking apart what was just put together. */
  lemma ConsParts<T>(x: T, s: seq<T>)
    ensures ([x] + s)[0] == x && ([x] + s)[1..] == s
  {
  }

  lemma Associative<T>(a: seq<T>, b: seq<T>, c: seq<T>)
    ensures a + b + c == a + (b + c)
  {
  }

  /** Four appends in a row are one append. */
  lemma Appends(t: string, a: string, b: string, c: string, d: string)
    ensures t + a + b + c + d == t + (a + (b + (c + d)))
  {
  }

  /** A lower-case hexadecimal digit. */
  function HexDigit(d: nat): char
    requires d < 16
  {
    if d < 10 then ('0' as int + d) as char else ('a' as int + (d - 10)) as char
  }

  /** The value of a hexadecimal digit of either case. */
  function HexValue(c: char): Option<nat> {
    if '0' <= c <= '9' then Some(c as int - '0' as int)
    else if 'a' <= c <= 'f' then Some(c as int - 'a' as int + 10)
    else if 'A' <= c <= 'F' then Some(c as int - 'A' as int + 10)
    else None
  }

  lemma HexExact(c: char, d: nat)
    requires d < 16
    ensures HexDigit(d) == "0123456789abcdef"[d]
    ensures HexValue(c) == Some(d) <==> c == "0123456789abcdef"[d] || c == "0123456789ABCDEF"[d]
  {
  }

  // ---------------------------------------------------------------- decimal integers

  predicate IsDigit(c: char) { '0' <= c <= '9' }

  predicate AllDigits(s: string) {
    forall i :: 0 <= i < |s| ==> IsDigit(s[i])
  }

  function Digit(d: nat): (c: char)
    requires d < 10
    ensures IsDigit(c) && c as int - '0' as int == d
  {
    ('0' as int + d) as char
  }

  function NatText(n: nat): string {
    if n < 10 then [Digit(n)] else NatText(n / 10) + [Digit(n % 10)]
  }

  function NatValue(s: string): nat
    requires AllDigits(s)
  {
    if s == "" then 0 else NatValue(s[..|s| - 1]) * 10 + (s[|s| - 1] as int - '0' as int)
  }

  function IntText(n: int): string {
    if n < 0 then "-" + NatText(-n) else NatText(n)
  }

  lemma {:induction false} NatTextValue(n: nat)
    ensures NatText(n) != "" && AllDigits(NatText(n)) && NatValue(NatText(n)) == n
  {
    if n >= 10 {
      NatTextValue(n / 10);
      assert NatText(n)[..|NatText(n)| - 1] == NatText(n / 10);
    }
  }

  /** Rust's `str::parse::<i64>`: an optional sign, at least one digit, in range. */
  function ParseI64(s: string): (r: Option<int>)
    ensures r.Some? ==> I64_MIN <= r.value <= I64_MAX
    ensures r.Some? ==> !Blank(s)
  {
    var negative := s != "" && s[0] == '-';
    var digits := if s != "" && (s[0] == '-' || s[0] == '+') then s[1..] else s;
    if digits == "" || !AllDigits(digits) then None
    else
      assert IsDigit(digits[0]) && digits[0] == s[|s| - |digits|];
      var n: int := NatValue(digits);
      var v := if negative then -n else n;
      if I64_MIN <= v <= I64_MAX then Some(v) else None
  }

  predicate Zeros(s: string) {
    forall i :: 0 <= i < |s| ==> s[i] == '0'
  }

  lemma NatTextSnoc(n: nat, d: nat)
    requires n > 0 && d < 10
    ensures NatText(n * 10 + d) == NatText(n) + [Digit(d)]
  {
    assert (n * 10 + d) / 10 == n && (n * 10 + d) % 10 == d;
  }

  /** Digits are zeros and the decimal text of their value. */
  lemma {:induction false} DigitsShape(s: string) returns (zeros: string)
    requires s != "" && AllDigits(s)
    ensures Zeros(zeros) && s == zeros + NatText(NatValue(s))
  {
    var init := s[..|s| - 1];
    InitLast(s);
    if init == "" { return ""; }
    zeros := DigitsShape(init);
    if NatValue(init) == 0 {
      return init;
    }
    NatTextSnoc(NatValue(init), s[|s| - 1] as int - '0' as int);
    Associative(zeros, NatText(NatValue(init)), [s[|s| - 1]]);
  }

  lemma {:induction false} ZerosCountNothing(zeros: string, n: nat)
    requires Zeros(zeros)
    ensures AllDigits(zeros + NatText(n)) && NatValue(zeros + NatText(n)) == n
    decreases |zeros|, n
  {
    NatTextValue(n);
    var s := zeros + NatText(n);
    if n >= 10 {
      ZerosCountNothing(zeros, n / 10);
      assert s[..|s| - 1] == zeros + NatText(n / 10);
    } else if zeros != "" {
      var shorter := zeros[..|zeros| - 1];
      ZerosCountNothing(shorter, 0);
      assert s[..|s| - 1] == zeros == shorter + NatText(0);
    }
  }

  function Magnitude(n: int): nat {
    if n < 0 then -n else n
  }

  /** The text is an optional sign, any number of zeros and the decimal text of the number. */
  predicate DecimalOf(s: string, sign: string, zeros: string, n: int) {
    && Zeros(zeros) && s == sign + (zeros + NatText(Magnitude(n)))
    && IsSign(sign) && (n < 0 ==> sign == "-") && (n > 0 ==> sign != "-")
  }

  /** Which texts are read as which number. */
  lemma ParseI64Exact(s: string, n: int)
    ensures ParseI64(s) == Some(n) <==>
      I64_MIN <= n <= I64_MAX && exists sign, zeros :: DecimalOf(s, sign, zeros, n)
  {
    if ParseI64(s) == Some(n) { DecimalFound(s, n); }
    if sign, zeros :| I64_MIN <= n <= I64_MAX && DecimalOf(s, sign, zeros, n) { DecimalRead(s, sign, zeros, n); }
  }

  predicate IsSign(sign: string) {
    sign == "" || sign == "+" || sign == "-"
  }

  /** The number that signed digits stand for. */
  function Signed(sign: string, digits: string): int
    requires AllDigits(digits)
  {
    var n: int := NatValue(digits);
    if sign == "-" then -n else n
  }

  lemma ParseSigned(s: string, sign: string, digits: string)
    requires IsSign(sign) && digits != "" && AllDigits(digits) && s == sign + digits
    ensures ParseI64(s) ==
      if I64_MIN <= Signed(sign, digits) <= I64_MAX then Some(Signed(sign, digits)) else None
  {
    if sign == "" {
      assert s == digits && IsDigit(s[0]);
    } else {
      ConsParts(sign[0], digits);
      assert s == [sign[0]] + digits;
    }
  }

  lemma SignedParts(s: string) returns (sign: string, digits: string)
    requires ParseI64(s).Some?
    ensures IsSign(sign) && digits != "" && AllDigits(digits) && s == sign + digits
  {
    sign := if s[0] == '-' then "-" else if s[0] == '+' then "+" else "";
    digits := s[|sign|..];
  }

  lemma DecimalFound(s: string, n: int)
    requires ParseI64(s) == Some(n)
    ensures exists sign, zeros :: DecimalOf(s, sign, zeros, n)
  {
    var sign, digits := SignedParts(s);
    ParseSigned(s, sign, digits);
    var zeros := DigitsShape(digits);
    assert DecimalOf(s, sign, zeros, n);
  }

  lemma DecimalRead(s: string, sign: string, zeros: string, n: int)
    requires I64_MIN <= n <= I64_MAX && DecimalOf(s, sign, zeros, n)
    ensures ParseI64(s) == Some(n)
  {
    var digits := zeros + NatText(Magnitude(n));
    assert digits != "" && AllDigits(digits) && NatValue(digits) == Magnitude(n) by {
      ZerosCountNothing(zeros, Magnitude(n));
      NatTextValue(Magnitude(n));
    }
    ParseSigned(s, sign, digits);
  }

  lemma ParseI64OfNat(n: nat)
    requires n <= I64_MAX
    ensures ParseI64(NatText(n)) == Some(n)
  {
    NatTextValue(n);
    assert IsDigit(NatText(n)[0]);
  }
}
