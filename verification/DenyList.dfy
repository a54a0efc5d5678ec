/** The file-backed revocation list: one hex line per revoked id, reloaded at each lookup. */
module DenyList {
  import opened Basics
  import opened Text

  type Byte = n: int | 0 <= n < 256
  type Id = seq<Byte>

  // ---------------------------------------------------------------- hex lines

  function HexEncode(id: Id): string {
    if id == [] then "" else [HexDigit(id[0] / 16), HexDigit(id[0] % 16)] + HexEncode(id[1..])
  }

  /** `hex::decode`: an even number of digits of either case. */
  function HexDecode(s: string): Option<Id> {
    if s == "" then Some([])
    else if |s| == 1 then None
    else
      var hi :- HexValue(s[0]);
      var lo :- HexValue(s[1]);
      var rest :- HexDecode(s[2..]);
      Some([hi * 16 + lo] + rest)
  }

  predicate IsHex(s: string) {
    forall i :: 0 <= i < |s| ==> HexValue(s[i]).Some?
  }

  lemma HexDigitValue(d: nat)
    requires d < 16
    ensures HexValue(HexDigit(d)) == Some(d)
  {
  }

  lemma {:induction false} HexRoundTrip(id: Id)
    ensures HexDecode(HexEncode(id)) == Some(id)
  {
    if id != [] {
      var b := id[0];
      HexRoundTrip(id[1..]);
      HexDigitValue(b / 16);
      HexDigitValue(b % 16);
      var s := HexEncode(id);
      assert s[0] == HexDigit(b / 16) && s[1] == HexDigit(b % 16) && s[2..] == HexEncode(id[1..]);
      assert [b / 16 * 16 + b % 16] + id[1..] == id;
    }
  }

  lemma {:induction false} HexIsHex(id: Id)
    ensures IsHex(HexEncode(id)) && |HexEncode(id)| == 2 * |id|
  {
    if id != [] {
      HexIsHex(id[1..]);
      HexDigitValue(id[0] / 16);
      HexDigitValue(id[0] % 16);
      assert forall i :: 2 <= i < |HexEncode(id)| ==> HexEncode(id)[i] == HexEncode(id[1..])[i - 2];
    }
  }

  // ---------------------------------------------------------------- the file

  /** Ids of the lines; a malformed line makes the whole load fail. */
  function LoadLines(lines: seq<string>): Option<set<Id>> {
    if lines == [] then Some({})
    else
      var line := Trim(lines[0]);
      if line == "" then LoadLines(lines[1..])
      else
        var id :- HexDecode(line);
        var rest :- LoadLines(lines[1..]);
        Some({id} + rest)
  }

  function LoadIds(text: string): Option<set<Id>> {
    LoadLines(Lines(text))
  }

  /** A lookup: nothing to look up is not revoked, an unreadable list revokes everything. */
  predicate Revoked(loaded: Option<set<Id>>, ids: seq<Id>) {
    ids != [] && (loaded.None? || exists i :: 0 <= i < |ids| && ids[i] in loaded.value)
  }

  /** How an append ends; a failure may leave a first part of its line. */
  datatype Append = Synced | Fails(written: nat)

  function Written(id: Id, fate: Append): (line: string)
    ensures line <= HexEncode(id) + "\n"
    ensures line != HexEncode(id) + "\n" ==> fate.Fails? && |line| == fate.written
  {
    var line := HexEncode(id) + "\n";
    if fate.Fails? && fate.written <= |line| then line[..fate.written] else line
  }

  /** The first failing append was the one of `ids[k]`. */
  predicate StoppedAt(before: string, after: string, ids: seq<Id>, fates: nat -> Append, k: nat) {
    && k < |ids| && fates(k).Fails? && (forall i :: 0 <= i < k ==> fates(i).Synced?)
    && after == AppendAll(before, ids[..k]) + Written(ids[k], fates(k))
  }

  function IdSet(ids: seq<Id>): set<Id> {
    set id | id in ids
  }

  class SharedFile {
    var text: string

    constructor ()
      ensures text == ""
    { text := ""; }
  }

  /** One verifier's handle on a shared file, with its cache of the ids last seen. */
  class FileDenyList {
    const file: SharedFile
    var revoked: set<Id>

    constructor (file: SharedFile, loaded: set<Id>)
      requires LoadIds(file.text) == Some(loaded)
      ensures this.file == file && revoked == loaded
    {
      this.file := file;
      revoked := loaded;
    }

    /** A failing append leaves a part of its line in the file and the cache as it was. */
    method Revoke(id: Id, fate: Append) returns (ok: bool)
      modifies this, file
      ensures ok <==> fate.Synced?
      ensures ok ==> file.text == old(file.text) + HexEncode(id) + "\n" && revoked == old(revoked) + {id}
      ensures !ok ==> file.text == old(file.text) + Written(id, fate) && revoked == old(revoked)
    {
      if fate.Fails? {
        file.text := file.text + Written(id, fate);
        return false;
      }
      file.text := file.text + HexEncode(id) + "\n";
      revoked := revoked + {id};
      return true;
    }

    /** Stops at the first append that fails; the ids before it are revoked. */
    method RevokeToken(ids: seq<Id>, fates: nat -> Append) returns (ok: bool)
      modifies this, file
      ensures ok <==> forall k :: 0 <= k < |ids| ==> fates(k).Synced?
      ensures ok ==> file.text == AppendAll(old(file.text), ids) && revoked == old(revoked) + IdSet(ids)
      ensures !ok ==> exists k: nat ::
        StoppedAt(old(file.text), file.text, ids, fates, k) && revoked == old(revoked) + IdSet(ids[..k])
    {
      for k := 0 to |ids|
        invariant file.text == AppendAll(old(file.text), ids[..k]) && revoked == old(revoked) + IdSet(ids[..k])
        invariant forall i :: 0 <= i < k ==> fates(i).Synced?
      {
        assert ids[..k + 1][..k] == ids[..k] && IdSet(ids[..k + 1]) == IdSet(ids[..k]) + {ids[k]};
        ok := Revoke(ids[k], fates(k));
        if !ok {
          assert StoppedAt(old(file.text), file.text, ids, fates, k);
          return;
        }
      }
      assert ids[..|ids|] == ids;
      return true;
    }

    /** `readable` is whether the file could be read at all. */
    method IsRevoked(ids: seq<Id>, readable: bool) returns (b: bool)
      modifies this
      ensures b == Revoked(if readable then LoadIds(file.text) else None, ids)
    {
      if ids == [] { return false; }
      if !readable { return true; }
      var latest := Reload();
      if latest.None? { return true; }
      revoked := latest.value;
      b := exists i :: 0 <= i < |ids| && ids[i] in revoked;
    }

    method Reload() returns (latest: Option<set<Id>>)
      ensures latest == LoadIds(file.text)
    {
      var ids: set<Id> := {};
      var lines := Lines(file.text);
      assert lines[0..] == lines && With({}, LoadLines(lines)) == LoadLines(lines) by {
        if LoadLines(lines).Some? { assert {} + LoadLines(lines).value == LoadLines(lines).value; }
      }
      for k := 0 to |lines|
        invariant LoadLines(lines) == With(ids, LoadLines(lines[k..]))
      {
        assert lines[k..][1..] == lines[k + 1..];
        var line := Trim(lines[k]);
        if line == "" { continue; }
        var id := HexDecode(line);
        if id.None? { return None; }
        WithMore(ids, id.value, LoadLines(lines[k + 1..]));
        ids := ids + {id.value};
      }
      assert ids + {} == ids;
      return Some(ids);
    }
  }

  function With(done: set<Id>, rest: Option<set<Id>>): Option<set<Id>> {
    match rest
    case Some(s) => Some(done + s)
    case None => None
  }

  lemma WithMore(done: set<Id>, id: Id, rest: Option<set<Id>>)
    ensures With(done + {id}, rest) == With(done, With({id}, rest))
  {
    if rest.Some? { assert done + {id} + rest.value == done + ({id} + rest.value); }
  }

  // ---------------------------------------------------------------- a growing set

  /** The file after a sequence of revocations, made through any instances. */
  function AppendAll(text: string, ids: seq<Id>): string {
    if ids == [] then text
    else AppendAll(text, ids[..|ids| - 1]) + HexEncode(ids[|ids| - 1]) + "\n"
  }

  function NonEmptyIds(ids: seq<Id>): set<Id> {
    set i | 0 <= i < |ids| && ids[i] != [] :: ids[i]
  }

  lemma {:induction false} LoadLinesAppend(a: seq<string>, b: seq<string>)
    ensures LoadLines(a + b) == if LoadLines(a).Some? then With(LoadLines(a).value, LoadLines(b)) else None
  {
    if a == [] {
      assert a + b == b;
      if LoadLines(b).Some? { assert {} + LoadLines(b).value == LoadLines(b).value; }
    } else {
      assert (a + b)[1..] == a[1..] + b;
      LoadLinesAppend(a[1..], b);
      if LoadLines(a).Some? && Trim(a[0]) != "" {
        WithMore({}, HexDecode(Trim(a[0])).value, LoadLines(b));
        var id, x := HexDecode(Trim(a[0])).value, LoadLines(a[1..]).value;
        if LoadLines(b).Some? { assert {id} + (x + LoadLines(b).value) == {id} + x + LoadLines(b).value; }
      }
    }
  }

  /** The line a revocation writes reads back as its id, an empty id as nothing. */
  lemma RevocationLine(id: Id)
    ensures '\n' !in HexEncode(id)
    ensures LoadIds(HexEncode(id) + "\n") == Some(if id == [] then {} else {id})
  {
    var line := HexEncode(id);
    HexRoundTrip(id);
    HexIsHex(id);
    HexHasNoBlanks(line);
    assert Lines(line + "\n") == [line] by {
      LinesFirst(line, "");
      assert line + "\n" + "" == line + "\n";
    }
    OneLineLoads(line, id);
  }

  lemma OneLineLoads(line: string, id: Id)
    requires line == "" || (!IsWhitespace(line[0]) && !IsWhitespace(line[|line| - 1]))
    requires HexDecode(line) == Some(id) && (line == "" <==> id == [])
    ensures LoadLines([line]) == Some(if id == [] then {} else {id})
  {
    TrimIdentity(line);
    assert [line][1..] == [];
    assert {id} + {} == {id};
  }

  lemma HexHasNoBlanks(s: string)
    requires IsHex(s)
    ensures '\n' !in s && DropCarriageReturn(s) == s
    ensures s == "" || (!IsWhitespace(s[0]) && !IsWhitespace(s[|s| - 1]))
  {
    forall i | 0 <= i < |s| ensures s[i] != '\n' && s[i] != '\r' && !IsWhitespace(s[i]) {
      assert HexValue(s[i]).Some?;
    }
  }

  lemma RevokeAddsOne(text: string, id: Id)
    requires NewlineTerminated(text) && LoadIds(text).Some?
    ensures NewlineTerminated(text + HexEncode(id) + "\n")
    ensures LoadIds(text + HexEncode(id) + "\n") ==
      Some(LoadIds(text).value + if id == [] then {} else {id})
  {
    var line := HexEncode(id) + "\n";
    assert text + HexEncode(id) + "\n" == text + line;
    LinesAppend(text, line);
    LoadLinesAppend(Lines(text), Lines(line));
    RevocationLine(id);
  }

  /** THE FILE IS A GROWING SET: after any sequence of revocations on a readable file whose
      last line is complete, a load yields the earlier ids and every revoked non-empty id. */
  lemma {:induction false} RevocationsAccumulate(text: string, ids: seq<Id>)
    requires NewlineTerminated(text) && LoadIds(text).Some?
    ensures NewlineTerminated(AppendAll(text, ids))
    ensures LoadIds(AppendAll(text, ids)) == Some(LoadIds(text).value + NonEmptyIds(ids))
  {
    if ids == [] {
      assert NonEmptyIds(ids) == {};
      assert LoadIds(text).value + {} == LoadIds(text).value;
    } else {
      var before, id := ids[..|ids| - 1], ids[|ids| - 1];
      RevocationsAccumulate(text, before);
      RevokeAddsOne(AppendAll(text, before), id);
      NonEmptySnoc(ids);
      UnionMore(LoadIds(text).value, NonEmptyIds(before), if id == [] then {} else {id});
    }
  }

  lemma UnionMore(a: set<Id>, b: set<Id>, c: set<Id>)
    ensures a + b + c == a + (b + c)
  {
  }

  lemma NonEmptySnoc(ids: seq<Id>)
    requires ids != []
    ensures NonEmptyIds(ids) ==
      NonEmptyIds(ids[..|ids| - 1]) + if ids[|ids| - 1] == [] then {} else {ids[|ids| - 1]}
  {
    var before, last := ids[..|ids| - 1], ids[|ids| - 1];
    forall x | x in NonEmptyIds(ids) ensures x in NonEmptyIds(before) || x == last {
      var i :| 0 <= i < |ids| && ids[i] != [] && ids[i] == x;
      if i < |before| { assert before[i] == x; }
    }
    forall x | x in NonEmptyIds(before) ensures x in NonEmptyIds(ids) {
      var i :| 0 <= i < |before| && before[i] != [] && before[i] == x;
      assert ids[i] == x;
    }
    if last != [] { assert ids[|ids| - 1] in NonEmptyIds(ids); }
  }

  lemma {:induction false} AppendAllJoin(text: string, a: seq<Id>, b: seq<Id>)
    ensures AppendAll(AppendAll(text, a), b) == AppendAll(text, a + b)
  {
    if b == [] {
      assert a + b == a;
    } else {
      AppendAllJoin(text, a, b[..|b| - 1]);
      assert (a + b)[..|a + b| - 1] == a + b[..|b| - 1];
    }
  }

  /** Once a token is revoked, every token that shares a block with it is revoked at every
      later lookup, whatever is revoked in between. */
  lemma SharedBlockStaysRevoked(text: string, token: seq<Id>, later: seq<Id>, other: seq<Id>, k: nat, readable: bool)
    requires NewlineTerminated(text)
    requires k < |other| && other[k] in token && other[k] != []
    ensures Revoked(if readable then LoadIds(AppendAll(AppendAll(text, token), later)) else None, other)
  {
    AppendAllJoin(text, token, later);
    if LoadIds(text).None? {
      UnreadableStays(text, token + later);
    } else {
      RevocationsAccumulate(text, token + later);
      var i :| 0 <= i < |token| && token[i] == other[k];
      assert (token + later)[i] == other[k];
      assert other[k] in NonEmptyIds(token + later);
    }
  }

  /** A file with a malformed complete line stays unreadable under every append. */
  lemma {:induction false} UnreadableStays(text: string, ids: seq<Id>)
    requires NewlineTerminated(text) && LoadIds(text).None?
    ensures NewlineTerminated(AppendAll(text, ids)) && LoadIds(AppendAll(text, ids)).None?
  {
    if ids != [] {
      var before, line := AppendAll(text, ids[..|ids| - 1]), HexEncode(ids[|ids| - 1]) + "\n";
      UnreadableStays(text, ids[..|ids| - 1]);
      Associative(before, HexEncode(ids[|ids| - 1]), "\n");
      LoadAfter(before, line);
    }
  }

  /** The file must end in a complete line: appended to a torn one, a revocation is lost. */
  lemma TornLineLosesRevocation()
    ensures LoadIds("ab").Some? && !NewlineTerminated("ab")
    ensures LoadIds("ab" + HexEncode([0xCD]) + "\n") == Some({[0xAB, 0xCD]})
  {
    var id: Id := [0xAB, 0xCD];
    assert id[1..] == [0xCD] && id[1..][1..] == [];
    assert HexEncode([0xCD]) == "cd" && HexEncode(id) == "abcd";
    RevocationLine(id);
    assert "ab" + "cd" + "\n" == "abcd" + "\n";
    UnfinishedLoads();
  }

  lemma UnfinishedLoads()
    ensures LoadIds("ab") == Some({[0xAB]})
  {
    SplitOnceNone("ab", '\n');
    TrimIdentity("ab");
    assert Lines("ab") == ["ab"];
    assert HexEncode([0xAB]) == "ab" by { assert [0xAB][1..] == []; }
    HexRoundTrip([0xAB]);
    LoadOneLine("ab");
  }

  lemma {:induction false} HexDecodeAppend(s: string, id: Id)
    requires HexDecode(s).Some?
    ensures HexDecode(s + HexEncode(id)) == Some(HexDecode(s).value + id)
  {
    if s == "" {
      assert s + HexEncode(id) == HexEncode(id) && HexDecode(s).value + id == id;
      HexRoundTrip(id);
    } else {
      var all := s + HexEncode(id);
      assert all[0] == s[0] && all[1] == s[1] && all[2..] == s[2..] + HexEncode(id);
      HexDecodeAppend(s[2..], id);
      var first, rest := HexDecode(s).value[0], HexDecode(s[2..]).value;
      assert HexDecode(s).value == [first] + rest;
      assert [first] + (rest + id) == [first] + rest + id;
    }
  }

  lemma {:induction false} HexDecodeRejects(s: string)
    ensures HexDecode(s).Some? ==> IsHex(s)
  {
    if |s| >= 2 {
      HexDecodeRejects(s[2..]);
      assert forall i :: 2 <= i < |s| ==> s[i] == s[2..][i - 2];
    }
  }

  lemma LoadOneLine(line: string)
    requires Trim(line) != ""
    ensures LoadLines([line]) == if HexDecode(Trim(line)).Some? then Some({HexDecode(Trim(line)).value}) else None
  {
    assert [line][1..] == [];
    if HexDecode(Trim(line)).Some? {
      var id := HexDecode(Trim(line)).value;
      assert {id} + {} == {id};
    }
  }

  /** The last, unfinished line of the file, continued by a revocation. */
  lemma ContinuedLine(tail: string, id: Id)
    requires '\n' !in tail && LoadIds(tail).Some? && id != []
    ensures
      var r := LoadIds(tail + HexEncode(id) + "\n");
      Revoked(r, [id]) <==> tail == "" || IsWhitespace(tail[|tail| - 1])
  {
    var line := tail + HexEncode(id);
    HexIsHex(id);
    HexHasNoBlanks(HexEncode(id));
    assert line[|line| - 1] == HexEncode(id)[|HexEncode(id)| - 1];
    LinesFirst(line, "");
    assert line + "\n" + "" == line + "\n" && DropCarriageReturn(line) == line;
    assert Lines(line + "\n") == [line];
    ContinuedText(tail, id);
    LoadOneLine(line);
    assert [id][0] == id;
  }

  /** The continued line reads as another id, unless a blank comes between. */
  lemma ContinuedText(tail: string, id: Id)
    requires '\n' !in tail && LoadIds(tail).Some? && id != []
    ensures
      var text := Trim(tail + HexEncode(id));
      && text != ""
      && (HexDecode(text) == None || HexDecode(text) == Some(id) <==> tail == "" || IsWhitespace(tail[|tail| - 1]))
  {
    var before, after := TrimParts(tail);
    if Trim(tail) != "" { UnfinishedLine(tail); }
    ContinuedParts(before, Trim(tail), after, id);
  }

  lemma ContinuedParts(before: string, core: string, after: string, id: Id)
    requires Blank(before) && Blank(after) && id != []
    requires core == "" || (!IsWhitespace(core[0]) && !IsWhitespace(core[|core| - 1]))
    requires core != "" ==> HexDecode(core).Some? && |HexDecode(core).value| > 0
    ensures
      var tail := before + core + after;
      var text := Trim(tail + HexEncode(id));
      && text != ""
      && (HexDecode(text) == None || HexDecode(text) == Some(id) <==> tail == "" || IsWhitespace(tail[|tail| - 1]))
  {
    var hex := HexEncode(id);
    HexIsHex(id);
    HexHasNoBlanks(hex);
    ContinuedTrim(before, core, after, hex);
    if core == "" {
      HexRoundTrip(id);
    } else if after == "" {
      LongerDecode(core, id);
    } else {
      BlankRejected(core, after, hex);
    }
  }

  lemma LongerDecode(core: string, id: Id)
    requires HexDecode(core).Some? && |HexDecode(core).value| > 0
    ensures HexDecode(core + HexEncode(id)).Some? && |HexDecode(core + HexEncode(id)).value| > |id|
  {
    HexDecodeAppend(core, id);
  }

  lemma BlankRejected(a: string, blank: string, b: string)
    requires blank != "" && Blank(blank)
    ensures HexDecode(a + blank + b) == None
  {
    var text := a + blank + b;
    assert text[|a|] == blank[0] && HexValue(blank[0]).None?;
    HexDecodeRejects(text);
  }

  lemma ContinuedTrim(before: string, core: string, after: string, hex: string)
    requires Blank(before) && Blank(after)
    requires core == "" || (!IsWhitespace(core[0]) && !IsWhitespace(core[|core| - 1]))
    requires hex != "" && !IsWhitespace(hex[0]) && !IsWhitespace(hex[|hex| - 1])
    ensures
      var tail := before + core + after;
      && Trim(tail + hex) == (if core == "" then hex else if after == "" then core + hex else core + after + hex)
      && (tail == "" || IsWhitespace(tail[|tail| - 1]) <==> core == "" || after != "")
  {
    if core == "" {
      assert before + core + after + hex == (before + after) + hex + "";
      TrimOf(before + after, hex, "");
    } else {
      assert before + core + after + hex == before + (core + after + hex) + "";
      TrimOf(before, core + after + hex, "");
      assert after == "" ==> core + after + hex == core + hex;
    }
  }

  lemma UnfinishedLine(tail: string)
    requires '\n' !in tail && LoadIds(tail).Some? && Trim(tail) != ""
    ensures HexDecode(Trim(tail)).Some? && |HexDecode(Trim(tail)).value| > 0
  {
    SplitOnceNone(tail, '\n');
    assert Lines(tail) == [tail];
    LoadOneLine(tail);
  }

  lemma LoadAfter(complete: string, more: string)
    requires NewlineTerminated(complete)
    ensures LoadIds(complete + more) ==
      if LoadIds(complete).Some? then With(LoadIds(complete).value, LoadIds(more)) else None
  {
    LinesAppend(complete, more);
    LoadLinesAppend(Lines(complete), Lines(more));
  }

  /** WHEN A REVOCATION TAKES EFFECT, for every readable file, split into complete lines and an
      unfinished rest: exactly when the rest is empty or ends in a blank (then the new line is
      readable, or the whole file becomes unreadable and revokes everything), or the id was
      already revoked by a complete line. */
  lemma RevocationSeenIff(complete: string, tail: string, id: Id)
    requires NewlineTerminated(complete) && '\n' !in tail && LoadIds(complete + tail).Some? && id != []
    ensures LoadIds(complete).Some?
    ensures Revoked(LoadIds(complete + tail + HexEncode(id) + "\n"), [id]) <==>
      tail == "" || IsWhitespace(tail[|tail| - 1]) || id in LoadIds(complete).value
  {
    Associative(complete, tail, HexEncode(id));
    Associative(complete, tail + HexEncode(id), "\n");
    LoadAfter(complete, tail);
    ContinuedLine(tail, id);
    RevokedAfter(complete, tail + HexEncode(id) + "\n", id);
  }

  lemma RevokedAfter(complete: string, more: string, id: Id)
    requires NewlineTerminated(complete) && LoadIds(complete).Some?
    ensures Revoked(LoadIds(complete + more), [id]) <==> Revoked(LoadIds(more), [id]) || id in LoadIds(complete).value
  {
    LoadAfter(complete, more);
    assert [id][0] == id;
  }

  // ---------------------------------------------------------------- appends that fail

  /** What a complete line revokes stays revoked whatever is appended later, whole or torn. */
  lemma RevokedUnderAnyAppend(text: string, more: string, ids: seq<Id>)
    requires NewlineTerminated(text) && Revoked(LoadIds(text), ids)
    ensures Revoked(LoadIds(text + more), ids)
  {
    LoadAfter(text, more);
    if LoadIds(text).Some? && LoadIds(text + more).Some? {
      var i :| 0 <= i < |ids| && ids[i] in LoadIds(text).value;
    }
  }

  lemma {:induction false} HexDecodeIff(s: string)
    requires IsHex(s)
    ensures HexDecode(s).Some? <==> |s| % 2 == 0
    ensures HexDecode(s).Some? ==> 2 * |HexDecode(s).value| == |s|
  {
    if |s| >= 2 {
      assert IsHex(s[2..]) by { assert forall i :: 0 <= i < |s[2..]| ==> s[2..][i] == s[i + 2]; }
      HexDecodeIff(s[2..]);
    }
  }

  /** A line of digits reads as one id, or makes the file unreadable. */
  lemma HexLineLoads(line: string)
    requires IsHex(line) && line != ""
    ensures LoadIds(line + "\n") == if HexDecode(line).Some? then Some({HexDecode(line).value}) else None
  {
    HexHasNoBlanks(line);
    LinesFirst(line, "");
    assert line + "\n" + "" == line + "\n" && Lines(line + "\n") == [line];
    TrimIdentity(line);
    LoadOneLine(line);
  }

  lemma TornDigits(tail: string, id: Id)
    requires IsHex(tail) && id != []
    ensures Revoked(LoadIds(tail + HexEncode(id) + "\n"), [id]) <==> tail == "" || |tail| % 2 == 1
  {
    if tail == "" {
      RevocationLine(id);
      RevokedOne(LoadIds(HexEncode(id) + "\n"), id);
      assert tail + HexEncode(id) == HexEncode(id);
    } else {
      DigitsBefore(tail, id);
    }
  }

  lemma DigitsBefore(tail: string, id: Id)
    requires IsHex(tail) && tail != ""
    ensures Revoked(LoadIds(tail + HexEncode(id) + "\n"), [id]) <==> |tail| % 2 == 1
  {
    HexIsHex(id);
    HexConcat(tail, HexEncode(id));
    EvenMore(|tail|, |id|);
    LongerThan(tail + HexEncode(id), |tail|, id);
  }

  lemma HexConcat(a: string, b: string)
    requires IsHex(a) && IsHex(b)
    ensures IsHex(a + b) && |a + b| == |a| + |b|
  {
  }

  lemma LongerThan(line: string, n: nat, id: Id)
    requires IsHex(line) && n > 0 && |line| == n + 2 * |id| && |line| % 2 == n % 2
    ensures Revoked(LoadIds(line + "\n"), [id]) <==> n % 2 == 1
  {
    LongerLine(line, id);
  }

  lemma RevokedOne(loaded: Option<set<Id>>, id: Id)
    ensures Revoked(loaded, [id]) <==> loaded.None? || id in loaded.value
  {
    assert [id][0] == id;
  }

  /** A longer line of digits is another id, or unreadable when they are odd in number. */
  lemma LongerLine(line: string, id: Id)
    requires IsHex(line) && |line| > 2 * |id|
    ensures Revoked(LoadIds(line + "\n"), [id]) <==> |line| % 2 == 1
  {
    HexDecodeIff(line);
    HexLineLoads(line);
    RevokedOne(LoadIds(line + "\n"), id);
  }

  lemma EvenMore(a: nat, n: nat)
    ensures (a + 2 * n) % 2 == a % 2
  {
  }

  /** After a file of complete lines and the digits an earlier append left behind, an append of
      `id` takes effect iff nothing was left behind, or an odd number of digits (then the file
      becomes unreadable and revokes everything), or the file was unreadable, or the id was
      already there. */
  lemma AppendSeenIff(complete: string, tail: string, id: Id)
    requires NewlineTerminated(complete) && IsHex(tail) && id != []
    ensures Revoked(LoadIds(complete + tail + HexEncode(id) + "\n"), [id]) <==>
      tail == "" || |tail| % 2 == 1 || LoadIds(complete).None? || id in LoadIds(complete).value
  {
    Associative(complete, tail, HexEncode(id));
    Associative(complete, tail + HexEncode(id), "\n");
    TornDigits(tail, id);
    if LoadIds(complete).Some? {
      RevokedAfter(complete, tail + HexEncode(id) + "\n", id);
    } else {
      LoadAfter(complete, tail + HexEncode(id) + "\n");
    }
  }

  /** A REVOCATION TRIED AGAIN: when an append of `id` fails after `written` characters and the
      next one succeeds, the id is revoked iff the first left nothing, an odd number of digits
      or its whole line, or the file was unreadable or held the id before. */
  lemma RetrySeenIff(text: string, id: Id, written: nat)
    requires NewlineTerminated(text) && id != [] && written <= 2 * |id| + 1
    ensures
      Revoked(LoadIds(text + Written(id, Fails(written)) + HexEncode(id) + "\n"), [id]) <==>
      || written == 0 || written % 2 == 1
      || LoadIds(text).None? || id in LoadIds(text).value
  {
    LeftBehind(id, written);
    RetryCases(text, Written(id, Fails(written)), id);
  }

  lemma RetryCases(text: string, left: string, id: Id)
    requires NewlineTerminated(text) && id != [] && (left == HexEncode(id) + "\n" || IsHex(left))
    ensures
      Revoked(LoadIds(text + left + HexEncode(id) + "\n"), [id]) <==>
      || |left| == 0 || |left| % 2 == 1
      || LoadIds(text).None? || id in LoadIds(text).value
  {
    if left == HexEncode(id) + "\n" {
      HexIsHex(id);
      EvenMore(1, |id|);
      AppendedTwice(text, id);
    } else {
      TornSeenIff(text, left, id);
    }
  }

  lemma TornSeenIff(text: string, left: string, id: Id)
    requires NewlineTerminated(text) && IsHex(left) && id != []
    ensures
      Revoked(LoadIds(text + left + HexEncode(id) + "\n"), [id]) <==>
      || |left| == 0 || |left| % 2 == 1
      || LoadIds(text).None? || id in LoadIds(text).value
  {
    AppendSeenIff(text, left, id);
  }

  lemma LeftBehind(id: Id, written: nat)
    requires written <= 2 * |id| + 1
    ensures
      var left := Written(id, Fails(written));
      |left| == written && if written == 2 * |id| + 1 then left == HexEncode(id) + "\n" else IsHex(left)
  {
    HexIsHex(id);
    var line := HexEncode(id) + "\n";
    if written < |line| {
      assert line[..written] == HexEncode(id)[..written];
    } else {
      assert line[..written] == line;
    }
  }

  /** Two appends in a row that succeed always revoke, whatever stood there before. */
  lemma AppendedTwice(text: string, id: Id)
    requires id != []
    ensures Revoked(LoadIds(text + (HexEncode(id) + "\n") + HexEncode(id) + "\n"), [id])
  {
    var first := text + (HexEncode(id) + "\n");
    assert NewlineTerminated(first);
    assert first + "" == first;
    AppendSeenIff(first, "", id);
  }

  /** A concrete retry that loses its revocation: the first append left one byte of two. */
  lemma RetryLosesRevocation(id: Id)
    requires |id| == 2
    ensures !Revoked(LoadIds("" + Written(id, Fails(2)) + HexEncode(id) + "\n"), [id])
  {
    RetrySeenIff("", id, 2);
  }
}
