/**
 The RustDesk configuration patcher: rewrites the assignments of the wanted keys in place and appends those
 that are missing.
 */
module RustdeskToml {
  import opened Common
  import opened Text

  datatype Setting = Setting(key: string, value: string)

  function Quoted(s: string): string { "\"" + s + "\"" }

  function Wanted(password: string, bind: string): seq<Setting> {
    [Setting("password", Quoted(password)), Setting("direct-access", "true"), Setting("direct-server", "true"),
     Setting("direct-access-port", "21118"), Setting("direct-access-bind", Quoted(bind)),
     Setting("rendezvous-server", "\"\""), Setting("relay-server", "\"\""), Setting("custom-rendezvous-server", "\"\"")]
  }

  // ---- One line ------------------------------------------------------------------------------

  /** Index of the first equals sign, or the length. */
  function Equals(s: string): (n: nat)
    ensures n <= |s|
    ensures n < |s| ==> s[n] == '='
    ensures forall i :: 0 <= i < n ==> s[i] != '='
  {
    if s == "" || s[0] == '=' then 0 else 1 + Equals(s[1..])
  }

  /** The key a line assigns, if it assigns one. */
  function KeyOf(line: string): Option<string> {
    var stripped := Strip(line);
    var n := Equals(stripped);
    if n < |stripped| && !StartsWith(stripped, "#") then Some(Strip(stripped[..n])) else None
  }

  function Lookup(wanted: seq<Setting>, key: string): (r: Option<string>)
    ensures r.None? <==> forall i :: 0 <= i < |wanted| ==> wanted[i].key != key
    ensures r.Some? ==> Setting(key, r.value) in wanted
  {
    if wanted == [] then None
    else if wanted[0].key == key then Some(wanted[0].value)
    else Lookup(wanted[1..], key)
  }

  function Assignment(s: Setting): string { s.key + " = " + s.value }

  /** The wanted setting a line assigns. */
  function Assigned(wanted: seq<Setting>, line: string): (r: Option<Setting>)
    ensures r.Some? ==> r.value in wanted
  {
    var key := KeyOf(line);
    if key.None? then None
    else
      var value := Lookup(wanted, key.value);
      if value.None? then None else Some(Setting(key.value, value.value))
  }

  /** How a line is read: the setting it assigns, if any. */
  type Reader = string -> Option<Setting>

  function ReaderOf(wanted: seq<Setting>): Reader { line => Assigned(wanted, line) }

  // ---- The whole file ------------------------------------------------------------------------

  function Patched(read: Reader, line: string): string {
    var s := read(line);
    if s.Some? then Assignment(s.value) else line
  }

  function PatchedLines(read: Reader, lines: seq<string>): (r: seq<string>)
    ensures |r| == |lines|
    ensures forall i :: 0 <= i < |lines| ==> r[i] == Patched(read, lines[i])
  {
    seq(|lines|, i requires 0 <= i < |lines| => Patched(read, lines[i]))
  }

  /** The wanted keys that some line assigns. */
  function SeenKeys(read: Reader, lines: seq<string>): set<string> {
    if lines == [] then {}
    else
      var earlier, s := SeenKeys(read, lines[..|lines| - 1]), read(lines[|lines| - 1]);
      if s.Some? then earlier + {s.value.key} else earlier
  }

  /** Assignments of the settings in `rest` whose keys were not seen. */
  function Missing(seen: set<string>, rest: seq<Setting>): seq<string> {
    if rest == [] then []
    else
      var earlier, s := Missing(seen, rest[..|rest| - 1]), rest[|rest| - 1];
      if s.key in seen then earlier else earlier + [Assignment(s)]
  }

  function MergedLines(read: Reader, wanted: seq<Setting>, lines: seq<string>): seq<string> {
    PatchedLines(read, lines) + Missing(SeenKeys(read, lines), wanted)
  }

  function Merged(read: Reader, wanted: seq<Setting>, text: string): string {
    JoinLines(MergedLines(read, wanted, SplitLines(text)))
  }

  // ---- Well-behaved settings -----------------------------------------------------------------

  predicate Edged(s: string) { s != "" && !IsSpace(s[0]) && !IsSpace(s[|s| - 1]) }

  predicate KeyOk(key: string) {
    && Edged(key) && key[0] != '#'
    && forall i :: 0 <= i < |key| ==> key[i] != '=' && !IsLineBreak(key[i])
  }

  ghost predicate SettingsOk(wanted: seq<Setting>) {
    && (forall i :: 0 <= i < |wanted| ==> KeyOk(wanted[i].key) && Edged(wanted[i].value))
    && (forall i, j :: 0 <= i < j < |wanted| ==> wanted[i].key != wanted[j].key)
  }

  lemma KeysOk()
    ensures KeyOk("password") && KeyOk("direct-access") && KeyOk("direct-server") && KeyOk("relay-server")
  {
  }

  lemma LongKeysOk()
    ensures KeyOk("direct-access-port") && KeyOk("direct-access-bind") && KeyOk("rendezvous-server")
  {
  }

  lemma LongestKeyOk()
    ensures KeyOk("custom-rendezvous-server")
  {
  }

  lemma KeysDistinct(wanted: seq<Setting>, password: string, bind: string)
    requires wanted == Wanted(password, bind)
    ensures forall i, j :: 0 <= i < j < |wanted| ==> wanted[i].key != wanted[j].key
  {
  }

  lemma WantedOk(password: string, bind: string)
    ensures SettingsOk(Wanted(password, bind))
  {
    KeysOk();
    LongKeysOk();
    LongestKeyOk();
    KeysDistinct(Wanted(password, bind), password, bind);
  }

  lemma StripEdged(s: string)
    requires Edged(s)
    ensures Strip(s) == s
  {
  }

  lemma EqualsOf(key: string, rest: string)
    requires forall i :: 0 <= i < |key| ==> key[i] != '='
    ensures Equals(key + "=" + rest) == |key|
  {
    var s := key + "=" + rest;
    assert s[|key|] == '=';
    forall i | 0 <= i < |key| ensures s[i] != '=' {
      assert s[i] == key[i];
    }
  }

  lemma StripSpaceAfter(key: string)
    requires Edged(key)
    ensures Strip(key + " ") == key
  {
    var s := key + " ";
    assert s[0] == key[0] && LStrip(s) == s;
    assert s[..|s| - 1] == key && RStrip(s) == RStrip(key);
  }

  lemma KeyOfLine(line: string, n: nat)
    requires Strip(line) == line && !StartsWith(line, "#") && n == Equals(line) < |line|
    ensures KeyOf(line) == Some(Strip(line[..n]))
  {
  }

  lemma NotComment(line: string)
    requires line != "" && line[0] != '#'
    ensures !StartsWith(line, "#")
  {
    assert line[..1][0] == line[0];
  }

  /** An assignment of an acceptable setting is read back as an assignment of its key. */
  lemma KeyOfAssignment(s: Setting)
    requires KeyOk(s.key) && Edged(s.value)
    ensures KeyOf(Assignment(s)) == Some(s.key)
  {
    var line := Assignment(s);
    assert line == (s.key + " ") + "=" + (" " + s.value);
    EqualsOf(s.key + " ", " " + s.value);
    assert line[..|s.key| + 1] == s.key + " ";
    assert line[0] == s.key[0] && line[|line| - 1] == s.value[|s.value| - 1];
    StripEdged(line);
    NotComment(line);
    KeyOfLine(line, |s.key| + 1);
    StripSpaceAfter(s.key);
  }

  lemma {:induction false} LookupOf(wanted: seq<Setting>, s: Setting)
    requires s in wanted && forall i, j :: 0 <= i < j < |wanted| ==> wanted[i].key != wanted[j].key
    ensures Lookup(wanted, s.key) == Some(s.value)
  {
    if wanted[0] != s {
      assert s in wanted[1..];
      LookupOf(wanted[1..], s);
    }
  }

  /** The reader knows the wanted settings: it finds nothing else, and reads their assignments back. */
  ghost predicate Reads(read: Reader, wanted: seq<Setting>) {
    && SettingsOk(wanted)
    && (forall l :: read(l).Some? ==> read(l).value in wanted)
    && (forall i :: 0 <= i < |wanted| ==> read(Assignment(wanted[i])) == Some(wanted[i]))
  }

  lemma AssignmentRead(wanted: seq<Setting>, s: Setting)
    requires KeyOf(Assignment(s)) == Some(s.key) && Lookup(wanted, s.key) == Some(s.value)
    ensures ReaderOf(wanted)(Assignment(s)) == Some(s)
  {
  }

  lemma SettingRead(wanted: seq<Setting>, i: nat)
    requires SettingsOk(wanted) && i < |wanted|
    ensures KeyOf(Assignment(wanted[i])) == Some(wanted[i].key)
    ensures ReaderOf(wanted)(Assignment(wanted[i])) == Some(wanted[i])
  {
    KeyOfAssignment(wanted[i]);
    LookupOf(wanted, wanted[i]);
    AssignmentRead(wanted, wanted[i]);
  }

  lemma ReaderReads(wanted: seq<Setting>)
    requires SettingsOk(wanted)
    ensures Reads(ReaderOf(wanted), wanted)
  {
    forall i | 0 <= i < |wanted| ensures ReaderOf(wanted)(Assignment(wanted[i])) == Some(wanted[i]) {
      SettingRead(wanted, i);
    }
  }

  // ---- What the patched file says ------------------------------------------------------------

  lemma {:induction false} SeenAt(read: Reader, lines: seq<string>, k: nat)
    requires k < |lines| && read(lines[k]).Some?
    ensures read(lines[k]).value.key in SeenKeys(read, lines)
  {
    var n := |lines| - 1;
    if k < n { SeenAt(read, lines[..n], k); }
  }

  lemma {:induction false} SeenWhere(read: Reader, lines: seq<string>, key: string) returns (k: nat)
    requires key in SeenKeys(read, lines)
    ensures k < |lines| && read(lines[k]).Some? && read(lines[k]).value.key == key
  {
    k := |lines| - 1;
    var s := read(lines[k]);
    if !(s.Some? && s.value.key == key) { k := SeenWhere(read, lines[..k], key); }
  }

  lemma {:induction false} MissingWhere(seen: set<string>, rest: seq<Setting>, l: string) returns (i: nat)
    requires l in Missing(seen, rest)
    ensures i < |rest| && l == Assignment(rest[i])
  {
    i := |rest| - 1;
    if l != Assignment(rest[i]) { i := MissingWhere(seen, rest[..i], l); }
  }

  lemma {:induction false} MissingHas(seen: set<string>, rest: seq<Setting>, i: nat)
    requires i < |rest| && rest[i].key !in seen
    ensures Assignment(rest[i]) in Missing(seen, rest)
  {
    var n := |rest| - 1;
    if i < n {
      MissingHas(seen, rest[..n], i);
    } else {
      assert Missing(seen, rest)[|Missing(seen, rest)| - 1] == Assignment(rest[i]);
    }
  }

  lemma {:induction false} MissingNone(seen: set<string>, rest: seq<Setting>)
    requires forall i :: 0 <= i < |rest| ==> rest[i].key in seen
    ensures Missing(seen, rest) == []
  {
    if rest != [] { MissingNone(seen, rest[..|rest| - 1]); }
  }

  lemma Present(read: Reader, wanted: seq<Setting>, lines: seq<string>, i: nat) returns (k: nat)
    requires Reads(read, wanted) && i < |wanted|
    ensures k < |MergedLines(read, wanted, lines)| && MergedLines(read, wanted, lines)[k] == Assignment(wanted[i])
  {
    var seen := SeenKeys(read, lines);
    if wanted[i].key in seen {
      k := SeenWhere(read, lines, wanted[i].key);
      assert read(lines[k]).value in wanted;
    } else {
      MissingHas(seen, wanted, i);
      var m :| 0 <= m < |Missing(seen, wanted)| && Missing(seen, wanted)[m] == Assignment(wanted[i]);
      k := |lines| + m;
    }
  }

  lemma AllSeen(read: Reader, wanted: seq<Setting>, lines: seq<string>)
    requires Reads(read, wanted)
    ensures forall i :: 0 <= i < |wanted| ==> Assignment(wanted[i]) in MergedLines(read, wanted, lines)
    ensures forall i :: 0 <= i < |wanted| ==> wanted[i].key in SeenKeys(read, MergedLines(read, wanted, lines))
  {
    var merged := MergedLines(read, wanted, lines);
    forall i | 0 <= i < |wanted| ensures Assignment(wanted[i]) in merged && wanted[i].key in SeenKeys(read, merged) {
      var k := Present(read, wanted, lines, i);
      SeenAt(read, merged, k);
    }
  }

  /** Each merged line is an untouched line or the assignment of a wanted setting. */
  lemma MergedLine(read: Reader, wanted: seq<Setting>, lines: seq<string>, k: nat) returns (i: nat)
    requires Reads(read, wanted) && k < |MergedLines(read, wanted, lines)|
    ensures
      var line := MergedLines(read, wanted, lines)[k];
      if k < |lines| && read(lines[k]).None? then line == lines[k]
      else i < |wanted| && line == Assignment(wanted[i]) && read(line) == Some(wanted[i])
  {
    i := 0;
    if k >= |lines| {
      i := MissingWhere(SeenKeys(read, lines), wanted, MergedLines(read, wanted, lines)[k]);
    } else if read(lines[k]).Some? {
      i :| 0 <= i < |wanted| && wanted[i] == read(lines[k]).value;
    }
  }

  predicate SingleValues(wanted: seq<Setting>) { forall i :: 0 <= i < |wanted| ==> SingleLine(wanted[i].value) }

  lemma AssignmentSingle(s: Setting)
    requires KeyOk(s.key)
    ensures SingleLine(Assignment(s)) <==> SingleLine(s.value)
  {
    var line := Assignment(s);
    forall i | 0 <= i < |s.value| ensures line[|s.key| + 3 + i] == s.value[i] {
    }
  }

  lemma MergedNotEmpty(read: Reader, wanted: seq<Setting>, lines: seq<string>)
    requires Reads(read, wanted) && wanted != []
    ensures MergedLines(read, wanted, lines) != []
  {
    var k := Present(read, wanted, lines, 0);
  }

  lemma MergedSingle(read: Reader, wanted: seq<Setting>, text: string)
    requires Reads(read, wanted) && SingleValues(wanted) && wanted != []
    ensures SplitLines(Merged(read, wanted, text)) == MergedLines(read, wanted, SplitLines(text))
  {
    var merged := MergedLines(read, wanted, SplitLines(text));
    forall k | 0 <= k < |merged| ensures SingleLine(merged[k]) {
      var i := MergedLine(read, wanted, SplitLines(text), k);
      if i < |wanted| { AssignmentSingle(wanted[i]); }
    }
    MergedNotEmpty(read, wanted, SplitLines(text));
    SplitOfJoin(merged);
    SplitEachSingle(merged);
  }

  /**
   The patched file, for values on one line: lines that assign no wanted key stay where they are, everything
   else is the assignment of a wanted setting, and each wanted setting is assigned.
   */
  ghost predicate IsPatchOf(read: Reader, wanted: seq<Setting>, before: seq<string>, after: seq<string>) {
    && |before| <= |after|
    && (forall i :: 0 <= i < |before| && read(before[i]).None? ==> after[i] == before[i])
    && (forall i :: |before| <= i < |after| ==> read(after[i]).Some?)
    && (forall i :: 0 <= i < |after| && read(after[i]).Some? ==> after[i] == Assignment(read(after[i]).value))
    && (forall i :: 0 <= i < |wanted| ==> Assignment(wanted[i]) in after)
  }

  lemma MergedIsPatch(read: Reader, wanted: seq<Setting>, text: string)
    requires Reads(read, wanted) && SingleValues(wanted) && wanted != []
    ensures IsPatchOf(read, wanted, SplitLines(text), SplitLines(Merged(read, wanted, text)))
  {
    var before, after := SplitLines(text), SplitLines(Merged(read, wanted, text));
    MergedSingle(read, wanted, text);
    AllSeen(read, wanted, before);
    forall k | 0 <= k < |after|
      ensures read(after[k]).Some? ==> after[k] == Assignment(read(after[k]).value)
      ensures k >= |before| ==> read(after[k]).Some?
    {
      var i := MergedLine(read, wanted, before, k);
    }
  }

  /** The eight settings, whatever the file held before. */
  lemma PatchedFile(text: string, password: string, bind: string)
    requires SingleLine(password) && SingleLine(bind)
    ensures
      var wanted := Wanted(password, bind);
      IsPatchOf(ReaderOf(wanted), wanted, SplitLines(text), SplitLines(Merged(ReaderOf(wanted), wanted, text)))
  {
    var wanted := Wanted(password, bind);
    WantedOk(password, bind);
    ReaderReads(wanted);
    SingleValuesOf(password, bind);
    MergedIsPatch(ReaderOf(wanted), wanted, text);
  }

  lemma KeySplit(s: string) returns (before: string, after: string)
    requires Equals(s) < |s| && !StartsWith(s, "#")
    ensures s == before + "=" + after && before == s[..Equals(s)]
    ensures '=' !in before && (before == "" || before[0] != '#')
  {
    before, after := s[..Equals(s)], s[Equals(s) + 1..];
    assert s[..1] == [s[0]];
    assert before != "" ==> before[0] == s[0];
  }

  lemma KeyJoin(s: string, before: string, after: string)
    requires s == before + "=" + after && '=' !in before && (before == "" || before[0] != '#')
    ensures Equals(s) == |before| < |s| && s[..|before|] == before && !StartsWith(s, "#")
  {
    EqualsOf(before, after);
    assert s[..1] == [s[0]] && s[0] == if before == "" then '=' else before[0];
  }

  lemma KeyFrom(line: string, before: string, after: string)
    requires Strip(line) == before + "=" + after && '=' !in before && (before == "" || before[0] != '#')
    ensures KeyOf(line) == Some(Strip(before))
  {
    KeyJoin(Strip(line), before, after);
  }

  /** A line assigns the stripped text before its first equals sign, unless it is a comment. */
  lemma {:induction false} KeyOfExactly(line: string, key: string)
    ensures KeyOf(line) == Some(key) <==>
              exists before, after ::
                && Strip(line) == before + "=" + after
                && '=' !in before && (before == "" || before[0] != '#') && Strip(before) == key
  {
    if KeyOf(line) == Some(key) {
      var before, after := KeySplit(Strip(line));
    }
    if before, after :| Strip(line) == before + "=" + after && '=' !in before && (before == "" || before[0] != '#')
                        && Strip(before) == key {
      KeyFrom(line, before, after);
    }
  }

  /** The keys the patcher writes. */
  const KEYS: set<string> := {
    "password", "direct-access", "direct-server", "direct-access-port", "direct-access-bind", "rendezvous-server",
    "relay-server", "custom-rendezvous-server"}

  /** The lines it writes for them. */
  function WrittenLines(password: string, bind: string): seq<string> {
    ["password = \"" + password + "\"", "direct-access = true", "direct-server = true",
     "direct-access-port = 21118", "direct-access-bind = \"" + bind + "\"",
     "rendezvous-server = \"\"", "relay-server = \"\"", "custom-rendezvous-server = \"\""]
  }

  lemma QuotedLines(password: string, bind: string)
    ensures Assignment(Setting("password", Quoted(password))) == "password = \"" + password + "\""
    ensures Assignment(Setting("direct-access-bind", Quoted(bind))) == "direct-access-bind = \"" + bind + "\""
  {
    assert "password" + " = " + "\"" == "password = \"";
    assert "direct-access-bind" + " = " + "\"" == "direct-access-bind = \"";
  }

  lemma SwitchLines()
    ensures Assignment(Setting("direct-access", "true")) == "direct-access = true"
    ensures Assignment(Setting("direct-server", "true")) == "direct-server = true"
    ensures Assignment(Setting("direct-access-port", "21118")) == "direct-access-port = 21118"
  {
  }

  lemma EmptyLines()
    ensures Assignment(Setting("rendezvous-server", "\"\"")) == "rendezvous-server = \"\""
    ensures Assignment(Setting("relay-server", "\"\"")) == "relay-server = \"\""
    ensures Assignment(Setting("custom-rendezvous-server", "\"\"")) == "custom-rendezvous-server = \"\""
  {
  }

  lemma LinesWritten(wanted: seq<Setting>, lines: seq<string>, password: string, bind: string)
    requires wanted == Wanted(password, bind) && lines == WrittenLines(password, bind)
    ensures |lines| == |wanted| && forall i :: 0 <= i < |wanted| ==> lines[i] == Assignment(wanted[i])
  {
    QuotedLines(password, bind);
    SwitchLines();
    EmptyLines();
  }

  lemma KeysAre(wanted: seq<Setting>, keys: set<string>, password: string, bind: string, key: string)
    requires wanted == Wanted(password, bind) && keys == KEYS
    ensures key in keys <==> exists i :: 0 <= i < |wanted| && wanted[i].key == key
  {
    assert wanted[0].key == "password" && wanted[1].key == "direct-access" && wanted[2].key == "direct-server";
    assert wanted[3].key == "direct-access-port" && wanted[4].key == "direct-access-bind";
    assert wanted[5].key == "rendezvous-server" && wanted[6].key == "relay-server";
    assert wanted[7].key == "custom-rendezvous-server";
  }

  ghost predicate AssignsOneOf(keys: set<string>, line: string) { KeyOf(line).Some? && KeyOf(line).value in keys }

  /** Lines that assign none of the keys stay, the others become the line of their key, and each line is there. */
  ghost predicate RewrittenWith(keys: set<string>, written: seq<string>, before: seq<string>, after: seq<string>) {
    && |before| <= |after|
    && (forall i :: 0 <= i < |before| && !AssignsOneOf(keys, before[i]) ==> after[i] == before[i])
    && (forall i :: 0 <= i < |before| && AssignsOneOf(keys, before[i]) ==>
          KeyOf(after[i]) == KeyOf(before[i]) && after[i] in written)
    && (forall i :: |before| <= i < |after| ==> after[i] in written)
    && (forall i :: 0 <= i < |written| ==> written[i] in after)
  }

  lemma ReadKey(wanted: seq<Setting>, line: string)
    ensures ReaderOf(wanted)(line).Some? <==>
              KeyOf(line).Some? && exists i :: 0 <= i < |wanted| && wanted[i].key == KeyOf(line).value
    ensures ReaderOf(wanted)(line).Some? ==> KeyOf(line) == Some(ReaderOf(wanted)(line).value.key)
  {
  }

  lemma ReadExactly(wanted: seq<Setting>, keys: set<string>, line: string)
    requires SettingsOk(wanted)
    requires forall key :: key in keys <==> exists i :: 0 <= i < |wanted| && wanted[i].key == key
    ensures ReaderOf(wanted)(line).Some? <==> AssignsOneOf(keys, line)
    ensures ReaderOf(wanted)(line).Some? ==> KeyOf(Assignment(ReaderOf(wanted)(line).value)) == KeyOf(line)
  {
    ReadKey(wanted, line);
    var s := ReaderOf(wanted)(line);
    if s.Some? {
      var i :| 0 <= i < |wanted| && wanted[i] == s.value;
      SettingRead(wanted, i);
    }
  }

  lemma MergedRewrites(wanted: seq<Setting>, keys: set<string>, written: seq<string>, text: string)
    requires SettingsOk(wanted) && SingleValues(wanted) && wanted != []
    requires forall key :: key in keys <==> exists i :: 0 <= i < |wanted| && wanted[i].key == key
    requires |written| == |wanted| && forall i :: 0 <= i < |wanted| ==> written[i] == Assignment(wanted[i])
    ensures RewrittenWith(keys, written, SplitLines(text), SplitLines(Merged(ReaderOf(wanted), wanted, text)))
  {
    var read, before := ReaderOf(wanted), SplitLines(text);
    ReaderReads(wanted);
    MergedSingle(read, wanted, text);
    AllSeen(read, wanted, before);
    var after := MergedLines(read, wanted, before);
    forall i | 0 <= i < |after|
      ensures i < |before| && !AssignsOneOf(keys, before[i]) ==> after[i] == before[i]
      ensures i < |before| && AssignsOneOf(keys, before[i]) ==> KeyOf(after[i]) == KeyOf(before[i]) && after[i] in written
      ensures i >= |before| ==> after[i] in written
    {
      if i < |before| { ReadExactly(wanted, keys, before[i]); }
      var k := MergedLine(read, wanted, before, i);
      assert k < |written| ==> written[k] in written;
    }
  }

  /** What the patched file holds, for a password and an address on one line. */
  lemma PatchedText(text: string, password: string, bind: string)
    requires SingleLine(password) && SingleLine(bind)
    ensures RewrittenWith(KEYS, WrittenLines(password, bind), SplitLines(text),
                          SplitLines(Merged(ReaderOf(Wanted(password, bind)), Wanted(password, bind), text)))
  {
    WantedOk(password, bind);
    SingleValuesOf(password, bind);
    forall key ensures key in KEYS <==> exists i :: 0 <= i < |Wanted(password, bind)| && Wanted(password, bind)[i].key == key {
      KeysAre(Wanted(password, bind), KEYS, password, bind, key);
    }
    LinesWritten(Wanted(password, bind), WrittenLines(password, bind), password, bind);
    MergedRewrites(Wanted(password, bind), KEYS, WrittenLines(password, bind), text);
  }

  // ---- Idempotence ---------------------------------------------------------------------------

  lemma MergeAgain(read: Reader, wanted: seq<Setting>, text: string)
    requires Reads(read, wanted) && SingleValues(wanted) && wanted != []
    ensures Merged(read, wanted, Merged(read, wanted, text)) == Merged(read, wanted, text)
  {
    var merged := MergedLines(read, wanted, SplitLines(text));
    MergedSingle(read, wanted, text);
    AllSeen(read, wanted, SplitLines(text));
    forall k | 0 <= k < |merged| ensures Patched(read, merged[k]) == merged[k] {
      var i := MergedLine(read, wanted, SplitLines(text), k);
    }
    assert PatchedLines(read, merged) == merged;
    MissingNone(SeenKeys(read, merged), wanted);
    assert MergedLines(read, wanted, merged) == merged;
  }

  lemma LineOfPiece(piece: string)
    ensures |SplitLines(piece + "\n")| >= 1
  {
  }

  lemma BrokenPiece(piece: string)
    requires !SingleLine(piece) && !IsLineBreak(piece[|piece| - 1])
    ensures |SplitLines(piece + "\n")| >= 2
  {
    var line, brk, tail := FirstBreak(piece);
    assert piece[|piece| - 1] == (line + brk + tail)[|piece| - 1];
    assert tail != "";
    assert piece + "\n" == line + brk + (tail + "\n");
    SplitFirst(line, brk, tail + "\n");
    LineOfPiece(tail);
  }

  predicate Broken(piece: string) { !SingleLine(piece) && !IsLineBreak(piece[|piece| - 1]) }

  lemma {:induction false} SplitEachGrows(pieces: seq<string>)
    ensures |SplitEach(pieces)| >= |pieces|
    ensures (exists i :: 0 <= i < |pieces| && Broken(pieces[i])) ==> |SplitEach(pieces)| > |pieces|
  {
    if pieces != [] {
      LineOfPiece(pieces[0]);
      SplitEachGrows(pieces[1..]);
      if Broken(pieces[0]) {
        BrokenPiece(pieces[0]);
      } else if i :| 0 <= i < |pieces| && Broken(pieces[i]) {
        assert pieces[1..][i - 1] == pieces[i];
      }
    }
  }

  /** A value with a line break leaves fragments behind, so every further merge makes the file longer. */
  lemma BrokenValueGrows(read: Reader, wanted: seq<Setting>, text: string)
    requires Reads(read, wanted) && !SingleValues(wanted)
    ensures |SplitLines(Merged(read, wanted, text))| > |SplitLines(text)|
  {
    var merged := MergedLines(read, wanted, SplitLines(text));
    var i :| 0 <= i < |wanted| && !SingleLine(wanted[i].value);
    var k := Present(read, wanted, SplitLines(text), i);
    AssignmentSingle(wanted[i]);
    BrokenAssignment(wanted[i]);
    assert Broken(merged[k]);
    SplitOfJoin(merged);
    SplitEachGrows(merged);
  }

  lemma BrokenAssignment(s: Setting)
    requires KeyOk(s.key) && Edged(s.value) && !SingleLine(s.value)
    ensures Broken(Assignment(s))
  {
    AssignmentSingle(s);
    assert Assignment(s)[|Assignment(s)| - 1] == s.value[|s.value| - 1];
  }

  lemma SingleValuesOf(password: string, bind: string)
    ensures SingleValues(Wanted(password, bind)) <==> SingleLine(password) && SingleLine(bind)
  {
    var wanted := Wanted(password, bind);
    QuotedSingle(password);
    QuotedSingle(bind);
    assert SingleValues(wanted) ==> SingleLine(wanted[0].value) && SingleLine(wanted[4].value);
  }

  lemma QuotedSingle(s: string)
    ensures SingleLine(Quoted(s)) <==> SingleLine(s)
  {
    forall i | 0 <= i < |s| ensures Quoted(s)[i + 1] == s[i] {
    }
  }

  /** Merging twice is merging once exactly when neither the password nor the bind address has a line break. */
  lemma IdempotentExactly(text: string, password: string, bind: string)
    ensures
      var wanted := Wanted(password, bind);
      var once := Merged(ReaderOf(wanted), wanted, text);
      Merged(ReaderOf(wanted), wanted, once) == once <==> SingleLine(password) && SingleLine(bind)
  {
    var wanted := Wanted(password, bind);
    WantedOk(password, bind);
    ReaderReads(wanted);
    SingleValuesOf(password, bind);
    if SingleValues(wanted) {
      MergeAgain(ReaderOf(wanted), wanted, text);
    } else {
      BrokenValueGrows(ReaderOf(wanted), wanted, Merged(ReaderOf(wanted), wanted, text));
    }
  }

  // ---- The patcher ---------------------------------------------------------------------------

  method MergeRustdeskToml(existing: string, password: string, bind: string) returns (text: string)
    ensures text == Merged(ReaderOf(Wanted(password, bind)), Wanted(password, bind), existing)
  {
    text := Merge(existing, ReaderOf(Wanted(password, bind)), Wanted(password, bind));
  }

  method Merge(existing: string, read: Reader, wanted: seq<Setting>) returns (text: string)
    ensures text == Merged(read, wanted, existing)
  {
    var lines := SplitLines(existing);
    var seen: set<string> := {};
    var newLines: seq<string> := [];
    var i := 0;
    while i < |lines|
      invariant 0 <= i <= |lines|
      invariant newLines == PatchedLines(read, lines[..i])
      invariant seen == SeenKeys(read, lines[..i])
    {
      var line := lines[i];
      OneMoreLine(read, lines, i);
      i := i + 1;
      var s := read(line);
      if s.Some? {
        newLines := newLines + [s.value.key + " = " + s.value.value];
        seen := seen + {s.value.key};
        continue;
      }
      newLines := newLines + [line];
    }
    assert lines[..|lines|] == lines;
    var k := 0;
    while k < |wanted|
      invariant 0 <= k <= |wanted|
      invariant newLines == PatchedLines(read, lines) + Missing(seen, wanted[..k])
    {
      assert wanted[..k + 1][..k] == wanted[..k];
      if wanted[k].key !in seen {
        newLines := newLines + [wanted[k].key + " = " + wanted[k].value];
      }
      k := k + 1;
    }
    assert wanted[..|wanted|] == wanted;
    text := JoinLines(newLines);
  }

  lemma OneMoreLine(read: Reader, lines: seq<string>, i: nat)
    requires i < |lines|
    ensures PatchedLines(read, lines[..i + 1]) == PatchedLines(read, lines[..i]) + [Patched(read, lines[i])]
    ensures SeenKeys(read, lines[..i + 1])
         == SeenKeys(read, lines[..i]) + (if read(lines[i]).Some? then {read(lines[i]).value.key} else {})
  {
    assert lines[..i + 1][..i] == lines[..i];
  }
}
