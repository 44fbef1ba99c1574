/**
 The agent's local policy: flags and whitelist files under one directory, the functions that edit them, and the
 decision taken for a command. Pattern matching, path resolution and version parsing are arbitrary functions.
 */
module LocalPolicy {
  import opened Common
  import opened Text
  import K = Keyset

  /** A file's text and modification time. */
  datatype File = File(text: string, mtime: int)

  type Files = map<string, File>

  function TextOf(files: Files, name: string): string { if name in files then files[name].text else "" }

  function SetOf(lines: seq<string>): set<string> { set l | l in lines }

  function LinesOf(text: string): set<string> { SetOf(SplitLines(text)) }

  function NonBlank(lines: set<string>): set<string> { set l | l in lines && !Blank(l) }

  /** What the set model sees: the lines that are not blank. */
  function Items(text: string): set<string> { NonBlank(LinesOf(text)) }

  lemma OnlyBlanksDiffer(a: set<string>, b: set<string>)
    requires a <= b && forall l :: l in b && l !in a ==> Blank(l)
    ensures NonBlank(a) == NonBlank(b)
  {
  }

  // ---- Sorted distinct lines -----------------------------------------------------------------

  function Self(s: string): string { s }

  /** `sorted(set(lines))`. */
  function Sorted(lines: seq<string>): (r: seq<string>)
    ensures forall l :: l in r <==> l in lines
  {
    K.OrderByKeepsRows(Dedup(lines), Self, Less);
    K.OrderBy(Dedup(lines), Self, Less)
  }

  lemma LessIsStrictTotal()
    ensures K.StrictTotalOrder(Less)
  {
    forall a: string ensures !Less(a, a) { LessIrreflexive(a); }
    forall a: string, b: string, c: string | Less(a, b) && Less(b, c) ensures Less(a, c) { LessTransitive(a, b, c); }
    forall a: string, b: string | a != b ensures Less(a, b) || Less(b, a) { LessTotal(a, b); }
  }

  lemma SortedAscending(lines: seq<string>)
    ensures K.Ascending(Sorted(lines), Self, Less)
  {
    LessIsStrictTotal();
    K.OrderByAscending(Dedup(lines), Self, Less);
  }

  // ---- Editing a whitelist -------------------------------------------------------------------

  function Without(lines: seq<string>, item: string): (r: seq<string>)
    ensures forall y :: y in r <==> y in lines && y != item
  {
    if lines == [] then []
    else
      assert lines == [lines[0]] + lines[1..];
      (if lines[0] == item then [] else [lines[0]]) + Without(lines[1..], item)
  }

  /** The text of a whitelist after adding an item, a missing file counting as empty. */
  function Added(text: string, item: string): string {
    var lines := SplitLines(text);
    if item in lines then text else JoinLines(Sorted(lines + [item]))
  }

  function Removed(text: string, item: string): string {
    var lines := SplitLines(text);
    if item in lines then JoinLines(Sorted(Without(lines, item))) else text
  }

  /** Splitting undoes joining: rewritten single lines come back, one blank line standing for none. */
  lemma RewrittenLines(lines: seq<string>)
    requires forall l :: l in lines ==> SingleLine(l)
    ensures SplitLines(JoinLines(Sorted(lines))) == if lines == [] then [""] else Sorted(lines)
  {
    var pieces := Sorted(lines);
    if lines == [] {
      LineThenNewline("", "");
      assert "" + "\n" + "" == "\n";
    } else {
      assert lines[0] in pieces;
      SplitOfJoin(pieces);
      SplitEachSingle(pieces);
    }
  }

  lemma RewrittenSet(lines: seq<string>)
    requires forall l :: l in lines ==> SingleLine(l)
    ensures LinesOf(JoinLines(Sorted(lines))) == if lines == [] then {""} else SetOf(lines)
  {
    RewrittenLines(lines);
    assert SetOf(Sorted(lines)) == SetOf(lines);
    assert SetOf([""]) == {""};
  }

  lemma SetWithout(lines: seq<string>, item: string)
    ensures SetOf(Without(lines, item)) == SetOf(lines) - {item}
    ensures SetOf(lines + [item]) == SetOf(lines) + {item}
  {
  }

  lemma RemovedLines(text: string, item: string)
    ensures LinesOf(Removed(text, item)) - {""} == LinesOf(text) - {item} - {""}
    ensures "" !in LinesOf(text) && "" in LinesOf(Removed(text, item)) ==> LinesOf(text) == {item}
  {
    var lines := SplitLines(text);
    if item in lines {
      RewrittenSet(Without(lines, item));
      SetWithout(lines, item);
    }
  }

  lemma RemovedItems(text: string, item: string)
    ensures Items(Removed(text, item)) == Items(text) - {item}
    ensures LinesOf(Removed(text, item)) <= LinesOf(text) - {item} + {""}
  {
    RemovedLines(text, item);
    NonBlankWithout(LinesOf(Removed(text, item)), LinesOf(text), item);
  }

  lemma NonBlankWithout(a: set<string>, b: set<string>, item: string)
    requires a - {""} == b - {item} - {""}
    ensures NonBlank(a) == NonBlank(b) - {item} && a <= b - {item} + {""}
  {
    assert Blank("");
    forall l ensures l in NonBlank(a) <==> l in NonBlank(b) - {item} {
      assert l in a - {""} <==> l in b - {item} - {""};
    }
    forall l | l in a ensures l in b - {item} + {""} {
      assert l in a - {""} <==> l in b - {item} - {""};
    }
  }

  lemma AddedSingle(text: string, item: string)
    requires SingleLine(item)
    ensures LinesOf(Added(text, item)) == LinesOf(text) + {item}
  {
    var lines := SplitLines(text);
    if item !in lines {
      RewrittenSet(lines + [item]);
      SetWithout(lines, item);
    }
  }

  /** No line is lost by adding anything at all, and every new line is one of the item's. */
  lemma AddedKeepsLines(text: string, item: string)
    ensures LinesOf(text) <= LinesOf(Added(text, item)) <= LinesOf(text) + {item} + LinesOf(item + "\n")
  {
    var lines := SplitLines(text);
    if item !in lines {
      var pieces := Sorted(lines + [item]);
      assert item in pieces;
      SplitOfJoin(pieces);
      forall l | l in LinesOf(text) ensures l in LinesOf(Added(text, item)) {
        assert l in pieces;
        var i :| 0 <= i < |pieces| && pieces[i] == l;
        SplitEachContains(pieces, i);
        SingleAlone(l);
      }
      forall l | l in LinesOf(Added(text, item)) ensures l in LinesOf(text) + {item} + LinesOf(item + "\n") {
        SplitEachFrom(pieces, l);
        var i :| 0 <= i < |pieces| && l in SplitLines(pieces[i] + "\n");
        assert pieces[i] in pieces;
        if pieces[i] != item { SingleAlone(pieces[i]); }
      }
    }
  }

  lemma SingleAlone(l: string)
    requires SingleLine(l)
    ensures SplitLines(l + "\n") == [l]
  {
    LineThenNewline(l, "");
    assert l + "\n" + "" == l + "\n";
  }

  lemma {:induction false} BlankPieces(s: string)
    requires Blank(s)
    ensures forall l :: l in SplitLines(s) ==> Blank(l)
    decreases |s|
  {
    if s != "" {
      var n := LineLength(s);
      BlankPieces(s[n + BreakLength(s[n..])..]);
    }
  }

  lemma AddedBlank(text: string, item: string)
    requires Blank(item)
    ensures Items(Added(text, item)) == Items(text)
  {
    AddedKeepsLines(text, item);
    BlankPieces(item + "\n");
    OnlyBlanksDiffer(LinesOf(text), LinesOf(Added(text, item)));
  }

  lemma AddedItems(text: string, item: string)
    requires SingleLine(item) && !Blank(item)
    ensures Items(Added(text, item)) == Items(text) + {item}
  {
    AddedSingle(text, item);
    assert NonBlank(LinesOf(text) + {item}) == NonBlank(LinesOf(text)) + {item};
  }

  function ItemsWith(text: string, item: string): set<string> {
    Items(text) + (if Blank(item) then {} else {item})
  }

  /** The file is the set with the item added exactly for items on one line, and for blank ones. */
  lemma AddRefinesExactly(text: string, item: string)
    ensures Items(Added(text, item)) == ItemsWith(text, item) <==> SingleLine(item) || Blank(item)
  {
    if Blank(item) {
      AddedBlank(text, item);
    } else if SingleLine(item) {
      AddedItems(text, item);
    } else {
      assert item !in Items(Added(text, item));
      assert item in ItemsWith(text, item);
    }
  }

  // ---- Runs against the set model ------------------------------------------------------------

  datatype Edit = Add(item: string) | Remove(item: string)

  predicate Proper(e: Edit) { SingleLine(e.item) && !Blank(e.item) }

  function AfterEdits(text: string, edits: seq<Edit>): string {
    if edits == [] then text
    else
      var before, e := AfterEdits(text, edits[..|edits| - 1]), edits[|edits| - 1];
      if e.Add? then Added(before, e.item) else Removed(before, e.item)
  }

  function ModelEdits(items: set<string>, edits: seq<Edit>): set<string> {
    if edits == [] then items
    else
      var before, e := ModelEdits(items, edits[..|edits| - 1]), edits[|edits| - 1];
      if e.Add? then before + {e.item} else before - {e.item}
  }

  /** The file is a set: after any edits of any file, its non-blank lines are the plain set after the same edits. */
  lemma {:induction false} FileRefinesSet(text: string, edits: seq<Edit>)
    requires forall i :: 0 <= i < |edits| ==> Proper(edits[i])
    ensures Items(AfterEdits(text, edits)) == ModelEdits(Items(text), edits)
  {
    if edits != [] {
      var before, e := edits[..|edits| - 1], edits[|edits| - 1];
      FileRefinesSet(text, before);
      if e.Add? {
        AddRefinesExactly(AfterEdits(text, before), e.item);
      } else {
        RemovedItems(AfterEdits(text, before), e.item);
      }
    }
  }

  // ---- Decisions -----------------------------------------------------------------------------

  datatype Decision = Deny | RequireApproval | Allow

  datatype Command =
    | ExecShell
    | PkgInstall
    | ServiceRestart(service: string)
    | FileRead(path: string)
    | FileWrite(path: string)
    | ScreenOpen
    | SshKeysSync(claimed: string)
    | AgentUpgrade(version: string)
    | Reboot
    | Unknown(commandType: string)

  /** Resolved paths as components; a version's leading number when it has one. */
  datatype World =
    World(now: int, matches: (string, string) -> bool, resolve: string -> Option<seq<string>>,
          safePrefixes: seq<seq<string>>, major: string -> Option<int>, currentVersion: string)

  const FLAG_TTL := 24 * 3600

  predicate FlagLive(files: Files, w: World, flag: string) {
    flag in files && w.now - files[flag].mtime <= FLAG_TTL
  }

  /** `_read_lines` and `show_whitelist`: stripped lines that are neither blank nor comments. */
  function Patterns(text: string): set<string> { Image(LinesOf(text), Counts, Strip) }

  predicate Counts(line: string) { Strip(line) != "" && !StartsWith(Strip(line), "#") }

  function Image(lines: set<string>, keep: string -> bool, f: string -> string): set<string> {
    set l | l in lines && keep(l) :: f(l)
  }

  lemma ImageGrows(a: set<string>, b: set<string>, keep: string -> bool, f: string -> string)
    requires a <= b + {""} && !keep("")
    ensures Image(a, keep, f) <= Image(b, keep, f)
  {
  }

  predicate Listed(files: Files, w: World, name: string, value: string) {
    name in files && exists p :: p in Patterns(files[name].text) && w.matches(value, p)
  }

  predicate Safe(w: World, path: seq<string>) {
    exists i :: 0 <= i < |w.safePrefixes| && w.safePrefixes[i] <= path
  }

  function Decide(files: Files, w: World, c: Command, sensitive: bool): Decision {
    match c
    case ExecShell => if !sensitive || FlagLive(files, w, "allow-remote-exec") then Allow else Deny
    case PkgInstall => if sensitive then RequireApproval else Allow
    case ServiceRestart(service) => if !sensitive || Listed(files, w, "restart-whitelist", service) then Allow else Deny
    case FileRead(path) => if !sensitive || Listed(files, w, "read-allowlist", path) then Allow else Deny
    case FileWrite(path) =>
      if sensitive && !FlagLive(files, w, "allow-remote-write") then Deny
      else
        var resolved := w.resolve(path);
        if resolved.None? then Deny else if Safe(w, resolved.value) then Allow else RequireApproval
    case ScreenOpen => Allow
    case SshKeysSync(claimed) =>
      if "groups-yml-sha256" in files && Strip(files["groups-yml-sha256"].text) == claimed then Allow else Deny
    case AgentUpgrade(version) =>
      var current, target := w.major(w.currentVersion), w.major(version);
      if current.None? || target.None? then Deny else if current != target then RequireApproval else Allow
    case Reboot => RequireApproval
    case Unknown(_) => Deny
  }

  predicate SensitiveGroup(group: string) { group == "prod" || group == "iarq" }

  function Evaluate(files: Files, w: World, c: Command, group: string): Decision {
    Decide(files, w, c, SensitiveGroup(group))
  }

  /** Some line that is neither blank nor a comment matches when stripped. */
  ghost predicate SomeLineMatches(text: string, value: string, matches: (string, string) -> bool) {
    exists i :: 0 <= i < |SplitLines(text)| &&
      var pattern := Strip(SplitLines(text)[i]);
      pattern != "" && pattern[0] != '#' && matches(value, pattern)
  }

  lemma CommentExactly(s: string)
    requires s != ""
    ensures StartsWith(s, "#") <==> s[0] == '#'
  {
    assert s[..1] == [s[0]];
  }

  lemma ListedExactly(files: Files, w: World, name: string, value: string)
    ensures Listed(files, w, name, value) <==> name in files && SomeLineMatches(files[name].text, value, w.matches)
  {
    if name in files {
      var lines := SplitLines(files[name].text);
      forall i | 0 <= i < |lines| && Strip(lines[i]) != ""
        ensures StartsWith(Strip(lines[i]), "#") <==> Strip(lines[i])[0] == '#' {
        CommentExactly(Strip(lines[i]));
      }
      if p :| p in Patterns(files[name].text) && w.matches(value, p) {
        var l :| l in LinesOf(files[name].text) && Counts(l) && Strip(l) == p;
        var i :| 0 <= i < |lines| && lines[i] == l;
      }
      if i :| 0 <= i < |lines| && Strip(lines[i]) != "" && Strip(lines[i])[0] != '#' && w.matches(value, Strip(lines[i])) {
        assert lines[i] in LinesOf(files[name].text) && Counts(lines[i]);
        assert Strip(lines[i]) in Patterns(files[name].text);
      }
    }
  }

  /** Exactly which commands are allowed. */
  lemma {:induction false} AllowedExactly(files: Files, w: World, c: Command, group: string)
    ensures
      var sensitive := group == "prod" || group == "iarq";
      Evaluate(files, w, c, group) == Allow <==>
        match c
        case ExecShell =>
          !sensitive || ("allow-remote-exec" in files && w.now - files["allow-remote-exec"].mtime <= 86400)
        case PkgInstall => !sensitive
        case ServiceRestart(service) =>
          !sensitive ||
            ("restart-whitelist" in files && SomeLineMatches(files["restart-whitelist"].text, service, w.matches))
        case FileRead(path) =>
          !sensitive || ("read-allowlist" in files && SomeLineMatches(files["read-allowlist"].text, path, w.matches))
        case FileWrite(path) =>
          && (!sensitive || ("allow-remote-write" in files && w.now - files["allow-remote-write"].mtime <= 86400))
          && w.resolve(path).Some?
          && exists i :: 0 <= i < |w.safePrefixes| && w.safePrefixes[i] <= w.resolve(path).value
        case ScreenOpen => true
        case SshKeysSync(claimed) => "groups-yml-sha256" in files && Strip(files["groups-yml-sha256"].text) == claimed
        case AgentUpgrade(version) => w.major(version).Some? && w.major(version) == w.major(w.currentVersion)
        case Reboot => false
        case Unknown(_) => false
  {
    match c {
      case ServiceRestart(service) => ListedExactly(files, w, "restart-whitelist", service);
      case FileRead(path) => ListedExactly(files, w, "read-allowlist", path);
      case _ =>
    }
  }

  /** Exactly which wait for an approval; all others are denied. */
  lemma {:induction false} ApprovalNeededExactly(files: Files, w: World, c: Command, group: string)
    ensures
      var sensitive := group == "prod" || group == "iarq";
      Evaluate(files, w, c, group) == RequireApproval <==>
        match c
        case PkgInstall => sensitive
        case FileWrite(path) =>
          && (!sensitive || ("allow-remote-write" in files && w.now - files["allow-remote-write"].mtime <= 86400))
          && w.resolve(path).Some?
          && forall i :: 0 <= i < |w.safePrefixes| ==> !(w.safePrefixes[i] <= w.resolve(path).value)
        case AgentUpgrade(version) =>
          w.major(version).Some? && w.major(w.currentVersion).Some? && w.major(version) != w.major(w.currentVersion)
        case Reboot => true
        case _ => false
  {
  }

  predicate AtMost(a: Decision, b: Decision) { a == Deny || b == Allow || a == b }

  /** The sensitive tier is never more permissive, command by command. */
  lemma SensitiveNeverMorePermissive(files: Files, w: World, c: Command, group: string, other: string)
    requires SensitiveGroup(group)
    ensures AtMost(Evaluate(files, w, c, group), Evaluate(files, w, c, other))
  {
  }

  /** With an empty policy directory a sensitive host runs nothing but the display and same-major upgrades. */
  lemma EmptyPolicyFailsClosed(w: World, c: Command, group: string)
    requires SensitiveGroup(group)
    ensures Evaluate(map[], w, c, group) == Allow <==>
              || c.ScreenOpen?
              || (c.AgentUpgrade? && w.major(c.version).Some? && w.major(c.version) == w.major(w.currentVersion))
  {
  }

  // ---- Flags ---------------------------------------------------------------------------------

  datatype FlagEdit = Touch(name: string, at: int) | Drop(name: string)

  function Edited(files: Files, e: FlagEdit): Files {
    if e.Touch? then files[e.name := File(TextOf(files, e.name), e.at)] else files - {e.name}
  }

  function AfterFlags(files: Files, edits: seq<FlagEdit>): Files {
    if edits == [] then files else Edited(AfterFlags(files, edits[..|edits| - 1]), edits[|edits| - 1])
  }

  predicate LastEditAt(edits: seq<FlagEdit>, flag: string, i: nat) {
    i < |edits| && edits[i].name == flag && forall k :: i < k < |edits| ==> edits[k].name != flag
  }

  predicate NeverEdited(edits: seq<FlagEdit>, flag: string) { forall k :: 0 <= k < |edits| ==> edits[k].name != flag }

  /** The last edit of the flag was a touch no longer ago than its life, or there was none and it was live before. */
  predicate LiveAfter(files: Files, edits: seq<FlagEdit>, w: World, flag: string) {
    || (exists i :: 0 <= i < |edits| && LastEditAt(edits, flag, i) && edits[i].Touch? && w.now - edits[i].at <= FLAG_TTL)
    || (NeverEdited(edits, flag) && FlagLive(files, w, flag))
  }

  lemma {:induction false} EditedElsewhere(edits: seq<FlagEdit>, flag: string, i: nat)
    requires edits != [] && edits[|edits| - 1].name != flag
    ensures LastEditAt(edits, flag, i) <==> LastEditAt(edits[..|edits| - 1], flag, i)
    ensures NeverEdited(edits, flag) <==> NeverEdited(edits[..|edits| - 1], flag)
  {
    var init := edits[..|edits| - 1];
    assert forall k :: 0 <= k < |init| ==> init[k] == edits[k];
  }

  lemma {:induction false} FlagFollowsLastEdit(files: Files, edits: seq<FlagEdit>, w: World, flag: string)
    ensures FlagLive(AfterFlags(files, edits), w, flag) <==> LiveAfter(files, edits, w, flag)
  {
    if edits != [] {
      var n := |edits| - 1;
      if edits[n].name == flag {
        assert LastEditAt(edits, flag, n);
      } else {
        FlagFollowsLastEdit(files, edits[..n], w, flag);
        forall i: nat ensures LastEditAt(edits, flag, i) <==> LastEditAt(edits[..n], flag, i) {
          EditedElsewhere(edits, flag, i);
        }
        EditedElsewhere(edits, flag, 0);
      }
    }
  }

  /**
   After any run of touches and removals of any flags, a sensitive host runs a shell command exactly when the
   last edit of its flag was a touch at most 24 hours ago, and refuses a resolvable write exactly when the same
   fails for the write flag.
   */
  lemma SensitiveFollowsFlags(files: Files, edits: seq<FlagEdit>, w: World, group: string, path: string)
    requires SensitiveGroup(group) && w.resolve(path).Some?
    ensures Evaluate(AfterFlags(files, edits), w, ExecShell, group) == Allow <==>
              LiveAfter(files, edits, w, "allow-remote-exec")
    ensures Evaluate(AfterFlags(files, edits), w, FileWrite(path), group) == Deny <==>
              !LiveAfter(files, edits, w, "allow-remote-write")
  {
    FlagFollowsLastEdit(files, edits, w, "allow-remote-exec");
    FlagFollowsLastEdit(files, edits, w, "allow-remote-write");
  }

  // ---- Whitelist edits and decisions ---------------------------------------------------------

  lemma PatternsGrow(text: string, more: string)
    requires LinesOf(text) <= LinesOf(more) + {""}
    ensures Patterns(text) <= Patterns(more)
  {
    StripBlank("");
    ImageGrows(LinesOf(text), LinesOf(more), Counts, Strip);
  }

  predicate IsWhitelist(name: string) { name == "restart-whitelist" || name == "read-allowlist" }

  /** Only a whitelist's patterns matter, and more of them never makes a decision stricter. */
  lemma DecideGrows(files: Files, name: string, before: File, after: File, w: World, c: Command, sensitive: bool)
    requires IsWhitelist(name) && Patterns(before.text) <= Patterns(after.text)
    ensures AtMost(Decide(files[name := before], w, c, sensitive), Decide(files[name := after], w, c, sensitive))
  {
  }

  lemma DecideWithNewList(files: Files, name: string, added: File, w: World, c: Command, sensitive: bool)
    requires IsWhitelist(name) && name !in files
    ensures AtMost(Decide(files, w, c, sensitive), Decide(files[name := added], w, c, sensitive))
  {
  }

  /** Adding an entry, whatever its text, never makes any decision stricter. */
  lemma AddingNeverTightens(files: Files, w: World, name: string, item: string, mtime: int, c: Command, group: string)
    requires IsWhitelist(name)
    ensures AtMost(Evaluate(files, w, c, group),
                   Evaluate(files[name := File(Added(TextOf(files, name), item), mtime)], w, c, group))
  {
    var after := File(Added(TextOf(files, name), item), mtime);
    if name in files {
      AddedKeepsLines(TextOf(files, name), item);
      PatternsGrow(TextOf(files, name), after.text);
      DecideGrows(files, name, files[name], after, w, c, SensitiveGroup(group));
      assert files[name := files[name]] == files;
    } else {
      DecideWithNewList(files, name, after, w, c, SensitiveGroup(group));
    }
  }

  lemma {:induction false} StripBlank(s: string)
    requires Blank(s)
    ensures LStrip(s) == "" && Strip(s) == ""
  {
    if s != "" { StripBlank(s[1..]); }
  }

  /** Removing an entry never makes any decision more permissive. */
  lemma RemovingNeverLoosens(files: Files, w: World, name: string, item: string, mtime: int, c: Command, group: string)
    requires IsWhitelist(name) && name in files
    ensures AtMost(Evaluate(files[name := File(Removed(files[name].text, item), mtime)], w, c, group),
                   Evaluate(files, w, c, group))
  {
    RemovedItems(files[name].text, item);
    PatternsGrow(Removed(files[name].text, item), files[name].text);
    DecideGrows(files, name, File(Removed(files[name].text, item), mtime), files[name], w, c, SensitiveGroup(group));
    assert files[name := files[name]] == files;
  }

  // ---- The directory -------------------------------------------------------------------------

  class PolicyDir {
    var files: Files

    constructor ()
      ensures files == map[]
    {
      files := map[];
    }

    method TouchFlag(name: string, now: int)
      modifies this
      ensures files == Edited(old(files), Touch(name, now))
    {
      files := files[name := File(TextOf(files, name), now)];
    }

    method RemoveFlag(name: string) returns (removed: bool)
      modifies this
      ensures removed == (name in old(files)) && files == Edited(old(files), Drop(name))
    {
      removed := name in files;
      if removed {
        files := files - {name};
      }
    }

    /** `sorted(existing)`. */
    static method SortSet(existing: set<string>, ghost lines: seq<string>) returns (r: seq<string>)
      requires forall x :: x in existing <==> x in lines
      ensures r == Sorted(lines)
    {
      LessIsStrictTotal();
      var rest := existing;
      r := [];
      while rest != {}
        invariant rest <= existing && K.Ascending(r, Self, Less)
        invariant forall x :: x in existing <==> x in r || x in rest
        invariant forall x :: x in r ==> x !in rest
        decreases |rest|
      {
        var x :| x in rest;
        K.InsertAscending(r, x, Self, Less);
        K.InsertKeepsRows(r, x, Self, Less);
        r := K.Insert(r, x, Self, Less);
        rest := rest - {x};
      }
      SortedAscending(lines);
      K.AscendingUnique(r, Sorted(lines), Self, Less);
    }

    method AddToWhitelist(name: string, item: string, now: int)
      modifies this
      ensures TextOf(files, name) == Added(TextOf(old(files), name), item)
      ensures files - {name} == old(files) - {name}
      ensures name in files
    {
      var existing: set<string> := {};
      if name in files {
        existing := LinesOf(files[name].text);
      }
      if item !in existing {
        existing := existing + {item};
        var sorted := SortSet(existing, SplitLines(TextOf(files, name)) + [item]);
        files := files[name := File(JoinLines(sorted), now)];
      }
    }

    method RemoveFromWhitelist(name: string, item: string, now: int) returns (removed: bool)
      modifies this
      ensures TextOf(files, name) == Removed(TextOf(old(files), name), item)
      ensures files - {name} == old(files) - {name} && files.Keys == old(files).Keys
      ensures removed <==> item in SplitLines(TextOf(old(files), name))
    {
      if name !in files {
        return false;
      }
      var existing := LinesOf(files[name].text);
      removed := item in existing;
      if removed {
        existing := existing - {item};
        var sorted := SortSet(existing, Without(SplitLines(files[name].text), item));
        files := files[name := File(JoinLines(sorted), now)];
      }
    }
  }
}
