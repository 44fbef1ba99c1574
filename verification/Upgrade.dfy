/**
 The agent's self-upgrade and rollback over a file system with symbolic links. Every intermediate file
 system is kept, so a crash or an exception after any operation is one of the listed states.
 */
module Upgrade {
  import opened Common

  /** The paths the protocol touches; versions that would collide with `prev` or a temporary name are not modelled. */
  datatype Path = Rp | RpPrev | Versioned(version: string) | Temp(pid: nat)

  /** A complete binary, or one that is still being copied. */
  datatype Content = Whole(build: string) | Partial

  datatype Node = File(content: Content, executable: bool) | Link(target: Path)

  type Fs = map<Path, Node>

  /** `Path.resolve`: follows links to a file or to a missing path; None when the links form a loop. */
  function Resolve(fs: Fs, p: Path, seen: set<Path> := {}): Option<Path>
    decreases fs.Keys - seen
  {
    if p !in fs || fs[p].File? then Some(p)
    else if p in seen then None
    else Resolve(fs, fs[p].target, seen + {p})
  }

  predicate Exists(fs: Fs, p: Path) {
    var r := Resolve(fs, p);
    r.Some? && r.value in fs
  }

  /** The content that running `rp` executes, if it can be executed. */
  function Runs(fs: Fs): Option<Content> {
    var r := Resolve(fs, Rp);
    if r.Some? && r.value in fs && fs[r.value].File? && fs[r.value].executable then Some(fs[r.value].content) else None
  }

  // ---- Operations ----------------------------------------------------------------------------

  /** The file systems an operation sequence passes through, and whether it ran to its end. */
  datatype Trace = Trace(steps: seq<Fs>, last: Fs, ok: bool)

  function Then(t: Trace, next: Trace): Trace {
    Trace(t.steps + next.steps, next.last, next.ok)
  }

  /**
   Moving the download, which is not executable, into place: one rename, or across devices a truncating copy
   into the old file's mode followed by the copy of the download's mode.
   */
  function Move(fs: Fs, dst: Path, build: string, sameDevice: bool): Trace {
    var was := dst in fs && fs[dst].File? && fs[dst].executable;
    var done := fs[dst := File(Whole(build), false)];
    Trace(if sameDevice then [done] else [fs[dst := File(Partial, was)], fs[dst := File(Whole(build), was)], done],
          done, true)
  }

  /** `chmod(0o755)`. */
  function Chmod(fs: Fs, p: Path): Trace
    requires p in fs && fs[p].File?
  {
    var next := fs[p := fs[p].(executable := true)];
    Trace([next], next, true)
  }

  /** The download in place and executable. */
  function Place(fs: Fs, job: Job): Trace {
    var moved := Move(fs, Versioned(job.version), job.build, job.sameDevice);
    Then(moved, Chmod(moved.last, Versioned(job.version)))
  }

  /** `symlink_to` fails when the name is taken, even by a dangling link. */
  function Symlink(fs: Fs, p: Path, target: Path): Trace {
    if p in fs then Trace([], fs, false)
    else var next := fs[p := Link(target)]; Trace([next], next, true)
  }

  function Rename(fs: Fs, src: Path, dst: Path): Trace
    requires src in fs && src != dst
  {
    var next := (fs - {src})[dst := fs[src]];
    Trace([next], next, true)
  }

  /** A temporary link renamed over `rp`. */
  function Swap(fs: Fs, target: Path, pid: nat): Trace {
    var linked := Symlink(fs, Temp(pid), target);
    if !linked.ok then linked else Then(linked, Rename(linked.last, Temp(pid), Rp))
  }

  /** `rp-prev` becomes a link to what `rp` resolves to, if `rp` is a live link. */
  function Preserve(fs: Fs): Trace {
    if !(Exists(fs, Rp) && fs[Rp].Link?) then Trace([], fs, true)
    else
      var current := Resolve(fs, Rp).value;
      if Exists(fs, RpPrev) then
        var removed := fs - {RpPrev};
        Then(Trace([removed], removed, true), Symlink(removed, RpPrev, current))
      else Symlink(fs, RpPrev, current)
  }

  function RollbackTrace(fs: Fs, pid: nat): Trace {
    if !Exists(fs, RpPrev) then Trace([], fs, false)
    else Swap(fs, Resolve(fs, RpPrev).value, pid)
  }

  datatype Job = Job(
    version: string, build: string, sameDevice: bool, dryRun: bool, checksumOk: bool, selfCheckOk: bool, pid: nat)

  /** Operations up to and including the swap. */
  function InstallTrace(fs: Fs, job: Job): Trace {
    var placed := Place(fs, job);
    var preserved := Then(placed, Preserve(placed.last));
    if !preserved.ok then preserved else Then(preserved, Swap(preserved.last, Versioned(job.version), job.pid))
  }

  datatype Outcome = DryRun | BadChecksum | Failed | RolledBack(ok: bool) | Upgraded

  function UpgradeTrace(fs: Fs, job: Job): (Trace, Outcome) {
    if job.dryRun then (Trace([], fs, true), DryRun)
    else if !job.checksumOk then (Trace([], fs, true), BadChecksum)
    else
      var installed := InstallTrace(fs, job);
      if !installed.ok then (installed, Failed)
      else if job.selfCheckOk then (installed, Upgraded)
      else
        var back := RollbackTrace(installed.last, job.pid);
        (Then(installed, back), RolledBack(back.ok))
  }

  // ---- The agent -----------------------------------------------------------------------------

  class AgentUpgrader {
    var fs: Fs
    ghost var trace: seq<Fs> // every file system since the start

    constructor (fs: Fs)
      ensures this.fs == fs && trace == []
    {
      this.fs, trace := fs, [];
    }

    method SymlinkTo(p: Path, target: Path) returns (ok: bool)
      modifies this
      ensures var t := Symlink(old(fs), p, target); fs == t.last && trace == old(trace) + t.steps && ok == t.ok
    {
      ok := p !in fs;
      if ok {
        fs := fs[p := Link(target)];
        trace := trace + [fs];
      }
    }

    method SwapCurrent(target: Path, pid: nat) returns (ok: bool)
      modifies this
      ensures var t := Swap(old(fs), target, pid); fs == t.last && trace == old(trace) + t.steps && ok == t.ok
    {
      ok := SymlinkTo(Temp(pid), target);
      if ok {
        fs := (fs - {Temp(pid)})[Rp := fs[Temp(pid)]];
        trace := trace + [fs];
      }
    }

    method Rollback(pid: nat) returns (ok: bool)
      modifies this
      ensures var t := RollbackTrace(old(fs), pid); fs == t.last && trace == old(trace) + t.steps && ok == t.ok
    {
      if !Exists(fs, RpPrev) {
        return false;
      }
      ok := SwapCurrent(Resolve(fs, RpPrev).value, pid);
    }

    method PreserveCurrent() returns (ok: bool)
      modifies this
      ensures var t := Preserve(old(fs)); fs == t.last && trace == old(trace) + t.steps && ok == t.ok
    {
      ok := true;
      if Exists(fs, Rp) && fs[Rp].Link? {
        var current := Resolve(fs, Rp).value;
        if Exists(fs, RpPrev) {
          fs := fs - {RpPrev};
          trace := trace + [fs];
        }
        ok := SymlinkTo(RpPrev, current);
      }
    }

    method MoveBinary(dst: Path, build: string, sameDevice: bool)
      modifies this
      ensures var t := Move(old(fs), dst, build, sameDevice); fs == t.last && trace == old(trace) + t.steps
    {
      if !sameDevice {
        var was := dst in fs && fs[dst].File? && fs[dst].executable;
        fs := fs[dst := File(Partial, was)];
        trace := trace + [fs];
        fs := fs[dst := File(Whole(build), was)];
        trace := trace + [fs];
        assert fs == old(fs)[dst := File(Whole(build), was)];
      }
      fs := fs[dst := File(Whole(build), false)];
      trace := trace + [fs];
      assert fs == old(fs)[dst := File(Whole(build), false)];
    }

    method MakeExecutable(p: Path)
      requires p in fs && fs[p].File?
      modifies this
      ensures var t := Chmod(old(fs), p); fs == t.last && trace == old(trace) + t.steps
    {
      fs := fs[p := fs[p].(executable := true)];
      trace := trace + [fs];
    }

    method UpgradeTo(job: Job) returns (outcome: Outcome)
      modifies this
      ensures
        var (t, o) := UpgradeTrace(old(fs), job);
        fs == t.last && trace == old(trace) + t.steps && outcome == o
    {
      if job.dryRun {
        return DryRun;
      }
      if !job.checksumOk {
        return BadChecksum;
      }
      var ok := Install(job);
      if !ok {
        return Failed;
      }
      if job.selfCheckOk {
        return Upgraded;
      }
      ok := Rollback(job.pid);
      outcome := RolledBack(ok);
    }

    method Install(job: Job) returns (ok: bool)
      modifies this
      ensures var t := InstallTrace(old(fs), job); fs == t.last && trace == old(trace) + t.steps && ok == t.ok
    {
      ghost var before, fs0 := trace, fs;
      MoveBinary(Versioned(job.version), job.build, job.sameDevice);
      MakeExecutable(Versioned(job.version));
      ghost var placed := Place(fs0, job);
      Regroup(before, Move(fs0, Versioned(job.version), job.build, job.sameDevice).steps, [fs]);
      ok := PreserveCurrent();
      ghost var preserve := Preserve(placed.last);
      Regroup(before, placed.steps, preserve.steps);
      if ok {
        ok := SwapCurrent(Versioned(job.version), job.pid);
        Regroup(before, placed.steps + preserve.steps, Swap(preserve.last, Versioned(job.version), job.pid).steps);
      }
    }
  }

  // ---- One upgrade ---------------------------------------------------------------------------

  /** The documented layout: `rp` links straight to an existing versioned binary; those are plain files. */
  ghost predicate Installed(fs: Fs, version: string, build: string) {
    && Rp in fs && fs[Rp] == Link(Versioned(version))
    && Versioned(version) in fs && fs[Versioned(version)] == File(Whole(build), true)
    && forall v: string :: Versioned(v) in fs ==> fs[Versioned(v)].File?
  }

  ghost predicate RunsOneOf(fs: Fs, old_: string, new_: string) {
    Runs(fs) == Some(Whole(old_)) || Runs(fs) == Some(Whole(new_))
  }

  ghost predicate AllSteps(t: Trace, old_: string, new_: string) {
    forall i :: 0 <= i < |t.steps| ==> RunsOneOf(t.steps[i], old_, new_)
  }

  lemma ResolveDirect(fs: Fs, p: Path)
    requires p in fs && fs[p].Link? && fs[p].target in fs && fs[fs[p].target].File?
    ensures Resolve(fs, p) == Some(fs[p].target) && Exists(fs, p)
  {
    assert Resolve(fs, p) == Resolve(fs, fs[p].target, {p});
  }

  /** Any file system in which `rp` is a link straight to a file runs that file, if it is executable. */
  lemma RunsTarget(fs: Fs, target: Path)
    requires Rp in fs && fs[Rp] == Link(target) && target in fs && fs[target].File?
    ensures Runs(fs) == if fs[target].executable then Some(fs[target].content) else None
  {
    ResolveDirect(fs, Rp);
  }

  function Placed(fs: Fs, job: Job): Fs { fs[Versioned(job.version) := File(Whole(job.build), true)] }

  /** Placing the download leaves `rp` alone, unless it is placed over what `rp` runs. */
  lemma PlaceRuns(fs: Fs, version: string, old_: string, job: Job)
    requires Installed(fs, version, old_)
    ensures Place(fs, job).ok && Place(fs, job).last == Placed(fs, job) && Place(fs, job).steps != []
    ensures job.version != version ==> AllSteps(Place(fs, job), old_, job.build)
    ensures job.version == version ==> !RunsOneOf(Place(fs, job).steps[0], old_, job.build)
  {
    var t := Place(fs, job);
    assert t.last == Placed(fs, job);
    if job.version == version {
      RunsTarget(t.steps[0], Versioned(version));
    } else {
      forall i | 0 <= i < |t.steps| ensures RunsOneOf(t.steps[i], old_, job.build) {
        RunsTarget(t.steps[i], Versioned(version));
      }
    }
  }

  /** After the binary is in place, preserving never leaves `rp` on anything else. */
  lemma AfterPlace(fs: Fs, version: string, job: Job, old_: string)
    requires Installed(fs, version, old_)
    ensures
      var placed := Placed(fs, job);
      var current := if version == job.version then job.build else old_;
      var preserved := Preserve(placed);
      && Installed(placed, version, current)
      && AllSteps(preserved, current, job.build)
      && Installed(preserved.last, version, current)
      && (preserved.ok <==> !(RpPrev in fs && !Exists(placed, RpPrev)))
      && (preserved.ok ==> preserved.last == placed[RpPrev := Link(Versioned(version))])
      && (forall p :: p != RpPrev ==> (p in preserved.last <==> p in placed))
      && (forall p :: p != RpPrev && p in placed ==> preserved.last[p] == placed[p])
  {
    var placed := Placed(fs, job);
    var current := if version == job.version then job.build else old_;
    assert Installed(placed, version, current);
    ResolveDirect(placed, Rp);
    var preserved := Preserve(placed);
    forall i | 0 <= i < |preserved.steps| ensures RunsOneOf(preserved.steps[i], current, job.build) {
      RunsTarget(preserved.steps[i], Versioned(version));
    }
  }

  lemma SwapRuns(fs: Fs, target: Path, pid: nat, version: string, old_: string, new_: string)
    requires Installed(fs, version, old_)
    requires target.Versioned? && target in fs && fs[target] == File(Whole(new_), true)
    ensures
      var t := Swap(fs, target, pid);
      && AllSteps(t, old_, new_)
      && (t.ok <==> Temp(pid) !in fs)
      && (t.ok ==> t.last == fs[Rp := Link(target)] && Runs(t.last) == Some(Whole(new_)))
      && (!t.ok ==> t.last == fs && t.steps == [])
  {
    var t := Swap(fs, target, pid);
    if Temp(pid) !in fs {
      RunsTarget(fs[Temp(pid) := Link(target)], Versioned(version));
      assert t.last == fs[Rp := Link(target)];
      RunsTarget(t.last, target);
    }
  }

  /** `rp-prev` is there but leads nowhere, even with the new binary placed, or the temporary name is taken. */
  predicate Blocked(fs: Fs, job: Job) {
    (RpPrev in fs && !Exists(Placed(fs, job), RpPrev)) || Temp(job.pid) in fs
  }

  /** What an installation leaves, and that nothing on the way breaks `rp` unless it is placed over it. */
  lemma InstallRuns(fs: Fs, version: string, old_: string, job: Job)
    requires Installed(fs, version, old_)
    ensures
      var t := InstallTrace(fs, job);
      var current := if version == job.version then job.build else old_;
      && t.steps != []
      && (job.version != version ==> AllSteps(t, old_, job.build))
      && (job.version == version ==> !RunsOneOf(t.steps[0], old_, job.build))
      && (t.ok <==> !Blocked(fs, job))
      && (t.ok ==>
            && t.last == Placed(fs, job)[RpPrev := Link(Versioned(version))][Rp := Link(Versioned(job.version))]
            && Installed(t.last, job.version, job.build)
            && Versioned(version) in t.last && t.last[Versioned(version)] == File(Whole(current), true)
            && Temp(job.pid) !in t.last)
      && (!t.ok ==> Runs(t.last) == Some(Whole(current)) && Rp in t.last && t.last[Rp] == fs[Rp])
  {
    var current := if version == job.version then job.build else old_;
    PlaceRuns(fs, version, old_, job);
    AfterPlace(fs, version, job, old_);
    var preserved := Preserve(Placed(fs, job));
    RunsTarget(preserved.last, Versioned(version));
    if preserved.ok {
      SwapRuns(preserved.last, Versioned(job.version), job.pid, version, current, job.build);
    }
  }

  /**
   Crash safety, exactly. After every file operation of an upgrade, including its automatic rollback,
   `rp` runs the complete old or the complete new binary, if and only if the target is not the version
   already installed. Reinstalling that version leaves `rp`, for a moment, on a file that cannot be executed
   yet, and across devices on a partial copy.
   */
  lemma CrashSafeExactly(fs: Fs, version: string, old_: string, job: Job)
    requires Installed(fs, version, old_) && !job.dryRun && job.checksumOk
    ensures AllSteps(UpgradeTrace(fs, job).0, old_, job.build) <==> job.version != version
  {
    InstallRuns(fs, version, old_, job);
    var installed := InstallTrace(fs, job);
    assert UpgradeTrace(fs, job).0.steps[0] == installed.steps[0];
    if installed.ok && !job.selfCheckOk && job.version != version {
      ResolveDirect(installed.last, RpPrev);
      SwapRuns(installed.last, Versioned(version), job.pid, job.version, job.build, old_);
    }
  }

  /** The automatic rollback after an installation puts `rp` back, and nothing else. */
  lemma RollbackAfterInstall(fs: Fs, version: string, old_: string, job: Job)
    requires Installed(fs, version, old_) && InstallTrace(fs, job).ok
    ensures
      var back := RollbackTrace(InstallTrace(fs, job).last, job.pid);
      && back.ok && back.last == Placed(fs, job)[RpPrev := Link(Versioned(version))]
      && Runs(back.last) == Some(Whole(if version == job.version then job.build else old_))
  {
    InstallRuns(fs, version, old_, job);
    var installed := InstallTrace(fs, job).last;
    ResolveDirect(installed, RpPrev);
    SwapRuns(installed, Versioned(version), job.pid, job.version, job.build,
             if version == job.version then job.build else old_);
    assert RollbackTrace(installed, job.pid).last == Placed(fs, job)[RpPrev := Link(Versioned(version))];
  }

  lemma DanglingPrev(fs: Fs, version: string, old_: string, job: Job)
    requires Installed(fs, version, old_) && RpPrev in fs && fs[RpPrev].Link? && fs[RpPrev].target.Versioned?
    ensures Exists(Placed(fs, job), RpPrev) <==>
              fs[RpPrev].target in fs || fs[RpPrev].target == Versioned(job.version)
  {
    var placed := Placed(fs, job);
    assert Resolve(placed, RpPrev) == Resolve(placed, placed[RpPrev].target, {RpPrev});
  }

  /**
   How an upgrade ends, by the job alone. It fails part way, with `rp` as it was, exactly when `rp-prev` is a
   dangling link or the temporary name is taken. Otherwise `rp-prev` links to the version before, and a passed
   self-check leaves `rp` on the new build, while a failed one puts `rp` back on the version it had, whose
   build a reinstallation has replaced.
   */
  lemma {:induction false} UpgradeEnds(fs: Fs, version: string, old_: string, job: Job)
    requires Installed(fs, version, old_)
    ensures job.dryRun ==> UpgradeTrace(fs, job) == (Trace([], fs, true), DryRun)
    ensures !job.dryRun && !job.checksumOk ==> UpgradeTrace(fs, job) == (Trace([], fs, true), BadChecksum)
    ensures
      var (t, outcome) := UpgradeTrace(fs, job);
      var placed := fs[Versioned(job.version) := File(Whole(job.build), true)];
      var before := if job.version == version then job.build else old_;
      !job.dryRun && job.checksumOk ==>
        if (RpPrev in fs && !Exists(placed, RpPrev)) || Temp(job.pid) in fs then
          outcome == Failed && Rp in t.last && t.last[Rp] == fs[Rp] && Runs(t.last) == Some(Whole(before))
        else if job.selfCheckOk then
          && outcome == Upgraded && Runs(t.last) == Some(Whole(job.build))
          && t.last == placed[RpPrev := Link(Versioned(version))][Rp := Link(Versioned(job.version))]
        else
          && outcome == RolledBack(true) && Runs(t.last) == Some(Whole(before))
          && t.last == placed[RpPrev := Link(Versioned(version))]
  {
    if !job.dryRun && job.checksumOk {
      InstallRuns(fs, version, old_, job);
      if InstallTrace(fs, job).ok {
        RunsTarget(InstallTrace(fs, job).last, Versioned(job.version));
        RollbackAfterInstall(fs, version, old_, job);
      }
    }
  }

  /**
   A rollback on any file system: it is refused, with nothing changed, exactly when `rp-prev` leads nowhere or
   the temporary name is taken; otherwise `rp` links to what `rp-prev` resolves to, and runs it if that is an
   executable file other than `rp` itself.
   */
  lemma RollbackRuns(fs: Fs, pid: nat)
    ensures
      var t := RollbackTrace(fs, pid);
      if !Exists(fs, RpPrev) || Temp(pid) in fs then t == Trace([], fs, false)
      else
        var target := Resolve(fs, RpPrev).value;
        && t.ok && t.last == fs[Rp := Link(target)]
        && (target != Rp && fs[target].File? && fs[target].executable ==> Runs(t.last) == Some(fs[target].content))
  {
    var t := RollbackTrace(fs, pid);
    if Exists(fs, RpPrev) && Temp(pid) !in fs {
      var target := Resolve(fs, RpPrev).value;
      assert t.last == fs[Rp := Link(target)];
      if target != Rp && fs[target].File? { RunsTarget(t.last, target); }
    }
  }

  /** A second rollback changes nothing, whatever the first one started from. */
  lemma SecondRollbackChangesNothing(fs: Fs, pid: nat, other: nat)
    requires RollbackTrace(fs, pid).ok && RollbackTrace(RollbackTrace(fs, pid).last, other).ok
    requires RpPrev in fs && fs[RpPrev].Link? && fs[RpPrev].target.Versioned?
    requires fs[RpPrev].target in fs && fs[fs[RpPrev].target].File?
    ensures RollbackTrace(RollbackTrace(fs, pid).last, other).last == RollbackTrace(fs, pid).last
  {
    ResolveDirect(fs, RpPrev);
    var target := fs[RpPrev].target;
    var once := RollbackTrace(fs, pid).last;
    assert once == fs[Rp := Link(target)];
    ResolveDirect(once, RpPrev);
    assert RollbackTrace(once, other).last == once[Rp := Link(target)];
  }

  // ---- Any number of attempts, each cut short anywhere ---------------------------------------

  /** A complete binary that can be executed. */
  predicate Sound(n: Node) { n.File? && n.content.Whole? && n.executable }

  /** `rp` runs a complete binary, and so would `rp-prev` if it leads anywhere. */
  ghost predicate Bootable(fs: Fs) {
    && Rp in fs && fs[Rp].Link? && fs[Rp].target.Versioned?
    && fs[Rp].target in fs && Sound(fs[fs[Rp].target])
    && (forall v: string :: Versioned(v) in fs ==> fs[Versioned(v)].File?)
    && (RpPrev in fs ==>
          && fs[RpPrev].Link? && fs[RpPrev].target.Versioned?
          && (fs[RpPrev].target in fs ==> Sound(fs[fs[RpPrev].target])))
  }

  datatype Attempt =
    | Upgrading(job: Job, done: nat)    // crashed or raised after `done` operations, if it had more
    | RollingBack(pid: nat, done: nat)

  function TraceOf(fs: Fs, a: Attempt): seq<Fs> {
    if a.Upgrading? then UpgradeTrace(fs, a.job).0.steps else RollbackTrace(fs, a.pid).steps
  }

  function After(fs: Fs, a: Attempt): Fs {
    var steps := TraceOf(fs, a);
    if a.done == 0 || steps == [] then fs else steps[Min(a.done, |steps|) - 1]
  }

  /** An upgrade that writes at all writes to a path that neither `rp` nor `rp-prev` links to. */
  predicate Spares(fs: Fs, a: Attempt) {
    a.Upgrading? && !a.job.dryRun && a.job.checksumOk ==>
      forall p :: p in {Rp, RpPrev} && p in fs ==> fs[p] != Link(Versioned(a.job.version))
  }

  function Run(fs: Fs, attempts: seq<Attempt>): Fs {
    if attempts == [] then fs else After(Run(fs, attempts[..|attempts| - 1]), attempts[|attempts| - 1])
  }

  ghost predicate AllBootable(steps: seq<Fs>) { forall i :: 0 <= i < |steps| ==> Bootable(steps[i]) }

  lemma ResolvePrev(fs: Fs)
    requires Bootable(fs)
    ensures Exists(fs, RpPrev) <==> RpPrev in fs && fs[RpPrev].target in fs
    ensures Exists(fs, RpPrev) ==> Resolve(fs, RpPrev) == Some(fs[RpPrev].target)
  {
    if RpPrev in fs {
      assert Resolve(fs, RpPrev) == Resolve(fs, fs[RpPrev].target, {RpPrev});
    }
  }

  lemma SwapBootable(fs: Fs, target: Path, pid: nat)
    requires Bootable(fs) && target.Versioned? && target in fs && Sound(fs[target])
    ensures AllBootable(Swap(fs, target, pid).steps) && Bootable(Swap(fs, target, pid).last)
  {
  }

  lemma PreserveBootable(fs: Fs)
    requires Bootable(fs)
    ensures AllBootable(Preserve(fs).steps) && Bootable(Preserve(fs).last)
    ensures forall v: string :: Versioned(v) in fs ==>
              Versioned(v) in Preserve(fs).last && Preserve(fs).last[Versioned(v)] == fs[Versioned(v)]
  {
    ResolveDirect(fs, Rp);
    ResolvePrev(fs);
  }

  lemma RollbackBootable(fs: Fs, pid: nat)
    requires Bootable(fs)
    ensures AllBootable(RollbackTrace(fs, pid).steps) && Bootable(RollbackTrace(fs, pid).last)
  {
    ResolvePrev(fs);
    if Exists(fs, RpPrev) {
      SwapBootable(fs, fs[RpPrev].target, pid);
    }
  }

  lemma PlaceBootable(fs: Fs, job: Job)
    requires Bootable(fs) && Spares(fs, Upgrading(job, 0)) && !job.dryRun && job.checksumOk
    ensures AllBootable(Place(fs, job).steps) && Bootable(Place(fs, job).last)
    ensures Place(fs, job).last == Placed(fs, job)
  {
    assert Rp in {Rp, RpPrev} && RpPrev in {Rp, RpPrev};
    assert Place(fs, job).last == Placed(fs, job);
  }

  lemma UpgradeBootable(fs: Fs, job: Job)
    requires Bootable(fs) && Spares(fs, Upgrading(job, 0)) && !job.dryRun && job.checksumOk
    ensures AllBootable(UpgradeTrace(fs, job).0.steps)
  {
    PlaceBootable(fs, job);
    var placed := Placed(fs, job);
    PreserveBootable(placed);
    var preserved := Preserve(placed);
    if preserved.ok {
      SwapBootable(preserved.last, Versioned(job.version), job.pid);
      var swapped := Swap(preserved.last, Versioned(job.version), job.pid);
      if swapped.ok {
        RollbackBootable(swapped.last, job.pid);
      }
    }
  }

  lemma UnsparedIsUnsound(fs: Fs, job: Job)
    requires Bootable(fs) && !Spares(fs, Upgrading(job, 0))
    ensures UpgradeTrace(fs, job).0.steps != [] && !Bootable(UpgradeTrace(fs, job).0.steps[0])
  {
    var first := Place(fs, job).steps[0];
    assert UpgradeTrace(fs, job).0.steps[0] == first;
    assert !Sound(first[Versioned(job.version)]);
  }

  /** One attempt on a bootable system may be cut anywhere exactly when it spares what is linked. */
  lemma AttemptBootableExactly(fs: Fs, a: Attempt)
    requires Bootable(fs)
    ensures AllBootable(TraceOf(fs, a)) <==> Spares(fs, a)
  {
    if a.RollingBack? {
      RollbackBootable(fs, a.pid);
    } else if !Spares(fs, Upgrading(a.job, 0)) {
      UnsparedIsUnsound(fs, a.job);
    } else if !a.job.dryRun && a.job.checksumOk {
      UpgradeBootable(fs, a.job);
    }
  }

  /** Every attempt of the run spares what is linked when it starts. */
  ghost predicate AllSpare(fs: Fs, attempts: seq<Attempt>) {
    attempts != [] ==>
      && AllSpare(fs, attempts[..|attempts| - 1])
      && Spares(Run(fs, attempts[..|attempts| - 1]), attempts[|attempts| - 1])
  }

  /** Wherever an attempt of the run could be cut, the system is bootable. */
  ghost predicate EveryCutBootable(fs: Fs, attempts: seq<Attempt>) {
    attempts != [] ==>
      && EveryCutBootable(fs, attempts[..|attempts| - 1])
      && AllBootable(TraceOf(Run(fs, attempts[..|attempts| - 1]), attempts[|attempts| - 1]))
  }

  lemma {:induction false} CutRunBootable(fs: Fs, attempts: seq<Attempt>)
    requires Bootable(fs) && EveryCutBootable(fs, attempts)
    ensures Bootable(Run(fs, attempts))
  {
    if attempts != [] { CutRunBootable(fs, attempts[..|attempts| - 1]); }
  }

  /**
   Any number of upgrades and rollbacks, each stopped after any of its operations: `rp` runs a complete
   binary at every point of every attempt, and so would `rp-prev`, if and only if no upgrade writes to the
   path that `rp` or `rp-prev` links to when it starts.
   */
  lemma {:induction false} AlwaysBootableExactly(fs: Fs, attempts: seq<Attempt>)
    requires Bootable(fs)
    ensures EveryCutBootable(fs, attempts) <==> AllSpare(fs, attempts)
    ensures AllSpare(fs, attempts) ==>
              var ran := Runs(Run(fs, attempts));
              ran.Some? && ran.value.Whole?
  {
    if attempts != [] {
      var init, a := attempts[..|attempts| - 1], attempts[|attempts| - 1];
      AlwaysBootableExactly(fs, init);
      if AllSpare(fs, init) {
        CutRunBootable(fs, init);
        AttemptBootableExactly(Run(fs, init), a);
      }
    }
    if AllSpare(fs, attempts) {
      CutRunBootable(fs, attempts);
      RunsTarget(Run(fs, attempts), Run(fs, attempts)[Rp].target);
    }
  }

  /** A rollback cut short after its rename, where `rp-prev` links straight to a file. */
  lemma RollbackStep(fs: Fs, version: string, pid: nat)
    requires RpPrev in fs && fs[RpPrev] == Link(Versioned(version)) && Temp(pid) !in fs
    requires Versioned(version) in fs && fs[Versioned(version)].File?
    ensures After(fs, RollingBack(pid, 2)) == fs[Rp := Link(Versioned(version))]
  {
    ResolveDirect(fs, RpPrev);
    assert Swap(fs, Versioned(version), pid).last == fs[Rp := Link(Versioned(version))];
  }

  lemma RunOne(fs: Fs, a: Attempt)
    ensures Run(fs, [a]) == After(fs, a)
  {
    assert [a][..0] == [];
  }

  lemma RunTwo(fs: Fs, a: Attempt, b: Attempt)
    ensures Run(fs, [a, b]) == After(After(fs, a), b)
  {
    assert [a, b][..1] == [a];
    RunOne(fs, a);
  }

  lemma CutPlace(fs: Fs, job: Job)
    requires !job.dryRun && job.checksumOk
    ensures
      var was := Versioned(job.version) in fs && fs[Versioned(job.version)].File? && fs[Versioned(job.version)].executable;
      After(fs, Upgrading(job, 1))
      == fs[Versioned(job.version) := if job.sameDevice then File(Whole(job.build), false) else File(Partial, was)]
  {
    assert UpgradeTrace(fs, job).0.steps[0] == Place(fs, job).steps[0];
  }

  /**
   The condition on `rp-prev` matters to `rp` itself: a downgrade to the previous version that is cut while it
   writes the file leaves `rp` as it was, and a rollback then puts `rp` on a file that cannot be run whole.
   */
  lemma CutDowngradeThenRollback(fs: Fs, job: Job, pid: nat)
    requires Bootable(fs) && !job.dryRun && job.checksumOk && Temp(pid) !in fs
    requires RpPrev in fs && fs[RpPrev] == Link(Versioned(job.version)) && fs[Rp] != fs[RpPrev]
    ensures Runs(Run(fs, [Upgrading(job, 1)])) == Runs(fs)
    ensures
      var ran := Runs(Run(fs, [Upgrading(job, 1), RollingBack(pid, 2)]));
      ran == None || ran == Some(Partial)
  {
    var cut := After(fs, Upgrading(job, 1));
    CutPlace(fs, job);
    RunOne(fs, Upgrading(job, 1));
    RunTwo(fs, Upgrading(job, 1), RollingBack(pid, 2));
    RunsTarget(fs, fs[Rp].target);
    RunsTarget(cut, fs[Rp].target);
    RollbackStep(cut, job.version, pid);
    RunsTarget(cut[Rp := Link(Versioned(job.version))], Versioned(job.version));
  }
}
