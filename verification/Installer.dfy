// `install` as the program runs it: one process changing the directory tree in
// place, proved to take only steps of the state machine and, when no operation
// fails, to do exactly what InstallSpec says.
module Installer {
  import opened Text
  import opened CacheKey
  import opened RootfsCache
  import opened CacheSafety
  import opened CacheAgreement
  import opened GuestKernel

  class Process {
    const bin: Binary
    const pid: nat
    // Whether operations may fail; a failing one is chosen at random.
    const mayFail: bool
    // Whether reading the cached directory may fail, which counts as a miss.
    const flaky: bool
    // The directories under the cache root, as found and now.
    ghost const first: Root
    var root: Root
    // The states gone through, the last one current.
    ghost var trace: seq<State>

    ghost function How(): Mode {
      Mode(false, true, flaky, false)
    }

    // The trace is a run from the root as found to the current state, with
    // this process at `pc`.
    ghost predicate AtPc(pc: Pc)
      reads this
    {
      && IsRun(How(), {bin}, trace)
      && trace[0].root == first
      && trace[|trace| - 1] == State(root, map[pid := Proc(bin, pc)])
      && Alone(trace)
    }

    // Nobody else is at work.
    ghost predicate Alone(run: seq<State>) {
      forall i | 0 <= i < |run| :: run[i].procs.Keys <= {pid}
    }

    constructor (bin: Binary, pid: nat, mayFail: bool, flaky: bool, root: Root)
      requires ValidVersion(bin.version)
      ensures AtPc(Begin)
      ensures this.bin == bin && this.pid == pid && this.mayFail == mayFail && this.flaky == flaky
      ensures this.root == root && first == root
    {
      this.bin := bin;
      this.pid := pid;
      this.mayFail := mayFail;
      this.flaky := flaky;
      this.first := root;
      this.root := root;
      var idle, begun := State(root, map[]), State(root, map[pid := Proc(bin, Begin)]);
      trace := [idle, begun];
      new;
      assert idle.procs[pid := Proc(bin, Begin)] == begun.procs;
      assert MoveStep(How(), {bin}, idle, Start(pid, bin), begun);
    }

    // Records the effect that turned `before` into the current root as a step
    // from `pc` to `pc'`.
    ghost method Record(before: Root, pc: Pc, pc': Pc)
      requires IsRun(How(), {bin}, trace) && trace[0].root == first && Alone(trace)
      requires trace[|trace| - 1] == State(before, map[pid := Proc(bin, pc)])
      requires ProcStep(How(), pid, bin, pc, before, pc', root)
      modifies this`trace
      ensures AtPc(pc')
    {
      var from, to := trace[|trace| - 1], State(root, map[pid := Proc(bin, pc')]);
      assert to.procs == from.procs[pid := to.procs[pid]];
      assert MoveStep(How(), {bin}, from, Act(pid), to);
      assert Step(How(), {bin}, from, to);
      trace := trace + [to];
    }

    // Removes the directory `name` and everything in it, entry by entry.
    method RemoveDirAll(name: string, ghost pc: Pc) returns (ok: bool)
      requires AtPc(pc) && Target(pid, bin, pc) == Some(name)
      modifies this`root, this`trace
      ensures AtPc(AfterRemoval(pc, ok))
      ensures ok ==> IsDir(old(root), name) && root == old(root) - {name}
      ensures !IsDir(old(root), name) ==> root == old(root)
      ensures !mayFail ==> ok == IsDir(old(root), name)
      ensures root - {name} == old(root) - {name}
      ensures name in root ==> name in old(root)
    {
      if !IsDir(root, name) {
        Record(root, pc, AfterRemoval(pc, false));
        return false;
      }
      while root[name].tree != map[]
        invariant AtPc(pc) && IsDir(root, name)
        invariant root - {name} == old(root) - {name}
        decreases |root[name].tree.Keys|
      {
        var fail: bool := *;
        if mayFail && fail {
          Record(root, pc, AfterRemoval(pc, false));
          return false;
        }
        RemoveEntry(name, pc);
      }
      RemoveEmptyDir(name, pc);
      return true;
    }

    method RemoveEmptyDir(name: string, ghost pc: Pc)
      requires AtPc(pc) && Target(pid, bin, pc) == Some(name)
      requires name in root && root[name] == Dir(map[])
      modifies this`root, this`trace
      ensures AtPc(AfterRemoval(pc, true)) && root == old(root) - {name}
    {
      root := root - {name};
      assert RemovalStep(How(), name, pc, old(root), AfterRemoval(pc, true), root);
      Record(old(root), pc, AfterRemoval(pc, true));
    }

    method RemoveEntry(name: string, ghost pc: Pc)
      requires AtPc(pc) && Target(pid, bin, pc) == Some(name)
      requires IsDir(root, name) && root[name].tree != map[]
      modifies this`root, this`trace
      ensures AtPc(pc) && IsDir(root, name) && |root[name].tree.Keys| < |old(root)[name].tree.Keys|
      ensures root - {name} == old(root) - {name}
    {
      var tree := root[name].tree;
      assert tree.Keys != {};
      var p :| p in tree;
      root := root[name := Dir(tree - {p})];
      assert (tree - {p}).Keys == tree.Keys - {p};
      assert RemovalStep(How(), name, pc, old(root), pc, root);
      Record(old(root), pc, pc);
    }

    // Clears the staging path, extracts there, and writes the marker last.
    method Stage() returns (ok: bool)
      requires AtPc(StageProbe) && bin.archive.Embedded?
      modifies this`root, this`trace
      ensures AtPc(if ok then LookMarker(true) else Discard(Failed(StageFailed)))
      ensures root - {Staging(pid, bin)} == old(root) - {Staging(pid, bin)}
      ensures ok ==> StagedWhole(pid, bin, root)
      ensures Blocked(old(root), Staging(pid, bin)) ==> !ok && root == old(root)
      ensures !mayFail && !Blocked(old(root), Staging(pid, bin)) ==>
                IsDir(root, Staging(pid, bin)) && ok == Installable(bin)
    {
      var staging := StagingName(bin.version, pid);
      ok := ClearStaging(staging);
      if ok {
        ok := UnpackArchive(staging);
        if ok {
          ok := WriteMarker(staging);
        }
      }
    }

    method ClearStaging(staging: string) returns (ok: bool)
      requires AtPc(StageProbe) && staging == Staging(pid, bin)
      modifies this`root, this`trace
      ensures AtPc(if ok then Unpack(0) else Discard(Failed(StageFailed)))
      ensures root - {staging} == old(root) - {staging}
      ensures ok ==> staging in root && root[staging] == Dir(map[])
      ensures Blocked(old(root), staging) ==> !ok && root == old(root)
      ensures !mayFail ==> ok == !Blocked(old(root), staging)
    {
      if staging in root {
        Record(root, StageProbe, StageClear);
        ok := RemoveDirAll(staging, StageClear);
        if !ok {
          return;
        }
      } else {
        Record(root, StageProbe, StageCreate);
      }
      var fail: bool := *;
      if mayFail && fail {
        Record(root, StageCreate, Discard(Failed(StageFailed)));
        return false;
      }
      ghost var was := root;
      root := root[staging := Dir(map[])];
      Record(was, StageCreate, Unpack(0));
      return true;
    }

    method UnpackArchive(staging: string) returns (ok: bool)
      requires AtPc(Unpack(0)) && staging == Staging(pid, bin) && bin.archive.Embedded?
      requires staging in root && root[staging] == Dir(map[])
      modifies this`root, this`trace
      ensures AtPc(if ok then MarkerOpen else Discard(Failed(StageFailed)))
      ensures root - {staging} == old(root) - {staging} && IsDir(root, staging)
      ensures ok ==> root[staging] == Dir(Unpacked(bin.archive.items)) && bin.archive.intact
      ensures !mayFail ==> ok == bin.archive.intact
    {
      var items := bin.archive.items;
      assert items[..0] == [] && items[..|items|] == items;
      for i := 0 to |items|
        invariant AtPc(Unpack(i))
        invariant root - {staging} == old(root) - {staging}
        invariant staging in root && root[staging] == Dir(Unpacked(items[..i]))
      {
        var fail: bool := *;
        if mayFail && fail {
          Record(root, Unpack(i), Discard(Failed(StageFailed)));
          return false;
        }
        UnpackedExtends(items, i);
        ghost var was := root;
        root := root[staging := Dir(With(root[staging].tree, items[i]))];
        Record(was, Unpack(i), Unpack(i + 1));
      }
      ok := bin.archive.intact;
      Record(root, Unpack(|items|), if ok then MarkerOpen else Discard(Failed(StageFailed)));
    }

    method WriteMarker(staging: string) returns (ok: bool)
      requires AtPc(MarkerOpen) && staging == Staging(pid, bin) && bin.archive.Embedded? && bin.archive.intact
      requires staging in root && root[staging] == Dir(Unpacked(bin.archive.items))
      modifies this`root, this`trace
      ensures AtPc(if ok then LookMarker(true) else Discard(Failed(StageFailed)))
      ensures root - {staging} == old(root) - {staging} && IsDir(root, staging)
      ensures ok ==> StagedWhole(pid, bin, root)
      ensures !mayFail ==> ok == Installable(bin)
    {
      var fail: bool := *;
      if !MarkerWritable(root[staging].tree) || (mayFail && fail) {
        Record(root, MarkerOpen, Discard(Failed(StageFailed)));
        return false;
      }
      root := root[staging := Dir(Marked(root[staging].tree, ""))];
      Record(old(root), MarkerOpen, MarkerText);
      ok := FillMarker(staging);
    }

    method FillMarker(staging: string) returns (ok: bool)
      requires AtPc(MarkerText) && staging == Staging(pid, bin) && Installable(bin)
      requires staging in root && root[staging] == Dir(Marked(Unpacked(bin.archive.items), ""))
      modifies this`root, this`trace
      ensures AtPc(if ok then LookMarker(true) else Discard(Failed(StageFailed)))
      ensures root - {staging} == old(root) - {staging} && IsDir(root, staging)
      ensures ok ==> StagedWhole(pid, bin, root)
      ensures !mayFail ==> ok
    {
      RemarkedOnce(Unpacked(bin.archive.items), "", KeyOf(bin));
      var fail: bool := *;
      if mayFail && fail {
        Record(root, MarkerText, Discard(Failed(StageFailed)));
        return false;
      }
      root := root[staging := Dir(Marked(root[staging].tree, KeyOf(bin)))];
      Record(old(root), MarkerText, LookMarker(true));
      return true;
    }

    // `marker_matches(..) && check_rootfs(..)` on the cached directory.
    method LooksCached(ghost again: bool) returns (hit: bool)
      requires AtPc(LookMarker(again))
      modifies this`trace
      ensures hit ==> Hit(root, bin)
      ensures !flaky ==> hit == Hit(root, bin)
      ensures hit ==> Runs(root[bin.version])
      ensures !flaky && MarkerSeen(root, bin) && Runs(root[bin.version]) ==> hit
      ensures AtPc(if hit then AfterHit(bin, again) else AfterMiss(again))
    {
      var fail: bool := *;
      if MarkerSeen(root, bin) {
        BootsExactly(root[bin.version].tree);
      }
      hit := MarkerSeen(root, bin) && !(flaky && fail);
      Record(root, LookMarker(again), if hit then LookHelper(again) else AfterMiss(again));
      if hit {
        fail := *;
        hit := RootfsPasses(root, bin.version) && !(flaky && fail);
        Record(root, LookHelper(again), if hit then AfterHit(bin, again) else AfterMiss(again));
      }
    }

    // Removes the trees of other versions; failures are ignored.
    method SweepOldVersions()
      requires AtPc(Sweep)
      modifies this`root, this`trace
      ensures AtPc(Sweep)
      ensures root.Keys <= old(root).Keys
      ensures forall n | n in old(root) && !Sweepable(old(root), bin.version, n) :: n in root && root[n] == old(root)[n]
      ensures !mayFail ==> root == Swept(old(root), bin.version)
    {
      var names := root.Keys;
      while names != {}
        invariant AtPc(Sweep) && names <= old(root).Keys && root.Keys <= old(root).Keys
        invariant forall n | n in names :: n in root && root[n] == old(root)[n]
        invariant forall n | n in old(root) && !Sweepable(old(root), bin.version, n) ::
                    n in root && root[n] == old(root)[n]
        invariant !mayFail ==>
                    forall n | n in old(root) && n !in names && Sweepable(old(root), bin.version, n) :: n !in root
        decreases names
      {
        var name :| name in names;
        names := names - {name};
        SweepEntry(name);
      }
    }

    method SweepEntry(name: string)
      requires AtPc(Sweep)
      modifies this`root, this`trace
      ensures AtPc(Sweep)
      ensures SameBut(old(root), root, name)
      ensures name in root ==> name in old(root)
      ensures !Sweepable(old(root), bin.version, name) ==> root == old(root)
      ensures !mayFail && Sweepable(old(root), bin.version, name) ==> name !in root
    {
      if Sweepable(root, bin.version, name) {
        Record(root, Sweep, SweepClear(name));
        var _ := RemoveDirAll(name, SweepClear(name));
        AllButOne(old(root), root, name);
      }
    }

    // The whole of `install`.
    method Install() returns (result: Outcome)
      requires AtPc(Begin)
      modifies this`root, this`trace
      ensures AtPc(Done(result))
      ensures result.Installed? ==> result.dir == bin.version
      ensures LeavesOthers(bin, pid, old(root), root)
      ensures result.Installed? ==>
                && bin.version in root
                && ((Hit(old(root), bin) && root[bin.version] == old(root)[bin.version])
                    || (Installable(bin) && root[bin.version] == Dir(Complete(bin))))
      ensures result.Installed? ==>
                || (bin.version in old(root) && Runs(old(root)[bin.version]))
                || (Installable(bin) && root[bin.version] == Dir(Complete(bin)))
      ensures !mayFail && !flaky ==> (root, result) == InstallSpec(bin, pid, old(root))
    {
      if bin.archive.NotEmbedded? {
        result := Failed(NoArchive);
        Record(root, Begin, Done(result));
        return;
      }
      Record(root, Begin, LookMarker(false));
      var hit := LooksCached(false);
      if hit {
        return Installed(bin.version);
      }
      var staged := Stage();
      AllButOne(old(root), root, Staging(pid, bin));
      if !staged {
        result := Failed(StageFailed);
        DropStaging(result);
        return;
      }
      StagingNamesDistinct(bin.version, pid, bin.version, pid);
      hit := LooksCached(true);
      if hit {
        result := Installed(bin.version);
        DropStaging(result);
        return;
      }
      result := ReplaceDir();
    }

    // `let _ = fs::remove_dir_all(&staging)` on the way out.
    method DropStaging(ghost result: Outcome)
      requires AtPc(Discard(result))
      modifies this`root, this`trace
      ensures AtPc(Done(result))
      ensures SameBut(old(root), root, Staging(pid, bin))
      ensures Blocked(old(root), Staging(pid, bin)) ==> root == old(root)
      ensures !mayFail && !Blocked(old(root), Staging(pid, bin)) ==> root == old(root) - {Staging(pid, bin)}
    {
      var _ := RemoveDirAll(StagingName(bin.version, pid), Discard(result));
      AllButOne(old(root), root, Staging(pid, bin));
    }

    // Puts the staged tree in place of whatever is there, then sweeps.
    method ReplaceDir() returns (result: Outcome)
      requires AtPc(ProbeDir) && StagedWhole(pid, bin, root)
      modifies this`root, this`trace
      ensures AtPc(Done(result))
      ensures result.Installed? ==>
                result.dir == bin.version && bin.version in root && root[bin.version] == Dir(Complete(bin))
      ensures LeavesOthers(bin, pid, old(root), root)
      ensures !mayFail && Blocked(old(root), bin.version) ==>
                result == Failed(StaleKept) && root == old(root) - {Staging(pid, bin)}
      ensures !mayFail && !Blocked(old(root), bin.version) ==>
                result == Installed(bin.version) && root == Replaced(bin, pid, old(root))
    {
      StagingNamesDistinct(bin.version, pid, bin.version, pid);
      var cleared := ClearCached();
      if !cleared {
        result := Failed(StaleKept);
        DropStaging(result);
        return;
      }
      ReplacedOverCleared(bin, pid, old(root), root);
      result := InstallStaged();
    }

    method InstallStaged() returns (result: Outcome)
      requires AtPc(Rename) && StagedWhole(pid, bin, root)
      requires bin.version !in root && bin.version != Staging(pid, bin)
      modifies this`root, this`trace
      ensures AtPc(Done(result))
      ensures result.Installed? ==>
                result.dir == bin.version && bin.version in root && root[bin.version] == Dir(Complete(bin))
      ensures LeavesOthers(bin, pid, old(root), root)
      ensures !mayFail ==> result == Installed(bin.version) && root == Replaced(bin, pid, old(root))
    {
      var renamed := RenameStaging();
      if !renamed {
        result := Failed(RenameFailed);
        DropStaging(result);
        return;
      }
      SweptAfterRename(bin, pid, old(root), root);
      SweepOldVersions();
      result := Installed(bin.version);
      Record(root, Sweep, Done(result));
    }

    method ClearCached() returns (ok: bool)
      requires AtPc(ProbeDir)
      modifies this`root, this`trace
      ensures AtPc(if ok then Rename else Discard(Failed(StaleKept)))
      ensures SameBut(old(root), root, bin.version)
      ensures ok ==> bin.version !in root
      ensures Blocked(old(root), bin.version) ==> !ok && root == old(root)
      ensures !mayFail ==> ok == !Blocked(old(root), bin.version)
    {
      if bin.version in root {
        Record(root, ProbeDir, ClearDir);
        ok := RemoveDirAll(bin.version, ClearDir);
        AllButOne(old(root), root, bin.version);
      } else {
        Record(root, ProbeDir, Rename);
        ok := true;
      }
    }

    method RenameStaging() returns (ok: bool)
      requires AtPc(Rename) && IsDir(root, Staging(pid, bin)) && bin.version !in root
      modifies this`root, this`trace
      ensures AtPc(if ok then Sweep else Discard(Failed(RenameFailed)))
      ensures root == if ok then (old(root) - {Staging(pid, bin)})[bin.version := old(root)[Staging(pid, bin)]]
                      else old(root)
      ensures !mayFail ==> ok
    {
      var staging := StagingName(bin.version, pid);
      var fail: bool := *;
      if mayFail && fail {
        Record(root, Rename, Discard(Failed(RenameFailed)));
        return false;
      }
      root := (root - {staging})[bin.version := root[staging]];
      Record(old(root), Rename, Sweep);
      return true;
    }
  }

  predicate SameBut(root: Root, root': Root, name: string) {
    && (forall n | n in root && n != name :: n in root' && root'[n] == root[n])
    && (forall n | n in root' && n != name :: n in root)
  }

  lemma AllButOne(root: Root, root': Root, name: string)
    requires root - {name} == root' - {name}
    ensures SameBut(root, root', name)
  {
    forall n | n in root && n != name ensures n in root' && root'[n] == root[n] {
      assert n in root - {name} && (root - {name})[n] == root[n];
      assert (root' - {name})[n] == root'[n];
    }
    forall n | n in root' && n != name ensures n in root {
      assert n in root' - {name};
    }
  }

  // Nothing but this version, this process's staging directory and what a
  // sweep may take is changed.
  ghost predicate LeavesOthers(b: Binary, pid: nat, root: Root, root': Root) {
    && (forall n | n in root && n != b.version && n != Staging(pid, b) && !Sweepable(root, b.version, n) ::
          n in root' && root'[n] == root[n])
    && (forall n | n in root' && n != b.version && n != Staging(pid, b) :: n in root)
  }

  // A staging path that is not a directory cannot be cleared.
  predicate Blocked(root: Root, name: string) {
    name in root && root[name].Plain?
  }

  // ---- what an install without failures does -----------------------------

  // The root with only the current version, staging directories and
  // non-directories left.
  function Swept(root: Root, current: string): Root {
    map n | n in root && !Sweepable(root, current, n) :: root[n]
  }

  function Replaced(b: Binary, pid: nat, root: Root): Root
    requires Installable(b)
  {
    Swept(root - {Staging(pid, b)}, b.version)[b.version := Dir(Complete(b))]
  }

  // Clearing, renaming and sweeping together replace the tree.
  lemma SweptAfterRename(b: Binary, pid: nat, root: Root, renamed: Root)
    requires Installable(b) && b.version != Staging(pid, b)
    requires b.version in renamed && renamed[b.version] == Dir(Complete(b)) && Staging(pid, b) !in renamed
    requires SameBut(root - {Staging(pid, b)}, renamed, b.version)
    ensures Swept(renamed, b.version) == Replaced(b, pid, root)
  {
  }

  // What is cleared first makes no difference to the outcome.
  lemma ReplacedOverCleared(b: Binary, pid: nat, root: Root, cleared: Root)
    requires Installable(b) && SameBut(root, cleared, b.version)
    ensures Replaced(b, pid, cleared) == Replaced(b, pid, root)
  {
    assert forall n | n != b.version :: n in root <==> n in cleared;
  }

  // The root and the outcome after one install in which nothing fails.
  function InstallSpec(b: Binary, pid: nat, root: Root): (Root, Outcome) {
    var staging := Staging(pid, b);
    if b.archive.NotEmbedded? then (root, Failed(NoArchive))
    else if Hit(root, b) then (root, Installed(b.version))
    else if Blocked(root, staging) then (root, Failed(StageFailed))
    else if !Installable(b) then (root - {staging}, Failed(StageFailed))
    else if Blocked(root, b.version) then (root - {staging}, Failed(StaleKept))
    else (Replaced(b, pid, root), Installed(b.version))
  }

  // What the program promises of an install in which nothing fails: a hit
  // changes nothing; otherwise success leaves exactly one complete tree, no
  // other version and no staging directory of its own, and failure leaves
  // everything but its own staging directory as it was.
  lemma InstallMeaning(b: Binary, pid: nat, root: Root)
    requires ValidVersion(b.version)
    ensures var (after, outcome) := InstallSpec(b, pid, root);
            && (outcome.Installed? <==>
                  b.archive.Embedded?
                  && (Hit(root, b)
                      || (Installable(b) && !Blocked(root, Staging(pid, b)) && !Blocked(root, b.version))))
            && (b.archive.Embedded? && Hit(root, b) ==> after == root)
            && (outcome.Installed? && !Hit(root, b) ==>
                  && IsDir(after, b.version) && after[b.version].tree == Complete(b)
                  && (forall n | IsDir(after, n) && n != b.version :: IsStagingName(n) && n != Staging(pid, b))
                  && (forall n | n in root && n != b.version && n != Staging(pid, b)
                                 && (IsStagingName(n) || root[n].Plain?) ::
                        n in after && after[n] == root[n]))
            && (outcome.Failed? ==>
                  && after - {Staging(pid, b)} == root - {Staging(pid, b)}
                  && (b.archive.Embedded? ==> !IsDir(after, Staging(pid, b))))
  {
    StagingNamesDistinct(b.version, pid, b.version, pid);
  }

  // The extraction is paid for once: whoever installs next finds a hit and
  // changes nothing, exactly when the archive holds a bootable helper or there
  // was a hit to begin with.
  lemma NextInstallHits(b: Binary, pid: nat, other: nat, root: Root)
    requires ValidVersion(b.version) && InstallSpec(b, pid, root).1.Installed?
    ensures var after := InstallSpec(b, pid, root).0;
            && (Hit(after, b) <==> Hit(root, b) || (Installable(b) && TreeBoots(Complete(b))))
            && (Hit(after, b) ==> InstallSpec(b, other, after) == (after, Installed(b.version)))
  {
    InstallMeaning(b, pid, root);
    if !Hit(root, b) {
      CompleteHits(b);
    }
  }

  // Wherever an install is stopped, whatever failed before: if the directory
  // it started from agreed with its archive, so does the one it leaves.
  lemma StoppedInstallAgrees(p: Process, pc: Pc)
    requires p.AtPc(pc) && !p.flaky && Agrees(p.first, p.bin)
    ensures Agrees(p.root, p.bin)
  {
    var run := p.trace;
    forall j | 0 <= j < |run| ensures Solo(run[j]) {
      assert run[j].procs.Keys <= {p.pid};
      assert forall q | q in run[j].procs :: q in run[j].procs.Keys && q == p.pid;
    }
    SequentialAgreement(p.How(), run, |run| - 1, p.bin);
  }
}
