// What is left of a version's directory once processes have finished.
module CacheSettling {
  import opened CacheKey
  import opened RootfsCache
  import opened CacheSafety
  import opened CacheRuns
  import opened CacheAgreement
  import opened CacheReturns

  // Outcomes past staging: the process returned a directory, or lost a race
  // for it.
  predicate PastStaging(o: Outcome) {
    o.Installed? || o.reason.StaleKept? || o.reason.RenameFailed?
  }

  predicate Settled(pc: Pc) {
    match pc
    case ClearDir => true
    case Sweep => true
    case SweepClear(_) => true
    case Discard(o) => PastStaging(o)
    case Done(o) => PastStaging(o)
    case _ => false
  }

  ghost predicate SettledIn(s: State, pid: nat) {
    pid in s.procs && Settled(s.procs[pid].pc)
  }

  // The step in which `pid` gets past staging.
  ghost predicate Settles(s: State, s': State, pid: nat) {
    SettledIn(s', pid) && !SettledIn(s, pid)
  }

  ghost predicate InPlace(s: State, v: string) {
    v in s.root || exists pid :: pid in s.procs && s.procs[pid].pc.Rename?
  }

  // A process about to rename, over no directory, crashes or fails to.
  ghost predicate StruckBy(s: State, m: Move, s': State, v: string) {
    && v !in s.root && m.pid in s.procs && s.procs[m.pid].pc.Rename?
    && (m.Crash? || (m.Act? && m.pid in s'.procs && s'.procs[m.pid].pc == Discard(Failed(RenameFailed))))
  }

  ghost predicate Struck(g: Mode, world: set<Binary>, s: State, s': State, v: string) {
    exists m :: MoveStep(g, world, s, m, s') && StruckBy(s, m, s', v)
  }

  // With atomic removal, a process settles only over a directory that is there
  // unless it is struck, and takes one away only to rename its own into place.
  lemma OwnSettling(g: Mode, pid: nat, b: Binary, pc: Pc, root: Root, pc': Pc, root': Root)
    requires g.atomic && ValidVersion(b.version)
    requires ProcStep(g, pid, b, pc, root, pc', root') && StagingHolds(pid, b, pc, root)
    ensures b.version in root && b.version !in root' ==> pc.ClearDir? && pc'.Rename?
    ensures (Settled(pc') && !Settled(pc)) || pc.Rename? ==>
              || b.version in root'
              || (pc.Rename? && b.version !in root && pc' == Discard(Failed(RenameFailed)))
  {
    StagingNamesDistinct(b.version, pid, b.version, pid);
    if !Touches(pid, b, pc, b.version) {
      StepTouches(g, pid, b, pc, root, pc', root', b.version);
    }
  }

  // Whoever was about to rename still is, unless it was the one to move.
  lemma RenamerStays(s: State, s': State, v: string, moved: nat)
    requires InPlace(s, v) && (v in s.root ==> v in s'.root)
    requires forall pid | pid in s.procs && pid != moved :: pid in s'.procs && s'.procs[pid] == s.procs[pid]
    requires moved in s.procs && s.procs[moved].pc.Rename? ==> InPlace(s', v)
    ensures InPlace(s', v)
  {
    if v !in s.root {
      var q :| q in s.procs && s.procs[q].pc.Rename?;
      assert q != moved ==> q in s'.procs && s'.procs[q].pc.Rename?;
    }
  }

  // Once the directory is there or about to be, it stays so over every step
  // that does not strike a process about to rename.
  lemma InPlaceKept(g: Mode, world: set<Binary>, s: State, s': State, v: string)
    requires g.atomic && ValidVersion(v)
    requires forall b | b in world :: b.version == v
    requires AllStaged(world, s) && Step(g, world, s, s') && InPlace(s, v) && !Struck(g, world, s, s', v)
    ensures InPlace(s', v)
  {
    var m :| MoveStep(g, world, s, m, s');
    assert !StruckBy(s, m, s', v);
    if m.Act? {
      var me, pc' := s.procs[m.pid], s'.procs[m.pid].pc;
      OwnSettling(g, m.pid, me.bin, me.pc, s.root, pc', s'.root);
      if v !in s'.root && pc'.Rename? {
        assert m.pid in s'.procs;
      } else {
        RenamerStays(s, s', v, m.pid);
      }
    } else {
      RenamerStays(s, s', v, m.pid);
    }
  }

  // No step from `i` on and before `j` strikes.
  ghost predicate Unstruck(g: Mode, world: set<Binary>, run: seq<State>, i: nat, j: nat, v: string)
    requires j < |run|
  {
    forall k | i <= k < j :: !Struck(g, world, run[k], run[k + 1], v)
  }

  lemma {:induction false} InPlaceStays(g: Mode, world: set<Binary>, run: seq<State>, i: nat, j: nat, v: string)
    requires IsRun(g, world, run) && i <= j < |run| && g.atomic && ValidVersion(v)
    requires forall b | b in world :: b.version == v
    requires InPlace(run[i], v) && Unstruck(g, world, run, i, j, v)
    ensures InPlace(run[j], v)
    decreases j
  {
    if i < j {
      InPlaceStays(g, world, run, i, j - 1, v);
      assert !Struck(g, world, run[j - 1], run[j - 1 + 1], v);
      InPlaceNext(g, world, run, j, v);
    }
  }

  lemma InPlaceNext(g: Mode, world: set<Binary>, run: seq<State>, j: nat, v: string)
    requires IsRun(g, world, run) && 0 < j < |run| && g.atomic && ValidVersion(v)
    requires forall b | b in world :: b.version == v
    requires InPlace(run[j - 1], v) && !Struck(g, world, run[j - 1], run[j], v)
    ensures InPlace(run[j], v)
  {
    AllStagedInRun(g, world, run, j - 1);
    assert run[j] == run[j - 1 + 1];
    InPlaceKept(g, world, run[j - 1], run[j], v);
  }

  lemma SettlesInPlace(g: Mode, world: set<Binary>, s: State, s': State, v: string, pid: nat)
    requires g.atomic && ValidVersion(v)
    requires forall b | b in world :: b.version == v
    requires AllStaged(world, s) && Step(g, world, s, s') && Settles(s, s', pid)
    ensures v in s'.root || Struck(g, world, s, s', v)
  {
    var m :| MoveStep(g, world, s, m, s');
    if m.Act? {
      var me := s.procs[m.pid];
      OwnSettling(g, m.pid, me.bin, me.pc, s.root, s'.procs[m.pid].pc, s'.root);
      assert v !in s'.root ==> StruckBy(s, m, s', v);
    }
  }

  // Main result. With atomic removal, whatever else fails or crashes: once a
  // process of this version got past staging - even one whose rename lost - the
  // directory is there or about to be renamed into place, in that state and ever
  // after, whatever becomes of that process and its pid, as long as no process
  // is struck at its rename. So it is there whenever all have returned, and then
  // it is the initial one or one archive's complete tree.
  lemma InstalledWhenAllReturned(g: Mode, world: set<Binary>, run: seq<State>, i: nat, j: nat, v: string, pid: nat)
    requires IsRun(g, world, run) && 0 < i <= j < |run| && g.atomic && ValidVersion(v)
    requires forall b | b in world :: b.version == v
    requires Settles(run[i - 1], run[i], pid) && Unstruck(g, world, run, i - 1, j, v)
    ensures InPlace(run[j], v)
    ensures AllReturned(run[j].procs) ==>
              && v in run[j].root
              && ((v in run[0].root && run[j].root[v] == run[0].root[v])
                  || exists b :: b in world && Installable(b) && run[j].root[v] == Dir(Complete(b)))
  {
    SettledStep(g, world, run, i - 1, v, pid);
    assert Unstruck(g, world, run, i, j, v);
    InPlaceStays(g, world, run, i, j, v);
    StagingNamesDistinct(v, 0, v, 0);
    ReplacedNeverMerged(g, world, run, j, v);
  }

  lemma SettledStep(g: Mode, world: set<Binary>, run: seq<State>, i: nat, v: string, pid: nat)
    requires IsRun(g, world, run) && i + 1 < |run| && g.atomic && ValidVersion(v)
    requires forall b | b in world :: b.version == v
    requires Settles(run[i], run[i + 1], pid) && !Struck(g, world, run[i], run[i + 1], v)
    ensures InPlace(run[i + 1], v)
  {
    AllStagedInRun(g, world, run, i);
    SettlesInPlace(g, world, run[i], run[i + 1], v, pid);
  }

  // ---- when nothing fails ------------------------------------------------

  // Only a crash or a failure strikes: the rename itself would succeed.
  lemma NoFaultsNoStrike(g: Mode, world: set<Binary>, s: State, s': State, v: string)
    requires !g.faults && forall b | b in world :: b.version == v
    requires AllStaged(world, s)
    ensures !Struck(g, world, s, s', v)
  {
    forall m | MoveStep(g, world, s, m, s') ensures !StruckBy(s, m, s', v) {
    }
  }

  // Whoever is settled got there by a step of the run.
  lemma {:induction false} SettledSince(g: Mode, world: set<Binary>, run: seq<State>, i: nat, pid: nat) returns (k: nat)
    requires IsRun(g, world, run) && i < |run| && SettledIn(run[i], pid)
    ensures 0 < k <= i && Settles(run[k - 1], run[k], pid)
  {
    if i == 0 || !SettledIn(run[i - 1], pid) {
      k := i;
    } else {
      k := SettledSince(g, world, run, i - 1, pid);
    }
  }

  // So without faults no condition is left, and it is enough that a process is
  // past staging.
  lemma InstalledWithoutFaults(g: Mode, world: set<Binary>, run: seq<State>, i: nat, j: nat, v: string, pid: nat)
    requires IsRun(g, world, run) && i <= j < |run| && g.atomic && !g.faults && ValidVersion(v)
    requires forall b | b in world :: b.version == v
    requires SettledIn(run[i], pid)
    ensures InPlace(run[j], v)
    ensures AllReturned(run[j].procs) ==> v in run[j].root
  {
    var k := SettledSince(g, world, run, i, pid);
    forall n | k - 1 <= n < j ensures !Struck(g, world, run[n], run[n + 1], v) {
      AllStagedInRun(g, world, run, n);
      NoFaultsNoStrike(g, world, run[n], run[n + 1], v);
    }
    InstalledWhenAllReturned(g, world, run, k, j, v, pid);
  }

  // ---- what a result is worth --------------------------------------------

  // The process has its directory and will return it.
  predicate Got(pc: Pc) {
    pc.Sweep? || pc.SweepClear? || (pc.Discard? && pc.outcome.Installed?) || (pc.Done? && pc.outcome.Installed?)
  }

  ghost predicate GotIn(s: State, pid: nat) {
    pid in s.procs && Got(s.procs[pid].pc)
  }

  // Whenever some process of `b` got its directory and, then or later, all have
  // returned, the directory is there.
  ghost predicate ResultsLast(g: Mode, b: Binary) {
    forall run: seq<State>, i, j, pid |
      RunOfOne(g, b, run) && 0 <= i <= j < |run| && GotIn(run[i], pid) && AllReturned(run[j].procs) ::
      b.version in run[j].root
  }

  lemma OwnGetting(g: Mode, pid: nat, b: Binary, pc: Pc, root: Root, pc': Pc, root': Root)
    requires ProcStep(g, pid, b, pc, root, pc', root') && Got(pc') && !Got(pc)
    ensures b.version in root'
  {
  }

  lemma {:induction false} GotSince(g: Mode, b: Binary, run: seq<State>, i: nat, pid: nat) returns (k: nat)
    requires RunOfOne(g, b, run) && i < |run| && GotIn(run[i], pid)
    ensures 0 < k <= i && b.version in run[k].root
  {
    if i == 0 || !GotIn(run[i - 1], pid) {
      k := i;
      GetsAt(g, b, run, i, pid);
    } else {
      k := GotSince(g, b, run, i - 1, pid);
    }
  }

  lemma GetsAt(g: Mode, b: Binary, run: seq<State>, i: nat, pid: nat)
    requires RunOfOne(g, b, run) && i < |run| && GotIn(run[i], pid)
    requires i == 0 || !GotIn(run[i - 1], pid)
    ensures i > 0 && b.version in run[i].root
  {
    AllStagedInRun(g, {b}, run, i - 1);
    assert run[i] == run[i - 1 + 1];
    GetsIt(g, b, run[i - 1], run[i], pid);
  }

  lemma GetsIt(g: Mode, b: Binary, s: State, s': State, pid: nat)
    requires AllStaged({b}, s) && Step(g, {b}, s, s') && GotIn(s', pid) && !GotIn(s, pid)
    ensures b.version in s'.root
  {
    var m :| MoveStep(g, {b}, s, m, s');
    if m.Act? {
      OwnGetting(g, m.pid, b, s.procs[m.pid].pc, s.root, s'.procs[m.pid].pc, s'.root);
    }
  }

  // Without overlap and misread looks, a tree that passes the test is never
  // removed: nobody gets past its looks.
  lemma HitIsKept(g: Mode, b: Binary, s: State, s': State)
    requires g.atomic && ValidVersion(b.version) && AllStaged({b}, s) && Step(g, {b}, s, s')
    requires SoloInvariant(s, b) && Hit(s.root, b)
    ensures b.version in s'.root
  {
    var m :| MoveStep(g, {b}, s, m, s');
    if m.Act? {
      var me := s.procs[m.pid];
      OwnSettling(g, m.pid, me.bin, me.pc, s.root, s'.procs[m.pid].pc, s'.root);
    }
  }

  predicate Present(s: State, b: Binary) {
    b.version in s.root
  }

  lemma {:induction false} HitStays(g: Mode, b: Binary, run: seq<State>, i: nat, j: nat)
    requires RunOfOne(g, b, run) && i <= j < |run| && g.atomic && !g.overlap && !g.flaky
    requires Installable(b) && TreeBoots(Complete(b)) && Present(run[i], b)
    ensures Present(run[j], b)
    decreases j
  {
    if i < j {
      HitStays(g, b, run, i, j - 1);
      HitNext(g, b, run, j);
    }
  }

  lemma HitNext(g: Mode, b: Binary, run: seq<State>, j: nat)
    requires RunOfOne(g, b, run) && 0 < j < |run| && g.atomic && !g.overlap && !g.flaky
    requires Installable(b) && TreeBoots(Complete(b)) && Present(run[j - 1], b)
    ensures Present(run[j], b)
  {
    AllStagedInRun(g, {b}, run, j - 1);
    AlwaysSolo(g, {b}, run);
    SequentialAgreement(g, run, j - 1, b);
    LeftOfArchive(g, b, run, j - 1);
    CompleteHits(b);
    assert run[j] == run[j - 1 + 1];
    HitIsKept(g, b, run[j - 1], run[j]);
  }

  // A process clears the tree another has returned and crashes before its
  // rename.
  lemma CrashAtRename(w: Setting, b: Binary, a: Actor)
    requires w == Setting(w.g, {b}, map[]) && w.g.atomic && w.g.faults && Installable(b) && ValidVersion(b.version)
    requires a == Actor(b, 1, map[2 := Returned(b)]) && Reaches(w, At(a, Staged(a, Cached(b)), ProbeDir))
    ensures !ResultsLast(w.g, b)
  {
    StagingNamesDistinct(b.version, 1, b.version, 1);
    ClearsForRename(w, a, Cached(b));
    var cleared := Staged(a, Cached(b) - {b.version});
    ReachesOn(w, At(a, cleared, Rename), Crash(1), State(cleared, a.others));
    LosesReturned(w, b, At(a, cleared, Rename), State(cleared, a.others));
  }

  lemma LosesReturned(w: Setting, b: Binary, s: State, t: State)
    requires w == Setting(w.g, {b}, map[]) && ValidVersion(b.version)
    requires GotIn(t, 2) && AllReturned(t.procs) && b.version !in t.root && Reaches(w, t)
    ensures !ResultsLast(w.g, b)
  {
    var run: seq<State> :| Way(w, run, t);
    assert RunOfOne(w.g, b, run) && GotIn(run[|run| - 1], 2);
  }

  // Main result, exact in both directions. With atomic removal, a directory a
  // process got stays until all have returned if and only if nothing fails, or
  // the archive cannot be installed, or processes do not overlap, reads do not
  // fail and the tree passes its own test. Otherwise some process clears it and
  // crashes at its rename.
  lemma ResultsLastExactly(g: Mode, b: Binary)
    requires g.atomic && ValidVersion(b.version)
    ensures ResultsLast(g, b) <==>
              || !g.faults
              || !Installable(b)
              || (!g.overlap && !g.flaky && TreeBoots(Complete(b)))
  {
    if !g.faults || !Installable(b) || (!g.overlap && !g.flaky && TreeBoots(Complete(b))) {
      forall run: seq<State>, i, j, pid |
        RunOfOne(g, b, run) && 0 <= i <= j < |run| && GotIn(run[i], pid) && AllReturned(run[j].procs)
        ensures b.version in run[j].root
      {
        ResultLasts(g, b, run, i, j, pid);
      }
    } else {
      OneStagedOneInstalled(FromEmpty(g, b), b);
      CrashAtRename(FromEmpty(g, b), b, Actor(b, 1, map[2 := Returned(b)]));
    }
  }

  lemma ResultLasts(g: Mode, b: Binary, run: seq<State>, i: nat, j: nat, pid: nat)
    requires g.atomic && ValidVersion(b.version)
    requires !g.faults || !Installable(b) || (!g.overlap && !g.flaky && TreeBoots(Complete(b)))
    requires RunOfOne(g, b, run) && i <= j < |run| && GotIn(run[i], pid) && AllReturned(run[j].procs)
    ensures b.version in run[j].root
  {
    var k := GotSince(g, b, run, i, pid);
    LeftOfArchive(g, b, run, k);
    if g.faults {
      HitStays(g, b, run, k, j);
    } else {
      InstalledWithoutFaults(g, {b}, run, i, j, b.version, pid);
    }
  }
}
