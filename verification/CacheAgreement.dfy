// When a state in which the hit test passes holds a fresh extraction: agreement
// over whole runs and the exact condition for it. What a process makes of two
// looks, one after the other, is another matter: see CacheReturns.
module CacheAgreement {
  import opened CacheKey
  import opened RootfsCache
  import opened CacheSafety
  import opened CacheRuns

  // The directory is exactly `b`'s archive unpacked, plus the marker.
  predicate Fresh(root: Root, b: Binary) {
    Installable(b) && IsDir(root, b.version) && root[b.version].tree == Complete(b)
  }

  // What both halves of the hit test find in one and the same state is fresh.
  predicate Agrees(root: Root, b: Binary) {
    Hit(root, b) ==> Fresh(root, b)
  }

  // Deleting entries never makes the hit test pass, so a removal that starts
  // from a tree failing it may stop anywhere.
  lemma DeletionNeverHits(t: Tree, u: Tree, key: string)
    requires SubTree(t, u) && TreeHits(t, key)
    ensures TreeHits(u, key)
  {
    assert MARKER in t && HELPER in t;
  }

  // ---- runs that do not overlap ------------------------------------------

  // Points reached only after the hit test failed.
  predicate AfterAMiss(pc: Pc) {
    match pc
    case LookMarker(again) => again
    case LookHelper(again) => again
    case StageProbe => true
    case StageClear => true
    case StageCreate => true
    case Unpack(_) => true
    case MarkerOpen => true
    case MarkerText => true
    case ProbeDir => true
    case ClearDir => true
    case _ => false
  }

  ghost predicate KnowsMiss(root: Root, b: Binary, pc: Pc) {
    && (AfterAMiss(pc) ==> !Hit(root, b))
    && (pc.LookHelper? ==> MarkerSeen(root, b))
  }

  ghost predicate SoloInvariant(s: State, b: Binary) {
    && Agrees(s.root, b)
    && forall pid | pid in s.procs :: s.procs[pid].bin == b && KnowsMiss(s.root, b, s.procs[pid].pc)
  }

  lemma ClearingKeepsMiss(g: Mode, pid: nat, b: Binary, root: Root, pc': Pc, root': Root)
    requires ValidVersion(b.version) && ProcStep(g, pid, b, ClearDir, root, pc', root') && !Hit(root, b)
    ensures !Hit(root', b)
  {
    if Hit(root', b) {
      DeletionNeverHits(root'[b.version].tree, root[b.version].tree, KeyOf(b));
    }
  }

  lemma OwnMiss(g: Mode, pid: nat, b: Binary, pc: Pc, root: Root, pc': Pc, root': Root)
    requires !g.flaky && ValidVersion(b.version)
    requires ProcStep(g, pid, b, pc, root, pc', root') && StagingHolds(pid, b, pc, root)
    requires Agrees(root, b) && KnowsMiss(root, b, pc)
    ensures Agrees(root', b) && KnowsMiss(root', b, pc')
  {
    StagingNamesDistinct(b.version, pid, b.version, pid);
    if pc.ClearDir? {
      ClearingKeepsMiss(g, pid, b, root, pc', root');
    } else if pc.Rename? {
      assert pc' == Sweep ==> root'[b.version].tree == Complete(b);
    } else {
      StepTouches(g, pid, b, pc, root, pc', root', b.version);
      UntouchedLooksSame(b, root, root');
      LooksLearnMiss(g, pid, b, pc, root, pc', root');
    }
  }

  // A process gets past a look only by what it saw.
  lemma LooksLearnMiss(g: Mode, pid: nat, b: Binary, pc: Pc, root: Root, pc': Pc, root': Root)
    requires !g.flaky && !pc.ClearDir? && !pc.Rename?
    requires ProcStep(g, pid, b, pc, root, pc', root') && KnowsMiss(root, b, pc)
    requires MarkerSeen(root', b) == MarkerSeen(root, b) && Hit(root', b) == Hit(root, b)
    ensures KnowsMiss(root', b, pc')
  {
  }

  lemma UntouchedLooksSame(b: Binary, root: Root, root': Root)
    requires Untouched(root, root', b.version)
    ensures MarkerSeen(root', b) == MarkerSeen(root, b) && Hit(root', b) == Hit(root, b)
    ensures Agrees(root, b) ==> Agrees(root', b)
  {
  }

  lemma IdleKnowsNothing(root: Root, b: Binary, pc: Pc)
    requires pc.Done? || pc.Begin?
    ensures KnowsMiss(root, b, pc)
  {
  }

  lemma SoloKept(g: Mode, s: State, s': State, b: Binary)
    requires !g.flaky && ValidVersion(b.version)
    requires AllStaged({b}, s) && Step(g, {b}, s, s') && Solo(s)
    requires SoloInvariant(s, b)
    ensures SoloInvariant(s', b)
  {
    var m :| MoveStep(g, {b}, s, m, s');
    match m
    case Act(me) =>
      OwnMiss(g, me, b, s.procs[me].pc, s.root, s'.procs[me].pc, s'.root);
      assert Live(s, me);
      forall pid | pid in s'.procs ensures s'.procs[pid].bin == b && KnowsMiss(s'.root, b, s'.procs[pid].pc) {
        if pid != me {
          assert s'.procs[pid] == s.procs[pid] && !Live(s, pid);
          IdleKnowsNothing(s'.root, b, s'.procs[pid].pc);
        }
      }
    case Start(me, _) =>
      IdleKnowsNothing(s'.root, b, s'.procs[me].pc);
    case Crash(_) =>
  }

  // Where processes may not overlap, at most one is at work in every state.
  lemma {:induction false} SoloSoFar(g: Mode, world: set<Binary>, run: seq<State>, i: nat)
    requires IsRun(g, world, run) && i < |run| && !g.overlap
    ensures Solo(run[i])
  {
    if i > 0 {
      SoloSoFar(g, world, run, i - 1);
      assert run[i] == run[i - 1 + 1];
      SoloStays(g, world, run[i - 1], run[i]);
    }
  }

  lemma SoloStays(g: Mode, world: set<Binary>, s: State, s': State)
    requires Step(g, world, s, s') && Solo(s) && !g.overlap
    ensures Solo(s')
  {
    var m :| MoveStep(g, world, s, m, s');
    forall p | p in s'.procs && Live(s', p) ensures p == m.pid || Live(s, p) {
    }
    if m.Act? {
      assert Live(s, m.pid);
    }
  }

  lemma AlwaysSolo(g: Mode, world: set<Binary>, run: seq<State>)
    requires IsRun(g, world, run) && !g.overlap
    ensures forall j | 0 <= j < |run| :: Solo(run[j])
  {
    forall j | 0 <= j < |run| ensures Solo(run[j]) {
      SoloSoFar(g, world, run, j);
    }
  }

  // Any sequence of non-overlapping runs of one binary, each of which may
  // fail or crash at any step, keeps agreement.
  lemma {:induction false} SequentialAgreement(g: Mode, run: seq<State>, i: nat, b: Binary)
    requires IsRun(g, {b}, run) && i < |run| && !g.flaky
    requires forall j | 0 <= j < |run| :: Solo(run[j])
    requires Agrees(run[0].root, b)
    ensures SoloInvariant(run[i], b)
  {
    if i > 0 {
      SequentialAgreement(g, run, i - 1, b);
      AllStagedInRun(g, {b}, run, i - 1);
      assert run[i] == run[i - 1 + 1];
      SoloKept(g, run[i - 1], run[i], b);
    }
  }

  // ---- atomic removal ----------------------------------------------------

  // Version and digest stand for the archive they name.
  ghost predicate KeysIdentify(world: set<Binary>) {
    forall b, c | b in world && c in world && b.version == c.version && b.digest == c.digest :: b == c
  }

  lemma CompleteHitsItselfOnly(b: Binary, c: Binary, world: set<Binary>)
    requires b in world && c in world && KeysIdentify(world) && ValidVersion(c.version)
    requires Installable(c) && TreeMarked(Complete(c), KeyOf(b))
    ensures b == c
  {
    MarkerNamesOneArchive(c.version, c.digest, b.version, b.digest);
  }

  // Any number of processes, versions and archives, with crashes and failures
  // anywhere: as long as a removal is atomic, a state in which both tests pass
  // holds a fresh extraction of the very archive that is looked for.
  lemma AtomicAgreement(g: Mode, world: set<Binary>, run: seq<State>, i: nat, b: Binary)
    requires IsRun(g, world, run) && i < |run| && g.atomic && KeysIdentify(world) && b in world
    requires Agrees(run[0].root, b)
    ensures Agrees(run[i].root, b)
  {
    if Hit(run[i].root, b) {
      StagingNamesDistinct(b.version, 0, b.version, 0);
      ReplacedNeverMerged(g, world, run, i, b.version);
      var t := run[i].root[b.version].tree;
      if !(b.version in run[0].root && run[i].root[b.version] == run[0].root[b.version])
         && !(IsDir(run[0].root, b.version) && t == run[0].root[b.version].tree) {
        var c :| c in world && c.version == b.version && Installable(c) && RestOf(g, t, Complete(c));
        CompleteHitsItselfOnly(b, c, world);
      }
    }
  }

  // ---- the exact condition -----------------------------------------------

  // An archive that installs, passes its own hit test, and holds more than
  // the two files the test looks at.
  predicate Fragile(b: Binary) {
    && Installable(b) && TreeBoots(Complete(b))
    && exists p :: p in Complete(b) && p != MARKER && p != HELPER
  }

  ghost predicate RunOfOne(g: Mode, b: Binary, run: seq<State>) {
    IsRun(g, {b}, run) && run[0].root == map[]
  }

  // Every run of `b` from an empty cache agrees, at every state.
  ghost predicate AlwaysAgrees(g: Mode, b: Binary) {
    forall run: seq<State>, i | RunOfOne(g, b, run) && 0 <= i < |run| :: Agrees(run[i].root, b)
  }

  lemma CompleteHits(b: Binary)
    requires Installable(b) && ValidVersion(b.version)
    ensures TreeHits(Complete(b), KeyOf(b)) <==> TreeBoots(Complete(b))
  {
    KeyIsTrimmed(b.version, HexOf(b.digest));
  }

  lemma SturdyAgrees(g: Mode, b: Binary, run: seq<State>, i: nat)
    requires IsRun(g, {b}, run) && i < |run| && run[0].root == map[] && !Fragile(b)
    ensures Agrees(run[i].root, b)
  {
    if Hit(run[i].root, b) {
      StagingNamesDistinct(b.version, 0, b.version, 0);
      ReplacedNeverMerged(g, {b}, run, i, b.version);
      var t := run[i].root[b.version].tree;
      DeletionNeverHits(t, Complete(b), KeyOf(b));
      assert forall p | p in Complete(b) :: p == MARKER || p == HELPER;
      assert t == Complete(b);
    }
  }

  // The tree after losing an entry the hit test does not look at.
  lemma PartialTreeHits(b: Binary, p: string)
    requires Installable(b) && ValidVersion(b.version) && TreeBoots(Complete(b))
    requires p in Complete(b) && p != MARKER && p != HELPER
    ensures var t := Complete(b) - {p}; TreeHits(t, KeyOf(b)) && t != Complete(b)
  {
    CompleteHits(b);
    assert p !in Complete(b) - {p};
  }

  function FromEmpty(g: Mode, b: Binary): Setting {
    Setting(g, {b}, map[])
  }

  // A process past its miss clears, of a whole installed tree, one entry the
  // test does not look at: with overlap because it looked before the other
  // installed, without because both its looks failed to read the directory.
  lemma OverlapOrMisreadsDisagree(g: Mode, b: Binary)
    requires !g.atomic && (g.overlap || g.flaky) && Fragile(b) && ValidVersion(b.version)
    ensures !AlwaysAgrees(g, b)
  {
    var w, a := FromEmpty(g, b), Actor(b, 1, map[2 := Returned(b)]);
    StagingNamesDistinct(b.version, 1, b.version, 1);
    OneStagedOneInstalled(w, b);
    var p :| p in Complete(b) && p != MARKER && p != HELPER;
    var staged := Staged(a, Cached(b));
    LosesOneEntry(w, a, staged, p);
    PartialTreeHits(b, p);
    var t := At(a, staged[b.version := Dir(Complete(b) - {p})], ClearDir);
    var run: seq<State> :| Way(w, run, t);
    assert RunOfOne(g, b, run) && !Agrees(run[|run| - 1].root, b);
  }

  // Exact in both directions. Every state in which both tests pass for one
  // binary holds a fresh extraction if removal is atomic, or if its runs do not
  // overlap and its reads do not fail, or if its tree holds nothing besides what
  // the test looks at; in every other case some run breaks it.
  lemma AgreementExactly(g: Mode, b: Binary)
    requires ValidVersion(b.version)
    ensures AlwaysAgrees(g, b) <==> g.atomic || (!g.overlap && !g.flaky) || !Fragile(b)
  {
    if g.atomic || (!g.overlap && !g.flaky) || !Fragile(b) {
      forall run: seq<State>, i | RunOfOne(g, b, run) && 0 <= i < |run| ensures Agrees(run[i].root, b) {
        if g.atomic {
          AtomicAgreement(g, {b}, run, i, b);
        } else if !g.overlap && !g.flaky {
          AlwaysSolo(g, {b}, run);
          SequentialAgreement(g, run, i, b);
        } else {
          SturdyAgrees(g, b, run, i);
        }
      }
    } else {
      OverlapOrMisreadsDisagree(g, b);
    }
  }
}
