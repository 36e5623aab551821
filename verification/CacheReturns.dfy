// What a process returns on a cache hit. It looks at the marker first and at
// the helper second, and others may act in between: agreement of single states
// is not enough, and the conditions here are about the two looks.
module CacheReturns {
  import opened CacheKey
  import opened RootfsCache
  import opened CacheSafety
  import opened CacheRuns
  import opened CacheAgreement

  // Step `i` is the second look of `pid`, a process of `b`, and its hit makes
  // the process return the directory.
  ghost predicate ReturnsOnHit(g: Mode, world: set<Binary>, b: Binary, run: seq<State>, i: nat, pid: nat, again: bool) {
    && i + 1 < |run| && MoveStep(g, world, run[i], Act(pid), run[i + 1])
    && run[i].procs[pid] == Proc(b, LookHelper(again)) && run[i + 1].procs[pid].pc == AfterHit(b, again)
  }

  lemma LookSees(g: Mode, world: set<Binary>, b: Binary, run: seq<State>, i: nat, pid: nat, again: bool)
    requires ReturnsOnHit(g, world, b, run, i, pid, again)
    ensures run[i + 1].root == run[i].root && RootfsPasses(run[i].root, b.version)
  {
  }

  // ---- one binary --------------------------------------------------------

  // In runs that do not overlap nothing happens between the two looks.
  ghost predicate RemembersMarker(s: State) {
    forall pid | pid in s.procs && s.procs[pid].pc.LookHelper? :: MarkerSeen(s.root, s.procs[pid].bin)
  }

  lemma OnlyMarkerLeadsToHelper(g: Mode, pid: nat, b: Binary, pc: Pc, root: Root, pc': Pc, root': Root)
    requires ProcStep(g, pid, b, pc, root, pc', root') && pc'.LookHelper?
    ensures MarkerSeen(root, b) && root' == root
  {
  }

  lemma RemembersKept(g: Mode, world: set<Binary>, s: State, s': State)
    requires Step(g, world, s, s') && Solo(s) && RemembersMarker(s)
    ensures RemembersMarker(s')
  {
    var m :| MoveStep(g, world, s, m, s');
    if m.Act? {
      var me := s.procs[m.pid];
      assert Live(s, m.pid);
      forall pid | pid in s'.procs && s'.procs[pid].pc.LookHelper? ensures MarkerSeen(s'.root, s'.procs[pid].bin) {
        if pid == m.pid {
          OnlyMarkerLeadsToHelper(g, pid, me.bin, me.pc, s.root, s'.procs[pid].pc, s'.root);
        } else {
          assert s'.procs[pid] == s.procs[pid] && Live(s, pid);
        }
      }
    }
  }

  lemma {:induction false} RemembersInRun(g: Mode, world: set<Binary>, run: seq<State>, i: nat)
    requires IsRun(g, world, run) && i < |run|
    requires forall j | 0 <= j < |run| :: Solo(run[j])
    ensures RemembersMarker(run[i])
  {
    if i > 0 {
      RemembersInRun(g, world, run, i - 1);
      assert run[i] == run[i - 1 + 1];
      RemembersKept(g, world, run[i - 1], run[i]);
    }
  }

  // Without overlap both looks of a returning process hold at once.
  lemma SoloReturnsHit(g: Mode, world: set<Binary>, b: Binary, run: seq<State>, i: nat, pid: nat, again: bool)
    requires IsRun(g, world, run) && ReturnsOnHit(g, world, b, run, i, pid, again)
    requires forall j | 0 <= j < |run| :: Solo(run[j])
    ensures Hit(run[i].root, b)
  {
    RemembersInRun(g, world, run, i);
    LookSees(g, world, b, run, i, pid, again);
  }

  // So a process that returns the directory on a hit, after any sequence of
  // non-overlapping runs, returns a fresh extraction.
  lemma HitReturnsFresh(g: Mode, run: seq<State>, i: nat, b: Binary, pid: nat, again: bool)
    requires IsRun(g, {b}, run) && ReturnsOnHit(g, {b}, b, run, i, pid, again) && !g.flaky
    requires forall j | 0 <= j < |run| :: Solo(run[j])
    requires Agrees(run[0].root, b)
    ensures Fresh(run[i + 1].root, b)
  {
    SequentialAgreement(g, run, i, b);
    SoloReturnsHit(g, {b}, b, run, i, pid, again);
    LookSees(g, {b}, b, run, i, pid, again);
  }

  // Every process of `b` that returns on a hit, in any run from an empty
  // cache, returns a fresh extraction.
  ghost predicate ReturnsFresh(g: Mode, b: Binary) {
    forall run: seq<State>, i, pid, again | RunOfOne(g, b, run) && ReturnsOnHit(g, {b}, b, run, i, pid, again) ::
      Fresh(run[i + 1].root, b)
  }

  // From an empty cache a directory is what is left of the archive's tree.
  lemma LeftOfArchive(g: Mode, b: Binary, run: seq<State>, i: nat)
    requires RunOfOne(g, b, run) && i < |run| && b.version in run[i].root
    ensures Installable(b) && IsDir(run[i].root, b.version) && RestOf(g, run[i].root[b.version].tree, Complete(b))
  {
    StagingNamesDistinct(b.version, 0, b.version, 0);
    ReplacedNeverMerged(g, {b}, run, i, b.version);
  }

  // ---- misread looks alone -----------------------------------------------

  // Nothing fails but reads: a removal once begun runs to its end, so the
  // directory disagrees only while a process is clearing it.
  ghost predicate AgreesUnlessClearing(s: State, b: Binary) {
    Agrees(s.root, b) || exists pid :: pid in s.procs && s.procs[pid].pc.ClearDir?
  }

  lemma OwnClearing(g: Mode, b: Binary, pid: nat, pc: Pc, root: Root, pc': Pc, root': Root)
    requires !g.faults && !g.overlap && ValidVersion(b.version)
    requires ProcStep(g, pid, b, pc, root, pc', root') && StagingHolds(pid, b, pc, root)
    requires pc.ClearDir? || Agrees(root, b)
    ensures pc'.ClearDir? || Agrees(root', b)
  {
    StagingNamesDistinct(b.version, pid, b.version, pid);
    if pc.Rename? {
      assert pc' == Sweep ==> root'[b.version].tree == Complete(b);
    } else if !pc.ClearDir? {
      StepTouches(g, pid, b, pc, root, pc', root', b.version);
      UntouchedLooksSame(b, root, root');
    }
  }

  lemma OnlyActorClears(s: State, b: Binary, pid: nat)
    requires Solo(s) && Live(s, pid) && AgreesUnlessClearing(s, b)
    ensures s.procs[pid].pc.ClearDir? || Agrees(s.root, b)
  {
    if p :| p in s.procs && s.procs[p].pc.ClearDir? {
      assert Live(s, p);
    }
  }

  lemma ClearingKept(g: Mode, b: Binary, s: State, s': State)
    requires !g.faults && !g.overlap && ValidVersion(b.version) && Solo(s)
    requires AllStaged({b}, s) && Step(g, {b}, s, s') && AgreesUnlessClearing(s, b)
    ensures AgreesUnlessClearing(s', b)
  {
    var m :| MoveStep(g, {b}, s, m, s');
    if m.Act? {
      var me := s.procs[m.pid];
      OnlyActorClears(s, b, m.pid);
      OwnClearing(g, b, m.pid, me.pc, s.root, s'.procs[m.pid].pc, s'.root);
    }
  }

  lemma {:induction false} ClearingInRun(g: Mode, b: Binary, run: seq<State>, i: nat)
    requires RunOfOne(g, b, run) && i < |run| && !g.faults && !g.overlap
    ensures AgreesUnlessClearing(run[i], b)
  {
    if i > 0 {
      ClearingInRun(g, b, run, i - 1);
      AllStagedInRun(g, {b}, run, i - 1);
      AlwaysSolo(g, {b}, run);
      assert run[i] == run[i - 1 + 1];
      ClearingKept(g, b, run[i - 1], run[i]);
    }
  }

  // A lone process that returns is at its look, so nobody is clearing.
  lemma MisreadsAloneHarmless(g: Mode, b: Binary, run: seq<State>, i: nat, pid: nat, again: bool)
    requires RunOfOne(g, b, run) && ReturnsOnHit(g, {b}, b, run, i, pid, again) && !g.faults && !g.overlap
    ensures Agrees(run[i].root, b)
  {
    ClearingInRun(g, b, run, i);
    AlwaysSolo(g, {b}, run);
    OnlyActorClears(run[i], b, pid);
  }

  // When returned hits of one binary can be relied on: removal is atomic, or
  // the archive can never be hit, or processes do not overlap and one of three
  // holds: reads do not fail, nothing but reads fails, or the tree holds nothing
  // besides what the test looks at.
  predicate ReturnsAreSafe(g: Mode, b: Binary) {
    || g.atomic
    || !(Installable(b) && TreeBoots(Complete(b)))
    || (!g.overlap && (!g.flaky || !g.faults || !Fragile(b)))
  }

  lemma ReturnIsFresh(g: Mode, b: Binary, run: seq<State>, i: nat, pid: nat, again: bool)
    requires RunOfOne(g, b, run) && ReturnsOnHit(g, {b}, b, run, i, pid, again)
    requires ReturnsAreSafe(g, b)
    ensures Fresh(run[i + 1].root, b)
  {
    LookSees(g, {b}, b, run, i, pid, again);
    LeftOfArchive(g, b, run, i);
    if !g.atomic {
      assert TreeBoots(Complete(b));
      AlwaysSolo(g, {b}, run);
      SoloReturnsHit(g, {b}, b, run, i, pid, again);
      if !g.flaky {
        SequentialAgreement(g, run, i, b);
      } else if !g.faults {
        MisreadsAloneHarmless(g, b, run, i, pid, again);
      } else {
        SturdyAgrees(g, b, run, i);
      }
    }
  }

  // ---- runs that break it ------------------------------------------------

  // A process started over a marked directory gets past its first look.
  lemma StartsLooking(w: Setting, a: Actor, root: Root)
    requires MayStart(w, a) && a.b.archive.Embedded? && MarkerSeen(root, a.b)
    requires Reaches(w, State(root, a.others))
    ensures Reaches(w, At(a, root, LookHelper(false)))
  {
    Starts(w, a, root);
    Go(w, a, root, Begin, root, LookMarker(false));
    Go(w, a, root, LookMarker(false), root, LookHelper(false));
  }

  // At its second look it returns whatever tree has a helper by then.
  lemma ReturnsWhatBoots(w: Setting, a: Actor, root: Root) returns (run: seq<State>, i: nat)
    requires forall c | c in w.world :: ValidVersion(c.version)
    requires Reaches(w, At(a, root, LookHelper(false))) && RootfsPasses(root, a.b.version)
    ensures IsRun(w.g, w.world, run) && run[0] == State(w.first, map[])
    ensures ReturnsOnHit(w.g, w.world, a.b, run, i, a.pid, false) && run[i + 1].root == root
  {
    var from, to := At(a, root, LookHelper(false)), At(a, root, Done(Installed(a.b.version)));
    var way :| Way(w, way, from);
    i := |way| - 1;
    run := way + [to];
    assert to.procs == from.procs[a.pid := to.procs[a.pid]];
    assert MoveStep(w.g, w.world, from, Act(a.pid), to);
    forall j | 0 <= j < |run| - 1 ensures Step(w.g, w.world, run[j], run[j + 1]) {
      assert j < i ==> run[j] == way[j] && run[j + 1] == way[j + 1];
    }
  }

  // Two overlapping installs and a third process: it sees the marker, then the
  // first install's removal takes the marker, then it sees the helper.
  lemma OverlapReturnsStale(g: Mode, b: Binary)
    requires !g.atomic && g.overlap && ValidVersion(b.version) && Installable(b) && TreeBoots(Complete(b))
    ensures !ReturnsFresh(g, b)
  {
    var w, first := FromEmpty(g, b), Actor(b, 1, map[2 := Returned(b)]);
    OneStagedOneInstalled(w, b);
    StagingNamesDistinct(b.version, 1, b.version, 1);
    CompleteHits(b);
    var root, looking := Staged(first, Cached(b)), Proc(b, LookHelper(false));
    var third := Actor(b, 3, first.others[1 := Proc(b, ProbeDir)]);
    StartsLooking(w, third, root);
    var clearing := Actor(b, 1, first.others[3 := looking]);
    assert third.others[3 := looking] == clearing.others[1 := Proc(b, ProbeDir)];
    ClearsUnderLook(w, clearing, root);
    var last := Actor(b, 3, first.others[1 := Proc(b, ClearDir)]);
    assert clearing.others[1 := Proc(b, ClearDir)] == last.others[3 := looking];
    StaleReturned(g, b, last, root[b.version := Dir(Complete(b) - {MARKER})]);
  }

  lemma ClearsUnderLook(w: Setting, a: Actor, root: Root)
    requires !w.g.atomic && Installable(a.b) && a.b.version in root && root[a.b.version] == Dir(Complete(a.b))
    requires Reaches(w, At(a, root, ProbeDir))
    ensures Reaches(w, At(a, root[a.b.version := Dir(Complete(a.b) - {MARKER})], ClearDir))
  {
    LosesOneEntry(w, a, root, MARKER);
  }

  lemma StaleReturned(g: Mode, b: Binary, a: Actor, left: Root)
    requires ValidVersion(b.version) && a.b == b && RootfsPasses(left, b.version) && !Fresh(left, b)
    requires Reaches(FromEmpty(g, b), At(a, left, LookHelper(false)))
    ensures !ReturnsFresh(g, b)
  {
    var run, i := ReturnsWhatBoots(FromEmpty(g, b), a, left);
    assert RunOfOne(g, b, run) && !Fresh(run[i + 1].root, b);
  }

  // One install after another: the second misreads at both its looks and fails
  // in the middle of its removal, and the third process returns what is left.
  lemma FlakyReturnsStale(g: Mode, b: Binary)
    requires !g.atomic && g.flaky && g.faults && Fragile(b) && ValidVersion(b.version)
    ensures !ReturnsFresh(g, b)
  {
    var w, second := FromEmpty(g, b), Actor(b, 1, map[2 := Returned(b)]);
    OneStagedOneInstalled(w, b);
    StagingNamesDistinct(b.version, 1, b.version, 1);
    var root := Staged(second, Cached(b));
    var p :| p in Complete(b) && p != MARKER && p != HELPER;
    FailsClearing(w, second, root, p);
    PartialTreeHits(b, p);
    var left := root[b.version := Dir(Complete(b) - {p})];
    var third := Actor(b, 3, second.others[1 := Proc(b, Done(Failed(StaleKept)))]);
    StartsLooking(w, third, left);
    StaleReturned(g, b, third, left);
  }

  lemma FailsClearing(w: Setting, a: Actor, root: Root, p: string)
    requires !w.g.atomic && w.g.faults && IsDir(root, a.b.version) && p in root[a.b.version].tree
    requires Reaches(w, At(a, root, ProbeDir))
    ensures Reaches(w, At(a, root[a.b.version := Dir(root[a.b.version].tree - {p})], Done(Failed(StaleKept))))
  {
    LosesOneEntry(w, a, root, p);
    var left := root[a.b.version := Dir(root[a.b.version].tree - {p})];
    Go(w, a, left, ClearDir, left, Discard(Failed(StaleKept)));
    Go(w, a, left, Discard(Failed(StaleKept)), left, Done(Failed(StaleKept)));
  }

  // Main result, exact in both directions: under that condition every process
  // that returns on a hit returns a fresh extraction, and in every other case
  // some run returns something else.
  lemma ReturnsFreshExactly(g: Mode, b: Binary)
    requires ValidVersion(b.version)
    ensures ReturnsFresh(g, b) <==> ReturnsAreSafe(g, b)
  {
    if ReturnsAreSafe(g, b) {
      forall run: seq<State>, i, pid, again | RunOfOne(g, b, run) && ReturnsOnHit(g, {b}, b, run, i, pid, again)
        ensures Fresh(run[i + 1].root, b)
      {
        ReturnIsFresh(g, b, run, i, pid, again);
      }
    } else if g.overlap {
      OverlapReturnsStale(g, b);
    } else {
      FlakyReturnsStale(g, b);
    }
  }

  // ---- many archives, atomic removal -------------------------------------

  // Nobody else can install a bootable tree where `b` looks.
  ghost predicate NoLookalike(world: set<Binary>, b: Binary) {
    forall c | c in world && c.version == b.version && c != b :: !(Installable(c) && TreeBoots(Complete(c)))
  }

  // A process of `b` that has seen its marker cannot mistake what it sees next.
  predicate Unmistakable(root: Root, b: Binary) {
    MarkerSeen(root, b) || !RootfsPasses(root, b.version)
  }

  ghost predicate LooksSafely(s: State, b: Binary) {
    forall pid | pid in s.procs && s.procs[pid].bin == b && s.procs[pid].pc.LookHelper? :: Unmistakable(s.root, b)
  }

  lemma UnmistakableKept(g: Mode, world: set<Binary>, b: Binary, pid: nat, c: Binary, pc: Pc, root: Root, pc': Pc,
                         root': Root)
    requires g.atomic && b in world && c in world && NoLookalike(world, b)
    requires ValidVersion(b.version) && ValidVersion(c.version)
    requires ProcStep(g, pid, c, pc, root, pc', root') && StagingHolds(pid, c, pc, root)
    requires Unmistakable(root, b)
    ensures Unmistakable(root', b)
  {
    StagingNamesDistinct(b.version, pid, b.version, pid);
    StepInstallsWhole(g, pid, c, pc, root, pc', root', b.version);
    if c == b {
      KeyIsTrimmed(b.version, HexOf(b.digest));
    }
  }

  lemma LooksSafelyKept(g: Mode, world: set<Binary>, b: Binary, s: State, s': State)
    requires g.atomic && b in world && NoLookalike(world, b) && forall c | c in world :: ValidVersion(c.version)
    requires AllStaged(world, s) && Step(g, world, s, s') && LooksSafely(s, b)
    ensures LooksSafely(s', b)
  {
    var m :| MoveStep(g, world, s, m, s');
    if m.Act? {
      var me := s.procs[m.pid];
      forall pid | pid in s'.procs && s'.procs[pid].bin == b && s'.procs[pid].pc.LookHelper?
        ensures Unmistakable(s'.root, b)
      {
        if pid == m.pid {
          OnlyMarkerLeadsToHelper(g, pid, me.bin, me.pc, s.root, s'.procs[pid].pc, s'.root);
        } else {
          assert s.procs[pid] == s'.procs[pid];
          UnmistakableKept(g, world, b, m.pid, me.bin, me.pc, s.root, s'.procs[m.pid].pc, s'.root);
        }
      }
    }
  }

  lemma {:induction false} LooksSafelyInRun(g: Mode, world: set<Binary>, b: Binary, run: seq<State>, i: nat)
    requires IsRun(g, world, run) && i < |run| && g.atomic && b in world && NoLookalike(world, b)
    ensures LooksSafely(run[i], b)
  {
    if i > 0 {
      LooksSafelyInRun(g, world, b, run, i - 1);
      AllStagedInRun(g, world, run, i - 1);
      assert run[i] == run[i - 1 + 1];
      LooksSafelyKept(g, world, b, run[i - 1], run[i]);
    }
  }

  // Every process of `b` that returns on a hit returns `b`'s own fresh tree:
  // in every run of `world` from a root that agrees, or from an empty cache.
  ghost predicate ReturnsOwn(g: Mode, world: set<Binary>, b: Binary) {
    forall run: seq<State>, i, pid, again |
      IsRun(g, world, run) && Agrees(run[0].root, b) && ReturnsOnHit(g, world, b, run, i, pid, again) ::
      Fresh(run[i + 1].root, b)
  }

  ghost predicate ReturnsOwnFromEmpty(g: Mode, world: set<Binary>, b: Binary) {
    forall run: seq<State>, i, pid, again |
      IsRun(g, world, run) && run[0].root == map[] && ReturnsOnHit(g, world, b, run, i, pid, again) ::
      Fresh(run[i + 1].root, b)
  }

  lemma AtomicReturnsFresh(g: Mode, world: set<Binary>, b: Binary, run: seq<State>, i: nat, pid: nat, again: bool)
    requires IsRun(g, world, run) && g.atomic && KeysIdentify(world) && b in world
    requires !g.overlap || NoLookalike(world, b)
    requires Agrees(run[0].root, b) && ReturnsOnHit(g, world, b, run, i, pid, again)
    ensures Fresh(run[i + 1].root, b)
  {
    LookSees(g, world, b, run, i, pid, again);
    AtomicAgreement(g, world, run, i, b);
    if g.overlap {
      LooksSafelyInRun(g, world, b, run, i);
    } else {
      AlwaysSolo(g, world, run);
      SoloReturnsHit(g, world, b, run, i, pid, again);
    }
  }

  // From an empty cache the marker of an archive that cannot be installed is
  // never seen.
  lemma {:induction false} NeverMarked(g: Mode, world: set<Binary>, b: Binary, run: seq<State>, i: nat, pid: nat)
    requires IsRun(g, world, run) && i < |run| && run[0].root == map[]
    requires g.atomic && KeysIdentify(world) && b in world && !Installable(b)
    ensures pid in run[i].procs && run[i].procs[pid].bin == b ==> !run[i].procs[pid].pc.LookHelper?
  {
    if i > 0 {
      NeverMarked(g, world, b, run, i - 1, pid);
      assert run[i] == run[i - 1 + 1];
      UnmarkedSoFar(g, world, b, run, i - 1);
      StaysUnmarked(g, world, b, run[i - 1], run[i], pid);
    }
  }

  lemma UnmarkedSoFar(g: Mode, world: set<Binary>, b: Binary, run: seq<State>, i: nat)
    requires IsRun(g, world, run) && i < |run| && run[0].root == map[]
    requires g.atomic && KeysIdentify(world) && b in world && !Installable(b)
    ensures !MarkerSeen(run[i].root, b)
  {
    if MarkerSeen(run[i].root, b) {
      StagingNamesDistinct(b.version, 0, b.version, 0);
      ReplacedNeverMerged(g, world, run, i, b.version);
      var t := run[i].root[b.version].tree;
      var c :| c in world && c.version == b.version && Installable(c) && RestOf(g, t, Complete(c));
      CompleteHitsItselfOnly(b, c, world);
    }
  }

  lemma StaysUnmarked(g: Mode, world: set<Binary>, b: Binary, s: State, s': State, pid: nat)
    requires Step(g, world, s, s') && !MarkerSeen(s.root, b)
    requires pid in s.procs && s.procs[pid].bin == b ==> !s.procs[pid].pc.LookHelper?
    ensures pid in s'.procs && s'.procs[pid].bin == b ==> !s'.procs[pid].pc.LookHelper?
  {
    var m :| MoveStep(g, world, s, m, s');
    if m.Act? && m.pid == pid && s'.procs[pid].bin == b && s'.procs[pid].pc.LookHelper? {
      OnlyMarkerLeadsToHelper(g, pid, b, s.procs[pid].pc, s.root, s'.procs[pid].pc, s'.root);
    }
  }

  // Over a directory with `b`'s marker: between the looks of one process,
  // another installs its own archive `c`, and the first returns that.
  lemma InstallsBetweenLooks(w: Setting, b: Binary, c: Binary, root: Root, procs: map<nat, Proc>)
    returns (run: seq<State>, i: nat)
    requires w.g.atomic && w.g.overlap && b in w.world && c in w.world
    requires forall d | d in w.world :: ValidVersion(d.version)
    requires b.archive.Embedded? && c.version == b.version && Installable(c) && TreeBoots(Complete(c))
    requires MarkerSeen(root, b) && !MarkerSeen(root, c) && Staging(4, c) !in root
    requires 3 !in procs && 4 !in procs && Reaches(w, State(root, procs))
    ensures IsRun(w.g, w.world, run) && run[0] == State(w.first, map[])
    ensures ReturnsOnHit(w.g, w.world, b, run, i, 3, false) && run[i + 1].root == root[b.version := Dir(Complete(c))]
  {
    var looker, after := Actor(b, 3, procs), root[b.version := Dir(Complete(c))];
    StartsLooking(w, looker, root);
    var other := Actor(c, 4, procs[3 := Proc(b, LookHelper(false))]);
    StagesAll(w, other, root);
    ClearsForRename(w, other, root);
    RenamesStaged(w, other, root - {c.version});
    assert (root - {c.version})[c.version := Dir(Complete(c))] == after;
    var last := Actor(b, 3, procs[4 := Proc(c, Sweep)]);
    assert other.others[4 := Proc(c, Sweep)] == last.others[3 := Proc(b, LookHelper(false))];
    run, i := ReturnsWhatBoots(w, last, after);
  }

  // What is installed for another archive is no fresh tree of one's own.
  lemma OthersTreeIsNotFresh(b: Binary, c: Binary, root: Root)
    requires c.version == b.version && c.digest != b.digest && Installable(c)
    requires b.version in root && root[b.version] == Dir(Complete(c))
    ensures !Fresh(root, b)
  {
    KeysSeparateArchives(b.version, b.digest, c.version, c.digest);
    assert Complete(c)[MARKER].text == KeyOf(c);
  }

  // A directory with `b`'s marker and nothing else.
  function MarkerOnly(b: Binary): Root {
    map[b.version := Dir(map[MARKER := File(KeyOf(b), DEFAULT_MODE)])]
  }

  // Another archive of the same version that can install a bootable tree.
  ghost predicate Lookalike(g: Mode, world: set<Binary>, b: Binary, c: Binary) {
    && g.atomic && g.overlap && b in world && c in world && (forall d | d in world :: ValidVersion(d.version))
    && c.version == b.version && c.digest != b.digest && Installable(c) && TreeBoots(Complete(c))
  }

  lemma LookalikeReturned(g: Mode, world: set<Binary>, b: Binary, c: Binary)
    requires Lookalike(g, world, b, c) && b.archive.Embedded?
    ensures !ReturnsOwn(g, world, b)
  {
    var root := MarkerOnly(b);
    MarkerNamesOneArchive(b.version, b.digest, b.version, b.digest);
    MarkerNamesOneArchive(b.version, b.digest, c.version, c.digest);
    StagingNamesDistinct(c.version, 4, c.version, 4);
    var w := Setting(g, world, root);
    ReachesFirst(w);
    var run, i := InstallsBetweenLooks(w, b, c, root, map[]);
    OthersTreeIsNotFresh(b, c, run[i + 1].root);
  }

  // From an empty cache `b` has to be installed first.
  lemma LookalikeReturnedFromEmpty(g: Mode, world: set<Binary>, b: Binary, c: Binary)
    requires Lookalike(g, world, b, c) && Installable(b)
    ensures !ReturnsOwnFromEmpty(g, world, b)
  {
    var w := Setting(g, world, map[]);
    OneInstalled(w, b);
    MarkerNamesOneArchive(b.version, b.digest, b.version, b.digest);
    MarkerNamesOneArchive(b.version, b.digest, c.version, c.digest);
    StagingNamesDistinct(c.version, 4, c.version, 4);
    var run, i := InstallsBetweenLooks(w, b, c, Cached(b), map[2 := Returned(b)]);
    OthersTreeIsNotFresh(b, c, run[i + 1].root);
  }

  // Main result, exact in both directions. With atomic removal, and any faults
  // and any other versions, what a process returns on a hit is its own
  // archive's fresh tree if and only if processes do not overlap or no other
  // archive of the same version can put a bootable tree where it looks.
  // Otherwise it can see its own marker and then the other's helper.
  lemma AtomicReturnsExactly(g: Mode, world: set<Binary>, b: Binary)
    requires g.atomic && KeysIdentify(world) && b in world && forall c | c in world :: ValidVersion(c.version)
    ensures ReturnsOwn(g, world, b) <==> !g.overlap || b.archive.NotEmbedded? || NoLookalike(world, b)
  {
    if !g.overlap || b.archive.NotEmbedded? || NoLookalike(world, b) {
      forall run: seq<State>, i, pid, again |
        IsRun(g, world, run) && Agrees(run[0].root, b) && ReturnsOnHit(g, world, b, run, i, pid, again)
        ensures Fresh(run[i + 1].root, b)
      {
        AllStagedInRun(g, world, run, i);
        AtomicReturnsFresh(g, world, b, run, i, pid, again);
      }
    } else {
      var c :| c in world && c.version == b.version && c != b && Installable(c) && TreeBoots(Complete(c));
      LookalikeReturned(g, world, b, c);
    }
  }

  // From an empty cache an archive that cannot be installed is never hit.
  lemma AtomicReturnsExactlyFromEmpty(g: Mode, world: set<Binary>, b: Binary)
    requires g.atomic && KeysIdentify(world) && b in world && forall c | c in world :: ValidVersion(c.version)
    ensures ReturnsOwnFromEmpty(g, world, b) <==> !g.overlap || !Installable(b) || NoLookalike(world, b)
  {
    if !g.overlap || !Installable(b) || NoLookalike(world, b) {
      forall run: seq<State>, i, pid, again |
        IsRun(g, world, run) && run[0].root == map[] && ReturnsOnHit(g, world, b, run, i, pid, again)
        ensures Fresh(run[i + 1].root, b)
      {
        if !Installable(b) {
          NeverMarked(g, world, b, run, i, pid);
        } else {
          AtomicReturnsFresh(g, world, b, run, i, pid, again);
        }
      }
    } else {
      var c :| c in world && c.version == b.version && c != b && Installable(c) && TreeBoots(Complete(c));
      LookalikeReturnedFromEmpty(g, world, b, c);
    }
  }
}
