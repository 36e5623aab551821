// Building runs of the cache: what it takes to lead a state to another by
// steps of the state machine.
module CacheRuns {
  import opened CacheKey
  import opened RootfsCache
  import opened CacheSafety

  // What stays fixed while a run is built: how the world behaves, who takes
  // part, and the root found at first.
  datatype Setting = Setting(g: Mode, world: set<Binary>, first: Root)

  // Who acts, among whom.
  datatype Actor = Actor(b: Binary, pid: nat, others: map<nat, Proc>)

  function At(a: Actor, root: Root, pc: Pc): State {
    State(root, a.others[a.pid := Proc(a.b, pc)])
  }

  function Own(a: Actor): string {
    Staging(a.pid, a.b)
  }

  ghost predicate Way(w: Setting, run: seq<State>, t: State) {
    Steps(w.g, w.world, run) && run[0] == State(w.first, map[]) && run[|run| - 1] == t
  }

  ghost predicate Reaches(w: Setting, t: State) {
    exists run: seq<State> :: Way(w, run, t)
  }

  lemma ReachesFirst(w: Setting)
    ensures Reaches(w, State(w.first, map[]))
  {
    assert Way(w, [State(w.first, map[])], State(w.first, map[]));
  }

  lemma ReachesOn(w: Setting, s: State, m: Move, t: State)
    requires Reaches(w, s) && MoveStep(w.g, w.world, s, m, t)
    ensures Reaches(w, t)
  {
    var way :| Way(w, way, s);
    var run := way + [t];
    forall i | 0 <= i < |run| - 1 ensures Step(w.g, w.world, run[i], run[i + 1]) {
      assert i < |way| - 1 ==> run[i] == way[i] && run[i + 1] == way[i + 1];
    }
    assert Way(w, run, t);
  }

  lemma Go(w: Setting, a: Actor, root: Root, pc: Pc, root': Root, pc': Pc)
    requires Reaches(w, At(a, root, pc)) && ProcStep(w.g, a.pid, a.b, pc, root, pc', root')
    ensures Reaches(w, At(a, root', pc'))
  {
    var from, to := At(a, root, pc), At(a, root', pc');
    assert to.procs == from.procs[a.pid := to.procs[a.pid]];
    ReachesOn(w, from, Act(a.pid), to);
  }

  // The actor may start: it is new, and alone unless processes may overlap.
  predicate MayStart(w: Setting, a: Actor) {
    a.b in w.world && a.pid !in a.others && (w.g.overlap || AllReturned(a.others))
  }

  lemma Starts(w: Setting, a: Actor, root: Root)
    requires MayStart(w, a) && Reaches(w, State(root, a.others))
    ensures Reaches(w, At(a, root, Begin))
  {
    ReachesOn(w, State(root, a.others), Start(a.pid, a.b), At(a, root, Begin));
  }

  lemma {:induction false} UnpacksAll(w: Setting, a: Actor, root: Root, n: nat)
    requires Installable(a.b) && n <= |a.b.archive.items|
    requires Reaches(w, At(a, root[Own(a) := Dir(map[])], Unpack(0)))
    ensures Reaches(w, At(a, root[Own(a) := Dir(Unpacked(a.b.archive.items[..n]))], Unpack(n)))
  {
    var items := a.b.archive.items;
    if n > 0 {
      UnpacksAll(w, a, root, n - 1);
      UnpackedExtends(items, n - 1);
      var r := root[Own(a) := Dir(Unpacked(items[..n - 1]))];
      var r' := root[Own(a) := Dir(Unpacked(items[..n]))];
      assert r' == r[Own(a) := Dir(Unpacked(items[..n]))];
      Go(w, a, r, Unpack(n - 1), r', Unpack(n));
    } else {
      assert items[..0] == [];
    }
  }

  function Staged(a: Actor, root: Root): Root
    requires Installable(a.b)
  {
    root[Own(a) := Dir(Complete(a.b))]
  }

  // A process whose looks at the cached directory miss can stage its whole
  // tree and reach the point of deciding whether to clear the directory.
  lemma StagesAll(w: Setting, a: Actor, root: Root)
    requires MayStart(w, a) && Installable(a.b) && ValidVersion(a.b.version)
    requires (w.g.flaky || !Hit(root, a.b)) && Own(a) !in root
    requires Reaches(w, State(root, a.others))
    ensures Reaches(w, At(a, Staged(a, root), ProbeDir))
  {
    StagingNamesDistinct(a.b.version, a.pid, a.b.version, a.pid);
    var items := a.b.archive.items;
    Starts(w, a, root);
    Go(w, a, root, Begin, root, LookMarker(false));
    LooksMiss(w, a, root, false);
    Go(w, a, root, StageProbe, root, StageCreate);
    Go(w, a, root, StageCreate, root[Own(a) := Dir(map[])], Unpack(0));
    UnpacksAll(w, a, root, |items|);
    assert items[..|items|] == items;
    MarksStaged(w, a, root);
    LooksMiss(w, a, Staged(a, root), true);
  }

  // A directory that fails the test, or whose reads fail, is taken for a miss.
  lemma LooksMiss(w: Setting, a: Actor, root: Root, again: bool)
    requires w.g.flaky || !Hit(root, a.b)
    requires Reaches(w, At(a, root, LookMarker(again)))
    ensures Reaches(w, At(a, root, AfterMiss(again)))
  {
    if w.g.flaky || !MarkerSeen(root, a.b) {
      Go(w, a, root, LookMarker(again), root, AfterMiss(again));
    } else {
      Go(w, a, root, LookMarker(again), root, LookHelper(again));
      Go(w, a, root, LookHelper(again), root, AfterMiss(again));
    }
  }

  lemma MarksStaged(w: Setting, a: Actor, root: Root)
    requires Installable(a.b)
    requires Reaches(w, At(a, root[Own(a) := Dir(Unpacked(a.b.archive.items))], Unpack(|a.b.archive.items|)))
    ensures Reaches(w, At(a, Staged(a, root), LookMarker(true)))
  {
    var tree := Unpacked(a.b.archive.items);
    var r0, r1, r2 := root[Own(a) := Dir(tree)], root[Own(a) := Dir(Marked(tree, ""))], Staged(a, root);
    RemarkedOnce(tree, "", KeyOf(a.b));
    assert r1 == r0[Own(a) := Dir(Marked(tree, ""))] && r2 == r1[Own(a) := Dir(Complete(a.b))];
    Go(w, a, r0, Unpack(|a.b.archive.items|), r0, MarkerOpen);
    Go(w, a, r0, MarkerOpen, r1, MarkerText);
    Go(w, a, r1, MarkerText, r2, LookMarker(true));
  }

  // From there a process finding no directory installs its tree.
  lemma InstallsStaged(w: Setting, a: Actor, root: Root)
    requires Installable(a.b) && ValidVersion(a.b.version)
    requires a.b.version !in root && Own(a) !in root
    requires Reaches(w, At(a, Staged(a, root), ProbeDir))
    ensures Reaches(w, At(a, root[a.b.version := Dir(Complete(a.b))], Done(Installed(a.b.version))))
  {
    var after := root[a.b.version := Dir(Complete(a.b))];
    Go(w, a, Staged(a, root), ProbeDir, Staged(a, root), Rename);
    RenamesStaged(w, a, root);
    Go(w, a, after, Sweep, after, Done(Installed(a.b.version)));
  }

  lemma RenamesStaged(w: Setting, a: Actor, root: Root)
    requires Installable(a.b) && ValidVersion(a.b.version)
    requires a.b.version !in root && Own(a) !in root
    requires Reaches(w, At(a, Staged(a, root), Rename))
    ensures Reaches(w, At(a, root[a.b.version := Dir(Complete(a.b))], Sweep))
  {
    StagingNamesDistinct(a.b.version, a.pid, a.b.version, a.pid);
    var staged, after := Staged(a, root), root[a.b.version := Dir(Complete(a.b))];
    assert after == (staged - {Own(a)})[a.b.version := staged[Own(a)]];
    Go(w, a, staged, Rename, after, Sweep);
  }

  // One finding a directory clears it and stands before its rename.
  lemma ClearsForRename(w: Setting, a: Actor, root: Root)
    requires w.g.atomic && Installable(a.b) && ValidVersion(a.b.version) && IsDir(root, a.b.version)
    requires Reaches(w, At(a, Staged(a, root), ProbeDir))
    ensures Reaches(w, At(a, Staged(a, root - {a.b.version}), Rename))
  {
    StagingNamesDistinct(a.b.version, a.pid, a.b.version, a.pid);
    var staged := Staged(a, root);
    assert Staged(a, root - {a.b.version}) == staged - {a.b.version};
    Go(w, a, staged, ProbeDir, staged, ClearDir);
    Go(w, a, staged, ClearDir, staged - {a.b.version}, Rename);
  }

  // Entry by entry, it starts removing the directory whatever it now holds.
  lemma LosesOneEntry(w: Setting, a: Actor, root: Root, p: string)
    requires !w.g.atomic && IsDir(root, a.b.version) && p in root[a.b.version].tree
    requires Reaches(w, At(a, root, ProbeDir))
    ensures Reaches(w, At(a, root[a.b.version := Dir(root[a.b.version].tree - {p})], ClearDir))
  {
    Go(w, a, root, ProbeDir, root, ClearDir);
    Go(w, a, root, ClearDir, root[a.b.version := Dir(root[a.b.version].tree - {p})], ClearDir);
  }

  // ---- two processes of one binary, from an empty cache ------------------

  function Returned(b: Binary): Proc {
    Proc(b, Done(Installed(b.version)))
  }

  function Cached(b: Binary): Root
    requires Installable(b)
  {
    map[b.version := Dir(Complete(b))]
  }

  lemma OneInstalled(w: Setting, b: Binary)
    requires w.first == map[] && b in w.world && Installable(b) && ValidVersion(b.version)
    ensures Reaches(w, State(Cached(b), map[2 := Returned(b)]))
  {
    var a := Actor(b, 2, map[]);
    ReachesFirst(w);
    StagesAll(w, a, map[]);
    InstallsStaged(w, a, map[]);
    assert map[][b.version := Dir(Complete(b))] == Cached(b) && map[][2 := Returned(b)] == map[2 := Returned(b)];
  }

  // One process stands before clearing what the other has installed: because
  // it looked before, or its reads failed, or the tree does not boot.
  lemma OneStagedOneInstalled(w: Setting, b: Binary)
    requires w.first == map[] && b in w.world && Installable(b) && ValidVersion(b.version)
    requires w.g.overlap || w.g.flaky || !TreeBoots(Complete(b))
    ensures var a := Actor(b, 1, map[2 := Returned(b)]); Reaches(w, At(a, Staged(a, Cached(b)), ProbeDir))
  {
    StagingNamesDistinct(b.version, 1, b.version, 2);
    StagingNamesDistinct(b.version, 1, b.version, 1);
    var last := Actor(b, 1, map[2 := Returned(b)]);
    if !w.g.overlap {
      OneInstalled(w, b);
      StagesAll(w, last, Cached(b));
    } else {
      var early := Actor(b, 1, map[]);
      var other := Actor(b, 2, map[][1 := Proc(b, ProbeDir)]);
      ReachesFirst(w);
      StagesAll(w, early, map[]);
      StagesAll(w, other, Staged(early, map[]));
      InstallsStaged(w, other, Staged(early, map[]));
      assert Staged(early, map[])[b.version := Dir(Complete(b))] == Staged(last, Cached(b));
      assert other.others[2 := Returned(b)] == last.others[1 := Proc(b, ProbeDir)];
    }
  }
}
