// What every run of the cache keeps, in every interleaving.
module CacheSafety {
  import opened CacheKey
  import opened RootfsCache

  // ---- staging directories -----------------------------------------------

  // What a process may rely on finding in its own staging directory.
  ghost predicate StagingHolds(pid: nat, b: Binary, pc: Pc, root: Root) {
    var staging := Staging(pid, b);
    match pc
    case StageCreate => b.archive.Embedded? && staging !in root
    case Unpack(count) =>
      b.archive.Embedded? && count <= |b.archive.items|
      && staging in root && root[staging] == Dir(Unpacked(b.archive.items[..count]))
    case MarkerOpen =>
      b.archive.Embedded? && b.archive.intact
      && staging in root && root[staging] == Dir(Unpacked(b.archive.items))
    case MarkerText =>
      Installable(b) && staging in root
      && exists text :: root[staging] == Dir(Marked(Unpacked(b.archive.items), text))
    case LookMarker(again) => b.archive.Embedded? && (again ==> StagedWhole(pid, b, root))
    case LookHelper(again) => b.archive.Embedded? && (again ==> StagedWhole(pid, b, root))
    case ProbeDir => StagedWhole(pid, b, root)
    case ClearDir => StagedWhole(pid, b, root)
    case Rename => StagedWhole(pid, b, root)
    case StageProbe => b.archive.Embedded?
    case StageClear => b.archive.Embedded?
    case SweepClear(name) => name != b.version && !IsStagingName(name)
    case _ => true
  }

  predicate StagedWhole(pid: nat, b: Binary, root: Root) {
    Installable(b) && Staging(pid, b) in root && root[Staging(pid, b)] == Dir(Complete(b))
  }

  lemma UnpackedExtends(items: seq<Item>, k: nat)
    requires k < |items|
    ensures Unpacked(items[..k + 1]) == With(Unpacked(items[..k]), items[k])
  {
    assert items[..k + 1][..k] == items[..k];
  }

  // What is unpacked, path by path: the last entry of that path.
  predicate LastOfPath(items: seq<Item>, k: nat, path: string) {
    k < |items| && items[k].path == path && forall j | k < j < |items| :: items[j].path != path
  }

  lemma {:induction false} UnpackedExactly(items: seq<Item>, k: nat, path: string)
    requires LastOfPath(items, k, path)
    ensures path in Unpacked(items) && Unpacked(items)[path] == items[k].node
  {
    var n := |items| - 1;
    if k < n {
      assert LastOfPath(items[..n], k, path);
      UnpackedExactly(items[..n], k, path);
    }
  }

  lemma {:induction false} UnpackedFrom(items: seq<Item>, path: string) returns (k: nat)
    requires path in Unpacked(items)
    ensures LastOfPath(items, k, path)
  {
    var n := |items| - 1;
    if items[n].path == path {
      k := n;
    } else {
      k := UnpackedFrom(items[..n], path);
    }
  }

  // A complete tree is the unpacked archive, except that its marker is a file
  // that holds the version, a dash and the digest in hex.
  lemma CompleteExactly(b: Binary, path: string)
    requires Installable(b)
    ensures var t := Complete(b);
            if path == ".rootfs-archive" then
              path in t && t[path].File? && t[path].text == b.version + "-" + HexOf(b.digest)
            else
              var u := Unpacked(b.archive.items);
              (path in t <==> path in u) && (path in t ==> t[path] == u[path])
  {
    DigestTextIsDashFree(b.digest);
  }

  lemma RemarkedOnce(t: Tree, x: string, y: string)
    requires MarkerWritable(t)
    ensures MarkerWritable(Marked(t, x)) && Marked(Marked(t, x), y) == Marked(t, y)
  {
  }

  lemma UnpackStaging(g: Mode, pid: nat, b: Binary, pc: Pc, root: Root, pc': Pc, root': Root)
    requires pc.StageCreate? || pc.Unpack?
    requires ProcStep(g, pid, b, pc, root, pc', root') && StagingHolds(pid, b, pc, root)
    ensures StagingHolds(pid, b, pc', root')
  {
    var items := b.archive.items;
    assert Unpacked(items[..0]) == map[] && items[..|items|] == items;
    if pc.Unpack? && pc.count < |items| {
      UnpackedExtends(items, pc.count);
    }
  }

  lemma MarkerStaging(g: Mode, pid: nat, b: Binary, pc: Pc, root: Root, pc': Pc, root': Root)
    requires pc.MarkerOpen? || pc.MarkerText?
    requires ProcStep(g, pid, b, pc, root, pc', root') && StagingHolds(pid, b, pc, root)
    ensures StagingHolds(pid, b, pc', root')
  {
    var staging, tree := Staging(pid, b), Unpacked(b.archive.items);
    if pc.MarkerOpen? {
      assert pc' == MarkerText ==> root'[staging] == Dir(Marked(tree, ""));
    } else {
      var text :| root[staging] == Dir(Marked(tree, text));
      RemarkedOnce(tree, text, KeyOf(b));
      if pc' == MarkerText {
        var n :| 0 <= n <= |KeyOf(b)| && root' == root[staging := Dir(Marked(root[staging].tree, KeyOf(b)[..n]))];
        RemarkedOnce(tree, text, KeyOf(b)[..n]);
        assert root'[staging] == Dir(Marked(tree, KeyOf(b)[..n]));
      }
    }
  }

  // A process's own step moves its staging directory from one stage to the
  // next.
  lemma OwnStaging(g: Mode, pid: nat, b: Binary, pc: Pc, root: Root, pc': Pc, root': Root)
    requires ValidVersion(b.version)
    requires ProcStep(g, pid, b, pc, root, pc', root')
    requires StagingHolds(pid, b, pc, root)
    ensures StagingHolds(pid, b, pc', root')
  {
    if pc.StageCreate? || pc.Unpack? {
      UnpackStaging(g, pid, b, pc, root, pc', root');
    } else if pc.MarkerOpen? || pc.MarkerText? {
      MarkerStaging(g, pid, b, pc, root, pc', root');
    } else {
      StagingNamesDistinct(b.version, pid, b.version, pid);
    }
  }

  // Names under the root whose contents a step at `pc` may change.
  predicate Touches(pid: nat, b: Binary, pc: Pc, name: string) {
    || name == Staging(pid, b)
    || ((pc.ClearDir? || pc.Rename?) && name == b.version)
    || (pc.SweepClear? && name == pc.name)
  }

  predicate Untouched(root: Root, root': Root, name: string) {
    (name in root <==> name in root') && (name in root ==> root'[name] == root[name])
  }

  lemma StepTouches(g: Mode, pid: nat, b: Binary, pc: Pc, root: Root, pc': Pc, root': Root, name: string)
    requires ProcStep(g, pid, b, pc, root, pc', root')
    requires !Touches(pid, b, pc, name)
    ensures Untouched(root, root', name)
  {
  }

  lemma ForeignStagingUntouched(g: Mode, pid: nat, b: Binary, pc: Pc, root: Root, pc': Pc, root': Root,
                               other: nat, c: Binary)
    requires ProcStep(g, pid, b, pc, root, pc', root')
    requires StagingHolds(pid, b, pc, root)
    requires ValidVersion(b.version) && other != pid
    ensures Untouched(root, root', Staging(other, c))
  {
    StagingNamesDistinct(b.version, pid, c.version, other);
    StagingNamesDistinct(c.version, other, b.version, pid);
    StepTouches(g, pid, b, pc, root, pc', root', Staging(other, c));
  }

  ghost predicate AllStaged(world: set<Binary>, s: State) {
    forall pid | pid in s.procs ::
      s.procs[pid].bin in world && StagingHolds(pid, s.procs[pid].bin, s.procs[pid].pc, s.root)
  }

  lemma AllStagedKept(g: Mode, world: set<Binary>, s: State, s': State)
    requires forall b | b in world :: ValidVersion(b.version)
    requires AllStaged(world, s) && Step(g, world, s, s')
    ensures AllStaged(world, s')
  {
    var m :| MoveStep(g, world, s, m, s');
    if m.Act? {
      var me := s.procs[m.pid];
      OwnStaging(g, m.pid, me.bin, me.pc, s.root, s'.procs[m.pid].pc, s'.root);
      forall pid | pid in s'.procs && pid != m.pid
        ensures StagingHolds(pid, s'.procs[pid].bin, s'.procs[pid].pc, s'.root)
      {
        ForeignStagingUntouched(g, m.pid, me.bin, me.pc, s.root, s'.procs[m.pid].pc, s'.root, pid, s.procs[pid].bin);
      }
    }
  }

  lemma {:induction false} AllStagedInRun(g: Mode, world: set<Binary>, run: seq<State>, i: nat)
    requires IsRun(g, world, run) && i < |run|
    ensures AllStaged(world, run[i])
  {
    if i > 0 {
      AllStagedInRun(g, world, run, i - 1);
      assert run[i] == run[i - 1 + 1];
      AllStagedKept(g, world, run[i - 1], run[i]);
    }
  }

  // Main result. Whatever else runs, crashes or reuses pids, a process that
  // reaches the rename holds exactly its own archive's tree and its own key,
  // and no step of another process changes anyone's staging directory.
  lemma StagingIsPrivate(g: Mode, world: set<Binary>, run: seq<State>, i: nat, pid: nat)
    requires IsRun(g, world, run) && i < |run| && pid in run[i].procs
    ensures run[i].procs[pid].pc.Rename? ==> StagedWhole(pid, run[i].procs[pid].bin, run[i].root)
    ensures forall m | i + 1 < |run| && MoveStep(g, world, run[i], m, run[i + 1]) && m.pid != pid ::
              Untouched(run[i].root, run[i + 1].root, Staging(pid, run[i].procs[pid].bin))
  {
    AllStagedInRun(g, world, run, i);
    forall m | i + 1 < |run| && MoveStep(g, world, run[i], m, run[i + 1]) && m.pid != pid
      ensures Untouched(run[i].root, run[i + 1].root, Staging(pid, run[i].procs[pid].bin))
    {
      if m.Act? {
        var me := run[i].procs[m.pid];
        ForeignStagingUntouched(g, m.pid, me.bin, me.pc, run[i].root, run[i + 1].procs[m.pid].pc, run[i + 1].root,
                                pid, run[i].procs[pid].bin);
      }
    }
  }

  // ---- installed directories ---------------------------------------------

  // With atomic removal a directory is all of what it came from, otherwise it
  // may have lost entries.
  predicate RestOf(g: Mode, t: Tree, whole: Tree) {
    if g.atomic then t == whole else SubTree(t, whole)
  }

  // `name` holds what is left of its initial contents or of one archive
  // installed for that version; never a mixture.
  ghost predicate FromOneSource(g: Mode, world: set<Binary>, first: Root, root: Root, name: string) {
    name in root ==>
      || (name in first && root[name] == first[name])
      || (root[name].Dir? && IsDir(first, name) && RestOf(g, root[name].tree, first[name].tree))
      || (root[name].Dir? && exists b :: b in world && b.version == name && Installable(b)
                                        && RestOf(g, root[name].tree, Complete(b)))
  }

  // The only step that puts anything into an installed directory is the
  // rename of a whole staging directory.
  lemma StepInstallsWhole(g: Mode, pid: nat, b: Binary, pc: Pc, root: Root, pc': Pc, root': Root, name: string)
    requires ValidVersion(b.version) && !IsStagingName(name)
    requires ProcStep(g, pid, b, pc, root, pc', root') && StagingHolds(pid, b, pc, root)
    ensures || name !in root'
            || (name in root && (root'[name] == root[name]
                                 || (!g.atomic && root[name].Dir? && root'[name].Dir?
                                     && SubTree(root'[name].tree, root[name].tree))))
            || (pc.Rename? && name == b.version && Installable(b) && root'[name] == Dir(Complete(b)))
  {
    StagingNamesDistinct(b.version, pid, b.version, pid);
    if !Touches(pid, b, pc, name) {
      StepTouches(g, pid, b, pc, root, pc', root', name);
    }
  }

  lemma OneSourceKept(g: Mode, world: set<Binary>, first: Root, s: State, s': State, name: string)
    requires forall b | b in world :: ValidVersion(b.version)
    requires AllStaged(world, s) && Step(g, world, s, s') && !IsStagingName(name)
    requires FromOneSource(g, world, first, s.root, name)
    ensures FromOneSource(g, world, first, s'.root, name)
  {
    var m :| MoveStep(g, world, s, m, s');
    if m.Act? {
      var me := s.procs[m.pid];
      StepInstallsWhole(g, m.pid, me.bin, me.pc, s.root, s'.procs[m.pid].pc, s'.root, name);
    }
  }

  // Main result. In every reachable state an installed directory is what is
  // left of its initial contents or of one archive's complete tree; with
  // atomic removal it is absent, untouched or complete.
  lemma {:induction false} ReplacedNeverMerged(g: Mode, world: set<Binary>, run: seq<State>, i: nat, name: string)
    requires IsRun(g, world, run) && i < |run| && !IsStagingName(name)
    ensures FromOneSource(g, world, run[0].root, run[i].root, name)
  {
    if i > 0 {
      ReplacedNeverMerged(g, world, run, i - 1, name);
      AllStagedInRun(g, world, run, i - 1);
      assert run[i] == run[i - 1 + 1];
      OneSourceKept(g, world, run[0].root, run[i - 1], run[i], name);
    }
  }

  // Main result. An installed directory never gains an entry or changes one
  // except by the single rename step, which brings one archive's complete tree.
  lemma ContentArrivesByRename(g: Mode, world: set<Binary>, run: seq<State>, i: nat, m: Move, name: string)
    requires IsRun(g, world, run) && i + 1 < |run| && MoveStep(g, world, run[i], m, run[i + 1])
    requires IsDir(run[i + 1].root, name) && !IsStagingName(name)
    requires !(IsDir(run[i].root, name) && SubTree(run[i + 1].root[name].tree, run[i].root[name].tree))
    ensures m.Act? && m.pid in run[i].procs
    ensures var me := run[i].procs[m.pid];
            && me.pc.Rename? && me.bin.version == name && Installable(me.bin)
            && run[i + 1].root[name] == Dir(Complete(me.bin))
  {
    AllStagedInRun(g, world, run, i);
    if m.Act? {
      var me := run[i].procs[m.pid];
      StepInstallsWhole(g, m.pid, me.bin, me.pc, run[i].root, run[i + 1].procs[m.pid].pc, run[i + 1].root, name);
    }
  }
}
