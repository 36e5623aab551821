// The rootfs cache as a state machine: any number of processes, each running
// one `install`, share the directory tree under one cache root.
//
// A step is one effect on that tree. Extraction writes one archive entry a
// step and a removal takes one entry a step, so a process can stop, fail or be
// interleaved with others between any two of them.
module RootfsCache {
  import opened Text
  import opened CacheKey

  // ---- the directory tree ------------------------------------------------

  const MARKER := ".rootfs-archive"
  const HELPER := "usr/local/bin/vm-build"

  // `mode` is the permission bits, read, write and execute for three classes.
  datatype Node = File(text: string, mode: bv16) | Folder

  // Paths relative to the directory; a parent and its children are separate
  // entries.
  type Tree = map<string, Node>

  // A name directly under the cache root. Plain is anything but a directory.
  datatype Entry = Dir(tree: Tree) | Plain

  type Root = map<string, Entry>

  predicate IsDir(root: Root, name: string) {
    name in root && root[name].Dir?
  }

  predicate SubTree(t: Tree, u: Tree) {
    forall p | p in t :: p in u && t[p] == u[p]
  }

  // ---- what a binary carries ---------------------------------------------

  datatype Item = Item(path: string, node: Node)

  // Entries in the order the extractor writes them; an archive that is not
  // intact fails to decode after the last of them.
  datatype Archive = NotEmbedded | Embedded(items: seq<Item>, intact: bool)

  datatype Binary = Binary(version: string, digest: seq<Byte>, archive: Archive)

  function KeyOf(b: Binary): string {
    Key(b.version, HexOf(b.digest))
  }

  // The tree after writing one entry; a later one of the same path replaces it.
  function With(t: Tree, item: Item): Tree {
    t[item.path := item.node]
  }

  function Unpacked(items: seq<Item>): Tree {
    if items == [] then map[] else With(Unpacked(items[..|items| - 1]), items[|items| - 1])
  }

  // What a new file gets, 0644.
  const DEFAULT_MODE: bv16 := 0x1a4

  // Writing the marker keeps the mode of a file already there and cannot
  // replace a folder.
  predicate MarkerWritable(t: Tree) {
    MARKER in t ==> t[MARKER].File?
  }

  function Marked(t: Tree, text: string): Tree
    requires MarkerWritable(t)
  {
    t[MARKER := File(text, if MARKER in t then t[MARKER].mode else DEFAULT_MODE)]
  }

  // Archives that `stage` can turn into a complete tree.
  predicate Installable(b: Binary) {
    b.archive.Embedded? && b.archive.intact && MarkerWritable(Unpacked(b.archive.items))
  }

  // A fresh extraction with its marker: what a cached directory has to be.
  function Complete(b: Binary): Tree
    requires Installable(b)
  {
    Marked(Unpacked(b.archive.items), KeyOf(b))
  }

  // ---- the hit test ------------------------------------------------------

  predicate TreeMarked(t: Tree, key: string) {
    MARKER in t && t[MARKER].File? && MarkerMatches(t[MARKER].text, key)
  }

  // The mask is 0111.
  predicate TreeBoots(t: Tree) {
    HELPER in t && t[HELPER].File? && t[HELPER].mode & 0x49 != 0
  }

  predicate TreeHits(t: Tree, key: string) {
    TreeMarked(t, key) && TreeBoots(t)
  }

  predicate MarkerSeen(root: Root, b: Binary) {
    IsDir(root, b.version) && TreeMarked(root[b.version].tree, KeyOf(b))
  }

  predicate RootfsPasses(root: Root, name: string) {
    IsDir(root, name) && TreeBoots(root[name].tree)
  }

  predicate Hit(root: Root, b: Binary) {
    MarkerSeen(root, b) && RootfsPasses(root, b.version)
  }

  // ---- one process -------------------------------------------------------

  datatype Reason = NoArchive | StageFailed | StaleKept | RenameFailed

  datatype Outcome = Installed(dir: string) | Failed(reason: Reason)

  // Where a process stands in `install`. The two looks at the cached directory
  // are the first test (again == false) and the one after staging.
  datatype Pc =
    | Begin
    | LookMarker(again: bool)
    | LookHelper(again: bool)
    | StageProbe
    | StageClear
    | StageCreate
    | Unpack(count: nat)
    | MarkerOpen
    | MarkerText
    | ProbeDir
    | ClearDir
    | Rename
    | Sweep
    | SweepClear(name: string)
    | Discard(outcome: Outcome)
    | Done(outcome: Outcome)

  // How the world behaves. `atomic`: a removal takes a whole directory at
  // once. `faults`: any operation may fail and any process may crash. `flaky`:
  // reading the cached directory may fail, which the code takes for a miss.
  // `overlap`: several processes may be at work at once, and then one may
  // disturb another's entry-by-entry removal.
  datatype Mode = Mode(atomic: bool, faults: bool, flaky: bool, overlap: bool)

  function Staging(pid: nat, b: Binary): string {
    StagingName(b.version, pid)
  }

  // The directory a removing process is working on.
  function Target(pid: nat, b: Binary, pc: Pc): Option<string> {
    match pc
    case StageClear => Some(Staging(pid, b))
    case ClearDir => Some(b.version)
    case SweepClear(name) => Some(name)
    case Discard(_) => Some(Staging(pid, b))
    case _ => None
  }

  function AfterRemoval(pc: Pc, removed: bool): Pc {
    match pc
    case StageClear => if removed then StageCreate else Discard(Failed(StageFailed))
    case ClearDir => if removed then Rename else Discard(Failed(StaleKept))
    case SweepClear(_) => Sweep
    case Discard(outcome) => Done(outcome)
    case _ => pc
  }

  // One step of removing `name`: an entry goes, or the directory itself, or
  // the removal gives up.
  ghost predicate RemovalStep(g: Mode, name: string, pc: Pc, root: Root, pc': Pc, root': Root) {
    || (!g.atomic && IsDir(root, name) && pc' == pc
        && exists p :: p in root[name].tree && root' == root[name := Dir(root[name].tree - {p})])
    || (IsDir(root, name) && (g.atomic || root[name].tree == map[])
        && pc' == AfterRemoval(pc, true) && root' == root - {name})
    || ((g.faults || (g.overlap && !g.atomic) || !IsDir(root, name))
        && pc' == AfterRemoval(pc, false) && root' == root)
  }

  // A test of the cached directory leads to `yes` if it holds, to `no` if not;
  // a failing read counts as no.
  predicate Tested(g: Mode, holds: bool, pc': Pc, yes: Pc, no: Pc) {
    (holds && pc' == yes) || ((!holds || g.flaky) && pc' == no)
  }

  // POSIX rename of a directory: the target must be absent or an empty
  // directory.
  predicate Renamable(root: Root, source: string, target: string) {
    IsDir(root, source) && (target !in root || root[target] == Dir(map[]))
  }

  ghost predicate ProcStep(g: Mode, pid: nat, b: Binary, pc: Pc, root: Root, pc': Pc, root': Root) {
    var staging := Staging(pid, b);
    match pc
    case Begin =>
      root' == root
      && pc' == if b.archive.NotEmbedded? then Done(Failed(NoArchive)) else LookMarker(false)
    case LookMarker(again) =>
      root' == root
      && Tested(g, MarkerSeen(root, b), pc', LookHelper(again), AfterMiss(again))
    case LookHelper(again) =>
      root' == root
      && Tested(g, RootfsPasses(root, b.version), pc', AfterHit(b, again), AfterMiss(again))
    case StageProbe =>
      root' == root && pc' == if staging in root then StageClear else StageCreate
    case StageCreate =>
      || (staging !in root && root' == root[staging := Dir(map[])] && pc' == Unpack(0))
      || (IsDir(root, staging) && root' == root && pc' == Unpack(0))
      || ((g.faults || (staging in root && root[staging].Plain?)) && StageFails(root, pc', root'))
    case Unpack(count) =>
      || (&& IsDir(root, staging) && b.archive.Embedded? && count < |b.archive.items|
          && root' == root[staging := Dir(With(root[staging].tree, b.archive.items[count]))]
          && pc' == Unpack(count + 1))
      || (&& IsDir(root, staging) && b.archive.Embedded? && count == |b.archive.items| && b.archive.intact
          && root' == root && pc' == MarkerOpen)
      || ((g.faults || !IsDir(root, staging)
           || (b.archive.Embedded? && count == |b.archive.items| && !b.archive.intact))
          && StageFails(root, pc', root'))
    case MarkerOpen =>
      || (&& IsDir(root, staging) && MarkerWritable(root[staging].tree)
          && root' == root[staging := Dir(Marked(root[staging].tree, ""))] && pc' == MarkerText)
      || ((g.faults || !IsDir(root, staging) || !MarkerWritable(root[staging].tree)) && StageFails(root, pc', root'))
    case MarkerText =>
      || (&& IsDir(root, staging) && MarkerWritable(root[staging].tree) && pc' == MarkerText
          && exists n :: 0 <= n <= |KeyOf(b)|
                         && root' == root[staging := Dir(Marked(root[staging].tree, KeyOf(b)[..n]))])
      || (&& IsDir(root, staging) && MarkerWritable(root[staging].tree)
          && root' == root[staging := Dir(Marked(root[staging].tree, KeyOf(b)))] && pc' == LookMarker(true))
      || ((g.faults || !IsDir(root, staging) || !MarkerWritable(root[staging].tree)) && StageFails(root, pc', root'))
    case ProbeDir =>
      root' == root
      && Tested(g, b.version in root, pc', ClearDir, Rename)
    case Rename =>
      || (&& Renamable(root, staging, b.version) && pc' == Sweep
          && root' == (root - {staging})[b.version := root[staging]])
      || ((g.faults || !Renamable(root, staging, b.version))
          && root' == root && pc' == Discard(Failed(RenameFailed)))
    case Sweep =>
      root' == root
      && (pc' == Done(Installed(b.version))
          || (pc'.SweepClear? && Sweepable(root, b.version, pc'.name)))
    case Done(_) => false
    case _ => RemovalStep(g, Target(pid, b, pc).value, pc, root, pc', root')
  }

  function AfterMiss(again: bool): Pc {
    if again then ProbeDir else StageProbe
  }

  function AfterHit(b: Binary, again: bool): Pc {
    if again then Discard(Installed(b.version)) else Done(Installed(b.version))
  }

  predicate StageFails(root: Root, pc': Pc, root': Root) {
    root' == root && pc' == Discard(Failed(StageFailed))
  }

  // What a sweep after installing `current` takes.
  predicate Sweepable(root: Root, current: string, name: string) {
    IsDir(root, name) && name != current && !IsStagingName(name)
  }

  // ---- all processes -----------------------------------------------------

  datatype Proc = Proc(bin: Binary, pc: Pc)

  datatype State = State(root: Root, procs: map<nat, Proc>)

  predicate Live(s: State, pid: nat) {
    pid in s.procs && !s.procs[pid].pc.Done?
  }

  predicate AllReturned(procs: map<nat, Proc>) {
    forall p | p in procs :: procs[p].pc.Done?
  }

  datatype Move = Start(pid: nat, bin: Binary) | Act(pid: nat) | Crash(pid: nat)

  // A pid is free again once its process has returned or crashed. Without
  // overlap a process starts only when all others have.
  ghost predicate MoveStep(g: Mode, world: set<Binary>, s: State, m: Move, s': State) {
    match m
    case Start(pid, bin) =>
      && bin in world && !Live(s, pid) && (g.overlap || AllReturned(s.procs))
      && s' == s.(procs := s.procs[pid := Proc(bin, Begin)])
    case Act(pid) =>
      && pid in s.procs && pid in s'.procs
      && s'.procs == s.procs[pid := s'.procs[pid]]
      && s'.procs[pid].bin == s.procs[pid].bin
      && ProcStep(g, pid, s.procs[pid].bin, s.procs[pid].pc, s.root, s'.procs[pid].pc, s'.root)
    case Crash(pid) =>
      g.faults && Live(s, pid) && s' == s.(procs := s.procs - {pid})
  }

  ghost predicate Step(g: Mode, world: set<Binary>, s: State, s': State) {
    exists m :: MoveStep(g, world, s, m, s')
  }

  ghost predicate Steps(g: Mode, world: set<Binary>, run: seq<State>) {
    && run != []
    && forall i | 0 <= i < |run| - 1 :: Step(g, world, run[i], run[i + 1])
  }

  // A run: any binaries of `world`, from any contents of the root, nobody at
  // work yet.
  ghost predicate IsRun(g: Mode, world: set<Binary>, run: seq<State>) {
    && Steps(g, world, run)
    && run[0].procs == map[]
    && forall b | b in world :: ValidVersion(b.version)
  }

  // At most one process at work: runs that never overlap.
  predicate Solo(s: State) {
    forall p, q | p in s.procs && q in s.procs && Live(s, p) && Live(s, q) :: p == q
  }
}
