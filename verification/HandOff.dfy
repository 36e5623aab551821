// What libkrun and the guest receive: strings and pointer arrays laid out in
// memory as C reads them, the checks that come first, and the guest script's
// reading of its arguments and environment.
module HandOff {
  import opened Text
  import opened Address
  import opened CacheKey
  import opened Dns
  import opened GuestKernel

  // ---- C memory ----------------------------------------------------------

  // A flat memory; a pointer is an index, and 0 is the null pointer.
  type Memory = string
  type Pointer = nat

  function UpToNul(s: string): string {
    if s == "" || s[0] == '\0' then "" else [s[0]] + UpToNul(s[1..])
  }

  // A C string: the characters from `p` to the first NUL.
  function ReadString(mem: Memory, p: Pointer): string {
    if p < |mem| then UpToNul(mem[p..]) else ""
  }

  // A C array of pointers: up to the first null.
  function ReadPointers(arr: seq<Pointer>): seq<Pointer> {
    if arr == [] || arr[0] == 0 then [] else [arr[0]] + ReadPointers(arr[1..])
  }

  function ReadStrings(mem: Memory, arr: seq<Pointer>): (r: seq<string>)
    ensures |r| == |ReadPointers(arr)|
    ensures forall i | 0 <= i < |r| :: r[i] == ReadString(mem, ReadPointers(arr)[i])
  {
    var ps := ReadPointers(arr);
    seq(|ps|, i requires 0 <= i < |ps| => ReadString(mem, ps[i]))
  }

  predicate HasNul(s: string) {
    '\0' in s
  }

  // Memory once `strings` have been allocated, each with its NUL.
  function Allocated(mem: Memory, strings: seq<string>): Memory
    decreases strings
  {
    if strings == [] then mem else Allocated(mem + strings[0] + "\0", strings[1..])
  }

  // Where the i-th of them starts.
  function PointerTo(mem: Memory, strings: seq<string>, i: nat): Pointer
    requires i < |strings|
    decreases i
  {
    if i == 0 then |mem| else PointerTo(mem + strings[0] + "\0", strings[1..], i - 1)
  }

  lemma {:induction false} UpToNulStops(s: string, rest: string)
    requires !HasNul(s)
    ensures UpToNul(s + "\0" + rest) == s
  {
    var t := s + "\0" + rest;
    if s == "" {
      assert t[0] == '\0';
    } else {
      assert t[0] == s[0] && t[1..] == s[1..] + "\0" + rest;
      UpToNulStops(s[1..], rest);
    }
  }

  lemma {:induction false} AllocationKeeps(mem: Memory, strings: seq<string>)
    ensures mem <= Allocated(mem, strings)
    decreases strings
  {
    if strings != [] {
      var next := mem + strings[0] + "\0";
      AllocationKeeps(next, strings[1..]);
      assert mem <= next;
    }
  }

  // Whatever else is allocated, a NUL-free string reads back from its pointer,
  // which is not null.
  lemma {:induction false} StringReadsBack(mem: Memory, strings: seq<string>, i: nat)
    requires i < |strings| && !HasNul(strings[i]) && mem != ""
    ensures PointerTo(mem, strings, i) != 0
    ensures ReadString(Allocated(mem, strings), PointerTo(mem, strings, i)) == strings[i]
    decreases i
  {
    var next := mem + strings[0] + "\0";
    if i > 0 {
      StringReadsBack(next, strings[1..], i - 1);
    } else {
      AllocationKeeps(next, strings[1..]);
      var all := Allocated(mem, strings);
      assert all[|mem|..] == strings[0] + "\0" + all[|next|..];
      UpToNulStops(strings[0], all[|next|..]);
    }
  }

  // ---- the build and its checks ------------------------------------------

  // A host path; one that is not UTF-8 cannot become text.
  datatype HostPath = Utf8(text: string) | NotUtf8

  type Word32 = n: nat | n < 0x1_0000_0000

  datatype VmBuild = VmBuild(rootfs: HostPath, context: HostPath, outputDir: HostPath,
                             outputFilename: string, tag: string, cpus: Byte, memory: Word32,
                             nameservers: seq<IpAddr>)

  const CONTAINERFILE_VM_PATH := "/build/context/Containerfile"
  const TAG_ROOT := "/dev/root"
  const TAG_CONTEXT := "openshell-context"
  const TAG_OUTPUT := "openshell-output"
  const WORKDIR := "/"
  const VM_PATH := "PATH=/bin:/usr/bin:" + "/usr/local/bin:/sbin:/usr/sbin"
  const VM_DNS_ENV := "OPENSHELL_VM_DNS"

  function JoinAddresses(addrs: seq<IpAddr>): string {
    Join(Texts(addrs), ' ')
  }

  function DnsEnvValue(addrs: seq<IpAddr>): Option<string> {
    if addrs == [] then None else Some(JoinAddresses(addrs))
  }

  datatype ArgsError = BadPath(what: string) | InteriorNul(what: string)

  // The strings handed to libkrun.
  datatype Args = Args(rootfs: string, context: string, outputDir: string, outputFilename: string,
                       containerfile: string, tag: string, tagRoot: string, tagContext: string,
                       tagOutput: string, workdir: string, exec: string, pathEnv: string,
                       dnsEnv: Option<string>)

  datatype ArgsResult = Ready(args: Args) | Rejected(error: ArgsError)

  predicate PathFits(p: HostPath) {
    p.Utf8? && !HasNul(p.text)
  }

  // The first check that fails, in the order in which the strings are made.
  function Refusal(b: VmBuild): Option<ArgsError> {
    if !PathFits(b.rootfs) then Some(BadPath("VM rootfs"))
    else if !PathFits(b.context) then Some(BadPath("build context"))
    else if !PathFits(b.outputDir) then Some(BadPath("output directory"))
    else if HasNul(b.outputFilename) then Some(InteriorNul("output filename"))
    else if HasNul(CONTAINERFILE_VM_PATH) then Some(InteriorNul("Containerfile path"))
    else if HasNul(b.tag) then Some(InteriorNul("image tag"))
    else if HasNul(TAG_ROOT) then Some(InteriorNul("root tag"))
    else if HasNul(TAG_CONTEXT) then Some(InteriorNul("context tag"))
    else if HasNul(TAG_OUTPUT) then Some(InteriorNul("output tag"))
    else if HasNul(WORKDIR) then Some(InteriorNul("workdir"))
    else if HasNul(VM_BUILD_SCRIPT) then Some(InteriorNul("build helper"))
    else if HasNul(VM_PATH) then Some(InteriorNul("PATH"))
    else if DnsEnv(b).Some? && HasNul(DnsEnv(b).value) then Some(InteriorNul("VM nameservers"))
    else None
  }

  function DnsEnv(b: VmBuild): Option<string> {
    match DnsEnvValue(b.nameservers)
    case None => None
    case Some(value) => Some(VM_DNS_ENV + "=" + value)
  }

  function AllArgs(b: VmBuild): Args
    requires b.rootfs.Utf8? && b.context.Utf8? && b.outputDir.Utf8?
  {
    Args(b.rootfs.text, b.context.text, b.outputDir.text, b.outputFilename, CONTAINERFILE_VM_PATH, b.tag,
         TAG_ROOT, TAG_CONTEXT, TAG_OUTPUT, WORKDIR, VM_BUILD_SCRIPT, VM_PATH, DnsEnv(b))
  }

  function NewArgs(b: VmBuild): ArgsResult {
    match Refusal(b)
    case Some(e) => Rejected(e)
    case None => Ready(AllArgs(b))
  }

  // ---- the calls into libkrun --------------------------------------------

  // The order in which the strings lie in memory does not matter; one
  // unrelated byte precedes them.
  function Strings(a: Args): seq<string> {
    [a.rootfs, a.context, a.outputDir, a.outputFilename, a.containerfile, a.tag,
     a.tagRoot, a.tagContext, a.tagOutput, a.workdir, a.exec, a.pathEnv]
    + if a.dnsEnv.Some? then [a.dnsEnv.value] else []
  }

  function MemoryOf(a: Args): Memory {
    Allocated("?", Strings(a))
  }

  datatype KrunCall =
    | CreateCtx
    | SetVmConfig(cpus: nat, memory: nat)
    | AddVirtiofs(tag: Pointer, path: Pointer)
    | SetWorkdir(dir: Pointer)
    | SetExec(exec: Pointer, argv: seq<Pointer>, envp: seq<Pointer>)
    | StartEnter

  // The six configuration calls. Both arrays of the last are null-terminated,
  // and a null in the middle of `envp` ends the environment early.
  function Configuration(a: Args, cpus: nat, memory: nat): (calls: seq<KrunCall>)
    ensures |calls| == 6
  {
    var s := Strings(a);
    [SetVmConfig(cpus, memory),
     AddVirtiofs(PointerTo("?", s, 6), PointerTo("?", s, 0)),
     AddVirtiofs(PointerTo("?", s, 7), PointerTo("?", s, 1)),
     AddVirtiofs(PointerTo("?", s, 8), PointerTo("?", s, 2)),
     SetWorkdir(PointerTo("?", s, 9)),
     SetExec(PointerTo("?", s, 10),
             [PointerTo("?", s, 4), PointerTo("?", s, 5), PointerTo("?", s, 3), 0],
             [PointerTo("?", s, 11), if a.dnsEnv.Some? then PointerTo("?", s, 12) else 0, 0])]
  }

  // ---- what libkrun makes of them ----------------------------------------

  // A host directory offered to the guest under a tag.
  datatype Share = Share(tag: string, dir: string)

  datatype Vm = Vm(cpus: nat, memory: nat, shares: seq<Share>, workdir: string,
                   script: string, argv: seq<string>, env: seq<string>)

  // A machine not configured yet.
  const BLANK := Vm(0, 0, [], "", "", [], [])

  // Every pointer is read as C reads it.
  function Told(mem: Memory, vm: Vm, call: KrunCall): Vm {
    match call
    case SetVmConfig(cpus, memory) => vm.(cpus := cpus, memory := memory)
    case AddVirtiofs(tag, path) => vm.(shares := vm.shares + [Share(ReadString(mem, tag), ReadString(mem, path))])
    case SetWorkdir(dir) => vm.(workdir := ReadString(mem, dir))
    case SetExec(exec, argv, envp) =>
      vm.(script := ReadString(mem, exec), argv := ReadStrings(mem, argv), env := ReadStrings(mem, envp))
    case _ => vm
  }

  function Configured(mem: Memory, vm: Vm, calls: seq<KrunCall>): Vm
    decreases |calls|
  {
    if calls == [] then vm else Configured(mem, Told(mem, vm, calls[0]), calls[1..])
  }

  // The machine a build whose strings are accepted boots.
  function VmOf(b: VmBuild): Vm
    requires NewArgs(b).Ready?
  {
    var a := NewArgs(b).args;
    Configured(MemoryOf(a), BLANK, Configuration(a, b.cpus, b.memory))
  }

  lemma AddressesHoldNoNul(addrs: seq<IpAddr>)
    ensures !HasNul(JoinAddresses(addrs))
    ensures forall i | 0 <= i < |addrs| :: AddressText(Texts(addrs)[i])
  {
    forall i | 0 <= i < |addrs| ensures AddressText(Texts(addrs)[i]) {
      PrintCharacters(addrs[i]);
    }
    JoinHoldsNoNul(Texts(addrs));
  }

  lemma {:induction false} JoinHoldsNoNul(xs: seq<string>)
    requires forall i | 0 <= i < |xs| :: AddressText(xs[i])
    ensures !HasNul(Join(xs, ' '))
  {
    if xs != [] {
      assert forall k | 0 <= k < |xs[0]| :: AddressChar(xs[0][k]);
      if |xs| > 1 {
        assert forall i | 0 <= i < |xs| - 1 :: xs[1..][i] == xs[i + 1];
        JoinHoldsNoNul(xs[1..]);
      }
    }
  }

  lemma ConstantsHoldNoNul()
    ensures !HasNul(CONTAINERFILE_VM_PATH) && !HasNul(VM_PATH) && !HasNul(VM_DNS_ENV + "=")
  {
  }

  lemma TagsHoldNoNul()
    ensures !HasNul(TAG_ROOT) && !HasNul(TAG_CONTEXT) && !HasNul(TAG_OUTPUT)
    ensures !HasNul(WORKDIR) && !HasNul(VM_BUILD_SCRIPT)
  {
  }

  // The checks reject a build exactly when one of the caller's strings cannot
  // be a C string: a path that is not UTF-8, or an interior NUL anywhere. The
  // error names the first.
  lemma RefusalExactly(b: VmBuild)
    ensures Refusal(b) ==
              if !PathFits(b.rootfs) then Some(BadPath("VM rootfs"))
              else if !PathFits(b.context) then Some(BadPath("build context"))
              else if !PathFits(b.outputDir) then Some(BadPath("output directory"))
              else if HasNul(b.outputFilename) then Some(InteriorNul("output filename"))
              else if HasNul(b.tag) then Some(InteriorNul("image tag"))
              else None
  {
    AddressesHoldNoNul(b.nameservers);
    ConstantsHoldNoNul();
    TagsHoldNoNul();
  }

  lemma NewArgsExactly(b: VmBuild)
    ensures NewArgs(b).Rejected? <==>
              || !PathFits(b.rootfs) || !PathFits(b.context) || !PathFits(b.outputDir)
              || HasNul(b.outputFilename) || HasNul(b.tag)
    ensures NewArgs(b).Rejected? ==>
              (NewArgs(b).error.BadPath? <==> !PathFits(b.rootfs) || !PathFits(b.context) || !PathFits(b.outputDir))
    ensures NewArgs(b).Ready? ==> forall i | 0 <= i < |Strings(NewArgs(b).args)| :: !HasNul(Strings(NewArgs(b).args)[i])
  {
    RefusalExactly(b);
    if NewArgs(b).Ready? {
      AcceptedHoldNoNul(b);
    }
  }

  lemma AcceptedHoldNoNul(b: VmBuild)
    requires PathFits(b.rootfs) && PathFits(b.context) && PathFits(b.outputDir)
    requires !HasNul(b.outputFilename) && !HasNul(b.tag)
    ensures forall i | 0 <= i < |Strings(AllArgs(b))| :: !HasNul(Strings(AllArgs(b))[i])
  {
    AddressesHoldNoNul(b.nameservers);
    ConstantsHoldNoNul();
    TagsHoldNoNul();
  }

  lemma ReadTwo(mem: Memory, arr: seq<Pointer>)
    requires |arr| == 3 && arr[2] == 0 && arr[0] != 0
    ensures ReadStrings(mem, arr)
            == if arr[1] == 0 then [ReadString(mem, arr[0])] else [ReadString(mem, arr[0]), ReadString(mem, arr[1])]
  {
    assert ReadPointers(arr[2..]) == [];
    assert arr[1..][1..] == arr[2..];
    assert ReadPointers(arr[1..]) == if arr[1] == 0 then [] else [arr[1]];
    assert ReadPointers(arr) == if arr[1] == 0 then [arr[0]] else [arr[0], arr[1]];
  }

  lemma ReadThree(mem: Memory, arr: seq<Pointer>)
    requires |arr| == 4 && arr[0] != 0 && arr[1] != 0 && arr[2] != 0 && arr[3] == 0
    ensures ReadStrings(mem, arr) == [ReadString(mem, arr[0]), ReadString(mem, arr[1]), ReadString(mem, arr[2])]
  {
    ReadTwo(mem, arr[1..]);
    assert ReadPointers(arr) == [arr[0]] + ReadPointers(arr[1..]);
    assert ReadStrings(mem, arr[1..]) == [ReadString(mem, arr[1]), ReadString(mem, arr[2])];
    assert ReadStrings(mem, arr)[1..] == ReadStrings(mem, arr[1..]);
  }

  // What a null-terminated array of two or three strings is read as.
  lemma ArraysOfArgs(a: Args)
    requires forall i | 0 <= i < |Strings(a)| :: !HasNul(Strings(a)[i])
    ensures var last := Configuration(a, 0, 0)[5]; var mem := MemoryOf(a);
            && ReadStrings(mem, last.argv) == [a.containerfile, a.tag, a.outputFilename]
            && ReadStrings(mem, last.envp) == if a.dnsEnv.Some? then [a.pathEnv, a.dnsEnv.value] else [a.pathEnv]
  {
    StringsRead(a);
    var last := Configuration(a, 0, 0)[5];
    ReadThree(MemoryOf(a), last.argv);
    ReadTwo(MemoryOf(a), last.envp);
  }

  lemma StringsRead(a: Args)
    requires forall i | 0 <= i < |Strings(a)| :: !HasNul(Strings(a)[i])
    ensures forall i | 0 <= i < |Strings(a)| ::
              && PointerTo("?", Strings(a), i) != 0
              && ReadString(MemoryOf(a), PointerTo("?", Strings(a), i)) == Strings(a)[i]
  {
    forall i | 0 <= i < |Strings(a)|
      ensures PointerTo("?", Strings(a), i) != 0
      ensures ReadString(MemoryOf(a), PointerTo("?", Strings(a), i)) == Strings(a)[i]
    {
      StringReadsBack("?", Strings(a), i);
    }
  }

  lemma OneCall(mem: Memory, vm: Vm, c: KrunCall, rest: seq<KrunCall>)
    ensures Configured(mem, vm, [c] + rest) == Configured(mem, Told(mem, vm, c), rest)
  {
    assert ([c] + rest)[1..] == rest;
  }

  lemma TwoCalls(mem: Memory, vm: Vm, c: KrunCall, d: KrunCall, rest: seq<KrunCall>)
    ensures Configured(mem, vm, [c, d] + rest) == Configured(mem, Told(mem, Told(mem, vm, c), d), rest)
  {
    assert [c, d] + rest == [c] + ([d] + rest);
    OneCall(mem, vm, c, [d] + rest);
    OneCall(mem, Told(mem, vm, c), d, rest);
  }

  lemma SixCalls(mem: Memory, c: seq<KrunCall>)
    requires |c| == 6
    ensures var half := Told(mem, Told(mem, Told(mem, BLANK, c[0]), c[1]), c[2]);
            Configured(mem, BLANK, c) == Told(mem, Told(mem, Told(mem, half, c[3]), c[4]), c[5])
  {
    var v2 := Told(mem, Told(mem, BLANK, c[0]), c[1]);
    var v4 := Told(mem, Told(mem, v2, c[2]), c[3]);
    var v6 := Told(mem, Told(mem, v4, c[4]), c[5]);
    assert c == [c[0], c[1]] + c[2..] && c[2..] == [c[2], c[3]] + c[4..] && c[4..] == [c[4], c[5]] + [];
    TwoCalls(mem, BLANK, c[0], c[1], c[2..]);
    TwoCalls(mem, v2, c[2], c[3], c[4..]);
    TwoCalls(mem, v4, c[4], c[5], []);
  }

  // Three directories shared, then the working directory and the script.
  lemma CallsTold(mem: Memory, c: seq<KrunCall>)
    requires |c| == 6 && c[0].SetVmConfig? && c[1].AddVirtiofs? && c[2].AddVirtiofs? && c[3].AddVirtiofs?
    requires c[4].SetWorkdir? && c[5].SetExec?
    ensures Configured(mem, BLANK, c) ==
              Vm(c[0].cpus, c[0].memory,
                 [Share(ReadString(mem, c[1].tag), ReadString(mem, c[1].path)),
                  Share(ReadString(mem, c[2].tag), ReadString(mem, c[2].path)),
                  Share(ReadString(mem, c[3].tag), ReadString(mem, c[3].path))],
                 ReadString(mem, c[4].dir), ReadString(mem, c[5].exec),
                 ReadStrings(mem, c[5].argv), ReadStrings(mem, c[5].envp))
  {
    SixCalls(mem, c);
    var x, y, z := Share(ReadString(mem, c[1].tag), ReadString(mem, c[1].path)),
                   Share(ReadString(mem, c[2].tag), ReadString(mem, c[2].path)),
                   Share(ReadString(mem, c[3].tag), ReadString(mem, c[3].path));
    assert [] + [x] + [y] + [z] == [x, y, z];
  }

  // The machine that strings describe, each in its place.
  function MachineOf(a: Args, cpus: nat, memory: nat): Vm {
    Vm(cpus, memory,
       [Share(a.tagRoot, a.rootfs), Share(a.tagContext, a.context), Share(a.tagOutput, a.outputDir)],
       a.workdir, a.exec, [a.containerfile, a.tag, a.outputFilename],
       if a.dnsEnv.Some? then [a.pathEnv, a.dnsEnv.value] else [a.pathEnv])
  }

  lemma ConfiguredOfArgs(a: Args, cpus: nat, memory: nat)
    requires forall i | 0 <= i < |Strings(a)| :: !HasNul(Strings(a)[i])
    ensures Configured(MemoryOf(a), BLANK, Configuration(a, cpus, memory)) == MachineOf(a, cpus, memory)
  {
    StringsRead(a);
    ArraysOfArgs(a);
    CallsTold(MemoryOf(a), Configuration(a, cpus, memory));
  }

  lemma MachineOfBuild(b: VmBuild)
    requires NewArgs(b).Ready?
    ensures VmOf(b) == MachineOf(AllArgs(b), b.cpus, b.memory)
  {
    NewArgsExactly(b);
    ConfiguredOfArgs(NewArgs(b).args, b.cpus, b.memory);
  }

  // Main result. Whenever the checks pass, reading memory as C does gives the
  // machine exactly the resources asked for, the rootfs, the build context and
  // the output directory each under its own tag, and the script to execute.
  lemma ConfigurationReadsBack(b: VmBuild)
    requires NewArgs(b).Ready?
    ensures var vm := VmOf(b);
            && vm.cpus == b.cpus && vm.memory == b.memory
            && vm.shares == [Share("/dev/root", b.rootfs.text), Share("openshell-context", b.context.text),
                             Share("openshell-output", b.outputDir.text)]
            && vm.workdir == "/" && vm.script == "/usr/local/bin/vm-build"
  {
    MachineOfBuild(b);
  }

  // Main result. The script gets exactly the Containerfile path, the tag and
  // the output name as arguments, and PATH, followed by the nameservers if
  // there are any, as environment.
  lemma ExecReadsBack(b: VmBuild)
    requires NewArgs(b).Ready?
    ensures VmOf(b).argv == ["/build/context/Containerfile", b.tag, b.outputFilename]
    ensures VmOf(b).env ==
              ["PATH=/bin:/usr/bin:/usr/local/bin:/sbin:/usr/sbin"]
              + if b.nameservers == [] then [] else ["OPENSHELL_VM_DNS=" + JoinAddresses(b.nameservers)]
  {
    MachineOfBuild(b);
    PathText();
    VariableText(JoinAddresses(b.nameservers));
  }

  lemma PathText()
    ensures VM_PATH == "PATH=/bin:/usr/bin:/usr/local/bin:/sbin:/usr/sbin"
  {
  }

  lemma VariableText(value: string)
    ensures VM_DNS_ENV + "=" + value == "OPENSHELL_VM_DNS=" + value
  {
    assert VM_DNS_ENV + "=" == "OPENSHELL_VM_DNS=";
  }

  // ---- where guest paths lead --------------------------------------------

  function DirOf(shares: seq<Share>, tag: string): Option<string> {
    if shares == [] then None
    else if shares[0].tag == tag then Some(shares[0].dir)
    else DirOf(shares[1..], tag)
  }

  // The guest's mounts: the kernel takes the root share, the script mounts the
  // other two. The host path of a file under `at`.
  function Under(dir: Option<string>, at: string, path: string): Option<string>
    requires at <= path
  {
    if dir == None then None else Some(dir.value + "/" + path[|at|..])
  }

  function HostPathOf(vm: Vm, path: string): Option<string> {
    if "/build/context/" <= path then Under(DirOf(vm.shares, "openshell-context"), "/build/context/", path)
    else if "/build/output/" <= path then Under(DirOf(vm.shares, "openshell-output"), "/build/output/", path)
    else if "/" <= path then Under(DirOf(vm.shares, "/dev/root"), "/", path)
    else None
  }

  lemma DirOfThree(x: Share, y: Share, z: Share)
    requires x.tag != y.tag && x.tag != z.tag && y.tag != z.tag
    ensures var s := [x, y, z];
            DirOf(s, x.tag) == Some(x.dir) && DirOf(s, y.tag) == Some(y.dir) && DirOf(s, z.tag) == Some(z.dir)
  {
    var s := [x, y, z];
    assert s[1..] == [y, z] && [y, z][1..] == [z];
    assert DirOf([z], z.tag) == Some(z.dir);
    assert DirOf([y, z], z.tag) == DirOf([z], z.tag);
  }

  lemma TagsDiffer()
    ensures "/dev/root" != "openshell-context" && "/dev/root" != "openshell-output"
    ensures "openshell-context" != "openshell-output"
  {
    assert "/dev/root"[0] == '/' && "openshell-context"[10] == 'c' && "openshell-output"[10] == 'o';
  }

  // The script's own name for the tarball it writes.
  function GuestTarPath(name: string): string {
    "/build/output/" + name
  }

  // Main result. Through the shares as mounted, the Containerfile the script
  // builds from is the one in the build context, the script itself lies in the
  // rootfs, and its tarball is the output asked for.
  lemma GuestPathsLeadBack(b: VmBuild)
    requires NewArgs(b).Ready?
    ensures var vm := VmOf(b);
            && |vm.argv| == 3
            && HostPathOf(vm, vm.argv[0]) == Some(b.context.text + "/" + "Containerfile")
            && HostPathOf(vm, vm.script) == Some(b.rootfs.text + "/" + "usr/local/bin/vm-build")
            && HostPathOf(vm, GuestTarPath(vm.argv[2])) == Some(b.outputDir.text + "/" + b.outputFilename)
  {
    ConfigurationReadsBack(b);
    ExecReadsBack(b);
    MountedPaths(VmOf(b), b.rootfs.text, b.context.text, b.outputDir.text, b.outputFilename);
  }

  lemma MountedPaths(vm: Vm, r: string, c: string, o: string, name: string)
    requires vm.shares == [Share("/dev/root", r), Share("openshell-context", c), Share("openshell-output", o)]
    ensures HostPathOf(vm, "/build/context/Containerfile") == Some(c + "/" + "Containerfile")
    ensures HostPathOf(vm, "/usr/local/bin/vm-build") == Some(r + "/" + "usr/local/bin/vm-build")
    ensures HostPathOf(vm, GuestTarPath(name)) == Some(o + "/" + name)
  {
    TagsDiffer();
    DirOfThree(vm.shares[0], vm.shares[1], vm.shares[2]);
    ContextPath();
    ScriptPath();
    OutputPath(name);
  }

  lemma ContextPath()
    ensures "/build/context/" <= "/build/context/Containerfile"
    ensures "/build/context/Containerfile"[15..] == "Containerfile"
  {
  }

  lemma ScriptPath()
    ensures var s := "/usr/local/bin/vm-build";
            !("/build/context/" <= s) && !("/build/output/" <= s) && "/" <= s && s[1..] == "usr/local/bin/vm-build"
  {
    assert "/usr/local/bin/vm-build"[1] == 'u' && "/build/context/"[1] == 'b' && "/build/output/"[1] == 'b';
  }

  lemma OutputPath(name: string)
    ensures var s := "/build/output/" + name;
            !("/build/context/" <= s) && "/build/output/" <= s && s[14..] == name
  {
    assert "/build/context/"[7] == 'c' && ("/build/output/" + name)[7] == 'o';
  }

  // ---- the guest script --------------------------------------------------

  // Field splitting of an unquoted expansion: space, tab and newline.
  predicate IsIfs(c: char) {
    c == ' ' || c == '\t' || c == '\n'
  }

  // The value of `name` in an environment, "" when it is not set.
  function EnvValue(env: seq<string>, name: string): string {
    if env == [] then ""
    else if name + "=" <= env[0] then env[0][|name| + 1..]
    else EnvValue(env[1..], name)
  }

  // The loop that writes /run/resolv.conf; None when the variable is empty and
  // the rootfs's own file stays in place.
  method WriteResolvConf(env: seq<string>) returns (file: Option<string>)
    ensures file == GuestResolvConf(env)
  {
    var value := EnvValue(env, "OPENSHELL_VM_DNS");
    if value == "" {
      return None;
    }
    var words := Words(value, IsIfs);
    var text := "";
    for i := 0 to |words|
      invariant text + ResolvConfText(words[i..]) == ResolvConfText(words)
    {
      TextStep(text, words, i);
      text := text + (NameserverLine(words[i]) + "\n");
    }
    assert text + ResolvConfText([]) == text;
    return Some(text);
  }

  lemma TextStep(text: string, words: seq<string>, i: nat)
    requires i < |words|
    ensures text + (NameserverLine(words[i]) + "\n") + ResolvConfText(words[i + 1..])
            == text + ResolvConfText(words[i..])
  {
    assert words[i..][1..] == words[i + 1..];
  }

  function GuestResolvConf(env: seq<string>): Option<string> {
    var value := EnvValue(env, "OPENSHELL_VM_DNS");
    if value == "" then None else Some(ResolvConfText(Words(value, IsIfs)))
  }

  // The shell splits the joined list back into its texts. None of their
  // characters is a pattern character, so no name is expanded.
  lemma JoinedListSplits(addrs: seq<IpAddr>)
    ensures Words(JoinAddresses(addrs), IsIfs) == Texts(addrs)
    ensures addrs != [] ==> JoinAddresses(addrs) != ""
  {
    AddressesHoldNoNul(addrs);
    var xs := Texts(addrs);
    forall i | 0 <= i < |xs| ensures Free(xs[i], IsIfs) {
      forall k | 0 <= k < |xs[i]| ensures !IsIfs(xs[i][k]) {
        assert AddressChar(xs[i][k]);
      }
    }
    WordsJoin(xs, ' ', IsIfs);
    assert addrs != [] ==> xs[0] != "";
  }

  lemma GuestSeesValue(path: string, value: string)
    requires path != "" && path[0] != 'O'
    ensures EnvValue([path, "OPENSHELL_VM_DNS=" + value], "OPENSHELL_VM_DNS") == value
    ensures EnvValue([path], "OPENSHELL_VM_DNS") == ""
  {
    var name := "OPENSHELL_VM_DNS";
    assert name + "=" == "OPENSHELL_VM_DNS=" && (name + "=")[0] == 'O';
    var entry := "OPENSHELL_VM_DNS=" + value;
    assert name + "=" <= entry && entry[|name| + 1..] == value;
    assert [path, entry][1..] == [entry];
  }

  // Main result, every stage concrete: the nameservers of a build, printed,
  // joined, laid out in memory, read back as an environment, split by the
  // guest shell, written one line each and parsed as a resolver would, are the
  // same list in the same order; without any, the guest's file is left alone.
  lemma NameserversReachTheGuest(b: VmBuild)
    requires NewArgs(b).Ready?
    ensures var file := GuestResolvConf(VmOf(b).env);
            if b.nameservers == [] then file == None
            else file.Some? && ParseResolvConf(file.value) == b.nameservers
  {
    ExecReadsBack(b);
    PathText();
    assert VM_PATH[0] == 'P';
    EnvironmentReachesTheGuest(VmOf(b).env, VM_PATH, b.nameservers);
  }

  lemma EnvironmentReachesTheGuest(env: seq<string>, path: string, addrs: seq<IpAddr>)
    requires path != "" && path[0] != 'O'
    requires env == [path] + if addrs == [] then [] else ["OPENSHELL_VM_DNS=" + JoinAddresses(addrs)]
    ensures var file := GuestResolvConf(env);
            if addrs == [] then file == None else file.Some? && ParseResolvConf(file.value) == addrs
  {
    GuestSeesValue(path, JoinAddresses(addrs));
    if addrs != [] {
      assert env == [path, "OPENSHELL_VM_DNS=" + JoinAddresses(addrs)];
      JoinedListSplits(addrs);
      ResolvConfReadsBack(addrs);
    }
  }
}
