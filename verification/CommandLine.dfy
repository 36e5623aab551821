// One run of the command: the checks, the selection of a backend and the
// build, in the order in which they change the host.
module CommandLine {
  import opened Text
  import opened Address
  import opened GuestKernel
  import opened OutputPaths
  import opened RootfsCache
  import CacheKey
  import Containerfile
  import Dns
  import HandOff
  import Installer
  import V = VmProcess

  // ---- the command line --------------------------------------------------

  datatype Runtime = Podman | Docker | MacOsContainer | Vm

  datatype Cli = Cli(tag: string, runtime: Runtime, from: string, copy: bool,
                     vmRootfs: Option<string>, vmOutput: Option<string>,
                     vmCpus: Option<CacheKey.Byte>, vmMemory: Option<HandOff.Word32>, vmDns: seq<IpAddr>)

  function GivenVmFlags(cli: Cli): seq<string> {
    (if cli.vmRootfs.Some? then ["--vm-rootfs"] else [])
    + (if cli.vmOutput.Some? then ["--vm-output"] else [])
    + (if cli.vmCpus.Some? then ["--vm-cpus"] else [])
    + (if cli.vmMemory.Some? then ["--vm-memory"] else [])
    + (if cli.vmDns != [] then ["--vm-dns"] else [])
  }

  // The flag complained about, if any.
  function CheckVmFlags(cli: Cli): Option<string> {
    if cli.runtime.Vm? || GivenVmFlags(cli) == [] then None else Some(GivenVmFlags(cli)[0])
  }

  // A VM flag without the VM is refused, the first of them by name; nothing
  // else is.
  lemma CheckVmFlagsExactly(cli: Cli)
    ensures CheckVmFlags(cli) ==
              if cli.runtime == Vm then None
              else if cli.vmRootfs.Some? then Some("--vm-rootfs")
              else if cli.vmOutput.Some? then Some("--vm-output")
              else if cli.vmCpus.Some? then Some("--vm-cpus")
              else if cli.vmMemory.Some? then Some("--vm-memory")
              else if cli.vmDns != [] then Some("--vm-dns")
              else None
  {
  }

  // ---- the host ----------------------------------------------------------

  datatype RootfsRef = Cached(version: string) | Given(path: string)

  datatype VmConfig = VmConfig(rootfs: RootfsRef, cpus: CacheKey.Byte, memory: HandOff.Word32, nameservers: seq<IpAddr>)

  datatype Selected = CliBackend | VmBackend(config: VmConfig, output: string) | NotSelected

  // What an engine found when it started; a VM also has its rootfs and the
  // build it was handed.
  datatype Started = Started(containerfile: string, context: map<string, string>,
                             rootfs: Option<Entry>, build: Option<HandOff.VmBuild>)

  // `ExitStatus::success`.
  predicate ExitsZero(fate: V.Fate) {
    fate.Exited? && fate.code % 256 == 0
  }

  const STAGED := "build-containerfile"
  const CONTAINERFILE := "Containerfile"

  // Where `--runtime vm` boots from and writes to.
  function OutputOf(cli: Cli): string {
    if cli.vmOutput.Some? then cli.vmOutput.value else VmOutputPath(cli.tag)
  }

  class Host {
    const bin: Binary
    const pid: nat
    const mayFail: bool
    const cliInPath: bool
    const vmSupported: bool
    const scutil: Option<string>
    const conf: Option<string>
    // Paths of the cache root and the build context, and the canonical form of
    // a path that has one.
    const cacheDir: string
    const contextDir: string
    const canonical: string -> HandOff.HostPath
    // What a VM build meets, and how a container engine's process ends.
    const outside: V.Outside
    const engineFate: V.Fate

    // The rootfs cache, directories the user may name, the build context, the
    // output directories made, and the engines started, oldest first.
    var cache: Root
    var userDirs: Root
    var context: map<string, string>
    var outputDirs: set<string>
    var engines: seq<Started>

    constructor (bin: Binary, pid: nat, mayFail: bool, cliInPath: bool, vmSupported: bool,
                 scutil: Option<string>, conf: Option<string>, cacheDir: string, contextDir: string,
                 canonical: string -> HandOff.HostPath, outside: V.Outside, engineFate: V.Fate,
                 cache: Root, userDirs: Root)
      ensures this.bin == bin && this.pid == pid && this.cache == cache && this.userDirs == userDirs
      ensures context == map[] && outputDirs == {} && engines == []
    {
      this.bin := bin;
      this.pid := pid;
      this.mayFail := mayFail;
      this.cliInPath := cliInPath;
      this.vmSupported := vmSupported;
      this.scutil := scutil;
      this.conf := conf;
      this.cacheDir, this.contextDir, this.canonical := cacheDir, contextDir, canonical;
      this.outside, this.engineFate := outside, engineFate;
      this.cache := cache;
      this.userDirs := userDirs;
      context, outputDirs, engines := map[], {}, [];
    }

    function RootfsOf(cli: Cli): RootfsRef {
      if cli.vmRootfs.Some? then Given(cli.vmRootfs.value) else Cached(bin.version)
    }

    function PathOf(r: RootfsRef): string {
      match r
      case Cached(v) => cacheDir + "/" + v
      case Given(p) => p
    }

    // The request handed to the VM: every path canonical, the output split
    // into directory and name.
    function BuildOf(tag: string, config: VmConfig, output: string): HandOff.VmBuild
      requires FileName(output).Some?
    {
      HandOff.VmBuild(canonical(PathOf(config.rootfs)), canonical(contextDir), canonical(OutputDir(output)),
                      FileName(output).value, tag, config.cpus, config.memory, config.nameservers)
    }

    function EntryAt(r: RootfsRef): Option<Entry>
      reads this`cache, this`userDirs
    {
      match r
      case Cached(v) => if v in cache then Some(cache[v]) else None
      case Given(p) => if p in userDirs then Some(userDirs[p]) else None
    }

    predicate CheckRootfs(r: RootfsRef)
      reads this`cache, this`userDirs
    {
      EntryAt(r).Some? && EntryAt(r).value.Dir? && TreeBoots(EntryAt(r).value.tree)
    }

    // Everything that must have passed before the cache may be written.
    predicate MayExtract(cli: Cli) {
      && CheckVmFlags(cli) == None && cli.runtime.Vm? && vmSupported
      && (forall a | a in cli.vmDns :: IsReachable(a)) && cli.vmRootfs == None
    }

    // The check passes exactly when the guest's script would run.
    lemma CheckPassesExactly(r: RootfsRef)
      ensures CheckRootfs(r) <==> EntryAt(r).Some? && Runs(EntryAt(r).value)
    {
      if EntryAt(r).Some? && EntryAt(r).value.Dir? {
        BootsExactly(EntryAt(r).value.tree);
      }
    }

    // What a selected VM backend holds: the rootfs asked for or this version's,
    // one whose script runs; the resources asked for or two CPUs and 4096 MiB;
    // the nameservers chosen; the output asked for or the default name.
    predicate Resolved(cli: Cli, s: Selected)
      requires s.VmBackend?
      reads this`cache, this`userDirs
    {
      && s.config.rootfs == RootfsOf(cli)
      && EntryAt(s.config.rootfs).Some? && Runs(EntryAt(s.config.rootfs).value) && CheckRootfs(s.config.rootfs)
      && Dns.VmNameservers(cli.vmDns, scutil, conf) == Dns.Chosen(s.config.nameservers)
      && s.config.cpus == (if cli.vmCpus.Some? then cli.vmCpus.value else 2)
      && s.config.memory == (if cli.vmMemory.Some? then cli.vmMemory.value else 4096)
      && s.output == OutputOf(cli)
    }

    // The nameservers are settled before the rootfs, which may cost an
    // extraction, and the rootfs is checked before anything else.
    method SelectVm(cli: Cli) returns (s: Selected)
      requires CacheKey.ValidVersion(bin.version)
      modifies this`cache
      ensures cache != old(cache) ==> (forall a | a in cli.vmDns :: IsReachable(a)) && cli.vmRootfs == None
      ensures s.VmBackend? ==> Resolved(cli, s)
      ensures !s.CliBackend?
      ensures cli.vmRootfs.Some? ==>
                (s.VmBackend? <==> (forall a | a in cli.vmDns :: IsReachable(a))
                                   && EntryAt(Given(cli.vmRootfs.value)).Some?
                                   && Runs(EntryAt(Given(cli.vmRootfs.value)).value))
    {
      Dns.VmNameserversMeaning(cli.vmDns, scutil, conf);
      var choice := Dns.VmNameservers(cli.vmDns, scutil, conf);
      if choice.Unreachable? {
        return NotSelected;
      }
      var rootfs;
      if cli.vmRootfs.Some? {
        rootfs := Given(cli.vmRootfs.value);
      } else {
        var p := new Installer.Process(bin, pid, mayFail, mayFail, cache);
        var outcome := p.Install();
        cache := p.root;
        if outcome.Failed? {
          return NotSelected;
        }
        rootfs := Cached(outcome.dir);
      }
      CheckPassesExactly(rootfs);
      if !CheckRootfs(rootfs) {
        return NotSelected;
      }
      var cpus := if cli.vmCpus.Some? then cli.vmCpus.value else 2;
      var memory := if cli.vmMemory.Some? then cli.vmMemory.value else 4096;
      return VmBackend(VmConfig(rootfs, cpus, memory, choice.addrs), OutputOf(cli));
    }

    method SelectRuntime(cli: Cli) returns (s: Selected)
      requires CacheKey.ValidVersion(bin.version)
      modifies this`cache
      ensures cache != old(cache) ==> MayExtract(cli)
      ensures s.VmBackend? ==> Resolved(cli, s) && cli.runtime.Vm?
      ensures s.CliBackend? ==> !cli.runtime.Vm? && cliInPath
    {
      if !cli.runtime.Vm? {
        return if cliInPath then CliBackend else NotSelected;
      }
      if !vmSupported {
        return NotSelected;
      }
      s := SelectVm(cli);
    }

    // The library's `build`: the rootfs is checked before anything is written.
    method BuildInVm(text: string, tag: string, config: VmConfig, output: string) returns (ok: bool)
      modifies this`context, this`outputDirs, this`engines
      ensures !CheckRootfs(config.rootfs) ==>
                context == old(context) && outputDirs == old(outputDirs) && engines == old(engines)
      ensures context == old(context) || context == old(context)[CONTAINERFILE := text]
      ensures engines != old(engines) ==>
                && FileName(output).Some? && OutputDir(output) in outputDirs
                && HandOff.NewArgs(BuildOf(tag, config, output)).Ready?
                && engines == old(engines) + [Started(text, old(context)[CONTAINERFILE := text], EntryAt(config.rootfs),
                                                      Some(BuildOf(tag, config, output)))]
                && (ok <==> !outside.waitFails && V.WorkloadSucceeded(outside.krun))
      ensures ok ==> engines != old(engines)
      ensures outputDirs != old(outputDirs) ==>
                FileName(output).Some? && outputDirs == old(outputDirs) + {OutputDir(output)}
    {
      if !CheckRootfs(config.rootfs) {
        return false;
      }
      var fail: bool := *;
      if mayFail && fail {
        return false;
      }
      context := context[CONTAINERFILE := text];
      if FileName(output).None? {
        return false;
      }
      fail := *;
      if mayFail && fail {
        return false;
      }
      outputDirs := outputDirs + {OutputDir(output)};
      var build := BuildOf(tag, config, output);
      fail := *;
      if mayFail && fail {
        return false;
      }
      var result, child, _ := V.Run(build, outside);
      V.SuccessExactly(build, outside);
      if child.Some? {
        engines := engines + [Started(text, context, EntryAt(config.rootfs), Some(build))];
      }
      return result == V.Success;
    }

    // A fresh context, the generated text, its staged copy, then the engine.
    method Build(cli: Cli, s: Selected) returns (ok: bool)
      requires !s.NotSelected?
      modifies this`context, this`outputDirs, this`engines
      ensures engines == old(engines) || (|engines| == |old(engines)| + 1 && engines[..|old(engines)|] == old(engines))
      ensures engines != old(engines) ==> Faithful(cli, engines[|engines| - 1])
      ensures engines != old(engines) && s.VmBackend? ==>
                var e := engines[|engines| - 1];
                && e.rootfs == EntryAt(s.config.rootfs) && CheckRootfs(s.config.rootfs) && FileName(s.output).Some?
                && OutputDir(s.output) in outputDirs
                && e.build == Some(BuildOf(cli.tag, s.config, s.output)) && HandOff.NewArgs(e.build.value).Ready?
                && (ok <==> !outside.waitFails && V.WorkloadSucceeded(outside.krun))
      ensures engines != old(engines) && s.CliBackend? ==>
                && engines[|engines| - 1].rootfs == None && engines[|engines| - 1].build == None
                && (ok <==> ExitsZero(engineFate))
      ensures outputDirs != old(outputDirs) ==> s.VmBackend? && CheckRootfs(s.config.rootfs)
      ensures context != old(context) && CONTAINERFILE in context ==> s.VmBackend? && CheckRootfs(s.config.rootfs)
      ensures ok ==> engines != old(engines)
    {
      var fail: bool := *;
      if mayFail && fail {
        return false;
      }
      context := map[];
      var generated := Containerfile.Generate(cli.from, cli.copy);
      if generated.InvalidImageReference? {
        return false;
      }
      if cli.copy {
        fail := *;
        if mayFail && fail {
          return false;
        }
        context := context[STAGED := generated.text];
      }
      match s
      case CliBackend =>
        fail := *;
        if mayFail && fail {
          return false;
        }
        engines := engines + [Started(generated.text, context, None, None)];
        ok := ExitsZero(engineFate);
      case VmBackend(config, output) =>
        ok := BuildInVm(generated.text, cli.tag, config, output);
    }

    // The whole command.
    method RunCommand(cli: Cli) returns (ok: bool)
      requires CacheKey.ValidVersion(bin.version)
      modifies this
      ensures userDirs == old(userDirs)
      ensures cache != old(cache) ==> MayExtract(cli)
      ensures CheckVmFlags(cli).Some? ==>
                context == old(context) && outputDirs == old(outputDirs) && engines == old(engines)
      ensures engines == old(engines) || (|engines| == |old(engines)| + 1 && engines[..|old(engines)|] == old(engines))
      ensures engines != old(engines) && !cli.runtime.Vm? ==>
                var e := engines[|engines| - 1];
                && Faithful(cli, e) && e.rootfs == None && e.build == None
                && (ok <==> engineFate.Exited? && engineFate.code % 256 == 0)
      ensures engines != old(engines) && cli.runtime.Vm? ==>
                var e := engines[|engines| - 1];
                && Faithful(cli, e) && e.build.Some? && AsAsked(cli, e.build.value)
                && e.rootfs == EntryAt(RootfsOf(cli)) && e.rootfs.Some? && Runs(e.rootfs.value)
                && (ok <==> !outside.waitFails && V.WorkloadSucceeded(outside.krun))
      ensures outputDirs != old(outputDirs) ==> cli.runtime.Vm? && RootfsRuns(cli)
      ensures context != old(context) && "Containerfile" in context ==> cli.runtime.Vm? && RootfsRuns(cli)
      ensures ok ==> engines != old(engines)
    {
      if CheckVmFlags(cli).Some? {
        return false;
      }
      var s := SelectRuntime(cli);
      if s.NotSelected? {
        return false;
      }
      if s.VmBackend? {
        CheckPassesExactly(s.config.rootfs);
      }
      ok := Build(cli, s);
    }

    // The rootfs asked for, or this version's, is there and its script runs.
    predicate RootfsRuns(cli: Cli)
      reads this`cache, this`userDirs
    {
      EntryAt(RootfsOf(cli)).Some? && Runs(EntryAt(RootfsOf(cli)).value)
    }

    // The build handed to the VM is the one asked for, and libkrun takes it.
    ghost predicate AsAsked(cli: Cli, b: HandOff.VmBuild) {
      && HandOff.NewArgs(b).Ready? && b.tag == cli.tag
      && FileName(OutputOf(cli)) == Some(b.outputFilename)
      && b.outputDir == canonical(OutputDir(OutputOf(cli)))
      && b.context == canonical(contextDir)
      && b.rootfs == canonical(if cli.vmRootfs.Some? then cli.vmRootfs.value else cacheDir + "/" + bin.version)
      && b.cpus == (if cli.vmCpus.Some? then cli.vmCpus.value else 2)
      && b.memory == (if cli.vmMemory.Some? then cli.vmMemory.value else 4096)
      && Dns.VmNameservers(cli.vmDns, scutil, conf) == Dns.Chosen(b.nameservers)
    }
  }

  // An engine that reads the generated text, in a context that holds the
  // staged copy exactly when it was asked for, byte for byte that text; a VM
  // reads the text from the context.
  ghost predicate Faithful(cli: Cli, e: Started) {
    var g := Containerfile.Generate(cli.from, cli.copy);
    && g.Ok? && e.containerfile == g.text
    && ("build-containerfile" in e.context <==> cli.copy)
    && (cli.copy ==> e.context["build-containerfile"] == e.containerfile)
    && (e.rootfs.Some? ==> "Containerfile" in e.context && e.context["Containerfile"] == e.containerfile)
  }

  // Main result, from the command line into the guest. The machine has the
  // resources asked for. Its script lies in the rootfs asked for or the cached
  // one, and builds from the Containerfile in the build context. It gets the tag
  // asked for, the last component of the output asked for, or the default name
  // unchanged, and writes that file in the output directory. Its resolver file
  // reads as exactly the nameservers chosen.
  lemma GuestGetsWhatWasAsked(h: Host, cli: Cli, b: HandOff.VmBuild)
    requires h.AsAsked(cli, b)
    ensures var vm := HandOff.VmOf(b);
            && vm.cpus == (if cli.vmCpus.Some? then cli.vmCpus.value else 2)
            && vm.memory == (if cli.vmMemory.Some? then cli.vmMemory.value else 4096)
            && |vm.argv| == 3 && vm.argv[1] == cli.tag
            && (cli.vmOutput.Some? ==> Some(vm.argv[2]) == FileName(cli.vmOutput.value))
            && (cli.vmOutput == None ==> vm.argv[2] == VmOutputPath(cli.tag))
    ensures var vm, output := HandOff.VmOf(b), if cli.vmOutput.Some? then cli.vmOutput.value else VmOutputPath(cli.tag);
            var rootfs := if cli.vmRootfs.Some? then cli.vmRootfs.value else h.cacheDir + "/" + h.bin.version;
            && h.canonical(rootfs).Utf8? && h.canonical(h.contextDir).Utf8? && h.canonical(OutputDir(output)).Utf8?
            && HandOff.HostPathOf(vm, vm.script)
               == Some(HostTarPath(h.canonical(rootfs).text, "usr/local/bin/vm-build"))
            && HandOff.HostPathOf(vm, vm.argv[0]) == Some(HostTarPath(h.canonical(h.contextDir).text, "Containerfile"))
            && HandOff.HostPathOf(vm, HandOff.GuestTarPath(vm.argv[2]))
               == Some(HostTarPath(h.canonical(OutputDir(output)).text, vm.argv[2]))
    ensures var file := HandOff.GuestResolvConf(HandOff.VmOf(b).env);
            && file.Some?
            && Dns.VmNameservers(cli.vmDns, h.scutil, h.conf) == Dns.Chosen(Dns.ParseResolvConf(file.value))
  {
    HandOff.ConfigurationReadsBack(b);
    HandOff.ExecReadsBack(b);
    HandOff.GuestPathsLeadBack(b);
    HandOff.NewArgsExactly(b);
    DefaultNameIsTotal(cli.tag);
    HandOff.NameserversReachTheGuest(b);
    Dns.VmNameserversMeaning(cli.vmDns, h.scutil, h.conf);
  }

  // The default name is never why a build is refused.
  lemma DefaultNameIsAccepted(cli: Cli, b: HandOff.VmBuild)
    requires cli.vmOutput == None && FileName(OutputOf(cli)) == Some(b.outputFilename) && b.tag == cli.tag
    ensures HandOff.NewArgs(b).Rejected? <==>
              || !HandOff.PathFits(b.rootfs) || !HandOff.PathFits(b.context) || !HandOff.PathFits(b.outputDir)
              || HandOff.HasNul(cli.tag)
  {
    DefaultNameIsTotal(cli.tag);
    HandOff.NewArgsExactly(b);
  }

  // No dangling COPY: read back, the text the engine is given copies the
  // staged file exactly when that file is in the context.
  lemma NoDanglingCopy(cli: Cli, e: Started)
    requires Faithful(cli, e)
    ensures Containerfile.Read(e.containerfile).Some?
    ensures STAGED in e.context <==>
              exists target :: Containerfile.Copy(STAGED, target) in Containerfile.Read(e.containerfile).value
    ensures forall source, target | Containerfile.Copy(source, target) in Containerfile.Read(e.containerfile).value ::
              source in e.context
  {
    Containerfile.GeneratedReadsBack(cli.from, cli.copy);
    CopiesOfIntended(cli.from, cli.copy);
  }

  // The image holds, in the home directory, exactly the text it was built from.
  lemma ImageEmbedsItsContainerfile(cli: Cli, e: Started, home: string, files: Containerfile.Files)
    requires Faithful(cli, e)
    ensures var instrs := Containerfile.Read(e.containerfile);
            && instrs.Some?
            && Containerfile.Built(instrs.value, e.context, home, files) ==
                 Some(if cli.copy
                      then (files - {"/tmp/build-containerfile"})[home + "/Containerfile" := e.containerfile]
                      else files)
  {
    Containerfile.GeneratedReadsBack(cli.from, cli.copy);
    Containerfile.CopyEmbedsStaged(cli.from, cli.copy, e.context, home, files);
  }

  lemma CopiesOfIntended(image: string, copy: bool)
    ensures var i := Containerfile.Intended(image, copy);
            forall source, target :: Containerfile.Copy(source, target) in i <==>
              copy && source == STAGED && target == Containerfile.TARGET
  {
    var i := Containerfile.Intended(image, copy);
    if copy {
      assert i[3] == Containerfile.Copy(STAGED, Containerfile.TARGET);
    }
  }
}
