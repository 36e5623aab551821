// Entering the VM in a forked child and reaping it: the child's calls into
// libkrun, the status it leaves, and what the parent reports.
module VmProcess {
  import opened Text
  import opened HandOff
  import F = ForkSafety

  const EXIT_SETUP_FAILED := 119
  const EXIT_ENTER_FAILED := 118

  // ---- the child ---------------------------------------------------------

  // Signals that end a process; 127 is none: in a status it marks a stop.
  type Signal = n: nat | 1 <= n <= 126 witness 1

  // How a process ends.
  datatype Fate = Exited(code: int) | Killed(signal: Signal, core: bool)

  // libkrun takes the process over when it enters the VM, and it ends with the
  // workload; otherwise the call returns.
  datatype Start = Refused(ret: int) | Entered(fate: Fate)

  type Returns = s: seq<int> | |s| == 6 witness [0, 0, 0, 0, 0, 0]

  // What libkrun answers: the context, the six configuration calls, the entry.
  datatype Libkrun = Libkrun(ctx: int, rets: Returns, start: Start)

  predicate Accepted(k: Libkrun) {
    k.ctx >= 0 && forall i | 0 <= i < 6 :: k.rets[i] >= 0
  }

  // The child's whole life after the fork: it never returns to the caller.
  // All six configuration calls are made before the first result is looked at.
  method EnterVm(args: Args, cpus: nat, memory: nat, k: Libkrun) returns (fate: Fate, calls: seq<KrunCall>)
    ensures fate == ChildFate(k)
    ensures calls == ChildCalls(args, cpus, memory, k)
  {
    calls := [CreateCtx];
    if k.ctx < 0 {
      return Exited(EXIT_SETUP_FAILED), calls;
    }
    calls := calls + Configuration(args, cpus, memory);
    for i := 0 to 6
      invariant forall j | 0 <= j < i :: k.rets[j] >= 0
    {
      if k.rets[i] < 0 {
        return Exited(EXIT_SETUP_FAILED), calls;
      }
    }
    calls := calls + [StartEnter];
    match k.start
    case Refused(_) => fate := Exited(EXIT_ENTER_FAILED);
    case Entered(end) => fate := end;
  }

  function ChildCalls(args: Args, cpus: nat, memory: nat, k: Libkrun): seq<KrunCall> {
    [CreateCtx] + (if k.ctx < 0 then [] else Configuration(args, cpus, memory))
    + (if Accepted(k) then [StartEnter] else [])
  }

  function ChildFate(k: Libkrun): Fate {
    if !Accepted(k) then Exited(EXIT_SETUP_FAILED)
    else
      match k.start
      case Refused(_) => Exited(EXIT_ENTER_FAILED)
      case Entered(end) => end
  }

  // ---- the wait status ---------------------------------------------------

  // As the kernel encodes it: the low byte of the exit code above, the signal
  // and the core flag below.
  function StatusOf(fate: Fate): nat {
    match fate
    case Exited(code) => code % 256 * 256
    case Killed(signal, core) => signal % 128 + if core then 128 else 0
  }

  predicate WifSignaled(status: nat) {
    status % 128 != 0 && status % 128 != 127
  }

  function WexitStatus(status: nat): nat {
    status / 256 % 256
  }

  lemma StatusReadsBack(fate: Fate)
    ensures WifSignaled(StatusOf(fate)) <==> fate.Killed?
    ensures fate.Exited? ==> WexitStatus(StatusOf(fate)) == fate.code % 256
  {
  }

  // ---- the parent --------------------------------------------------------

  datatype Error =
    | Rejected(args: ArgsError)
    | ThreadsUnreadable
    | MultiThreaded(threads: int)
    | ForkFailed
    | WaitFailed
    | SetupFailed
    | EnterFailed
    | Signaled
    | ExitCode(code: nat)

  datatype Result = Success | Failure(error: Error)

  datatype Reply = Interrupted | WaitError | Reaped(status: nat)

  // The answers waitpid is about to give.
  class Kernel {
    var replies: seq<Reply>

    constructor (replies: seq<Reply>)
      ensures this.replies == replies
    {
      this.replies := replies;
    }

    method WaitPid() returns (r: Reply)
      requires replies != []
      modifies this
      ensures r == old(replies)[0] && replies == old(replies)[1..]
    {
      r := replies[0];
      replies := replies[1..];
    }
  }

  // The first answer that is not an interruption; there is one, since only
  // finitely many signals arrive.
  function Answered(replies: seq<Reply>): Reply
    requires exists i :: 0 <= i < |replies| && replies[i] != Interrupted
  {
    if replies[0] != Interrupted then replies[0]
    else
      var i :| 0 <= i < |replies| && replies[i] != Interrupted;
      assert replies[1..][i - 1] == replies[i];
      Answered(replies[1..])
  }

  function Reported(r: Reply): Result {
    match r
    case Interrupted => Failure(WaitFailed)
    case WaitError => Failure(WaitFailed)
    case Reaped(status) =>
      if WifSignaled(status) then Failure(Signaled)
      else if WexitStatus(status) == 0 then Success
      else if WexitStatus(status) == EXIT_SETUP_FAILED then Failure(SetupFailed)
      else if WexitStatus(status) == EXIT_ENTER_FAILED then Failure(EnterFailed)
      else Failure(ExitCode(WexitStatus(status)))
  }

  method WaitFor(kernel: Kernel) returns (result: Result)
    requires exists i :: 0 <= i < |kernel.replies| && kernel.replies[i] != Interrupted
    modifies kernel
    ensures result == Reported(Answered(old(kernel.replies)))
  {
    var status := 0;
    while true
      invariant exists i :: 0 <= i < |kernel.replies| && kernel.replies[i] != Interrupted
      invariant Answered(kernel.replies) == Answered(old(kernel.replies))
      decreases |kernel.replies|
    {
      ghost var i :| 0 <= i < |kernel.replies| && kernel.replies[i] != Interrupted;
      ghost var before := kernel.replies;
      var r := kernel.WaitPid();
      match r
      case Interrupted =>
        assert kernel.replies[i - 1] == before[i];
      case WaitError =>
        return Failure(WaitFailed);
      case Reaped(s) =>
        status := s;
        break;
    }
    if WifSignaled(status) {
      return Failure(Signaled);
    }
    var code := WexitStatus(status);
    if code == 0 {
      result := Success;
    } else if code == EXIT_SETUP_FAILED {
      result := Failure(SetupFailed);
    } else if code == EXIT_ENTER_FAILED {
      result := Failure(EnterFailed);
    } else {
      result := Failure(ExitCode(code));
    }
  }

  // The count of the process's threads, read only on macOS.
  datatype Threads = NotMacOs | Unreadable | Counted(count: int)

  function CheckSingleThreaded(t: Threads): Option<Error> {
    match t
    case NotMacOs => None
    case Unreadable => Some(ThreadsUnreadable)
    case Counted(n) => if n > 1 then Some(MultiThreaded(n)) else None
  }

  // Everything outside the program that a run meets.
  datatype Outside = Outside(threads: Threads, forkFails: bool, krun: Libkrun, interruptions: nat, waitFails: bool)

  // One run: the parent's result, and the child's fate if there was a child.
  method Run(b: VmBuild, o: Outside) returns (result: Result, child: Option<Fate>, calls: seq<KrunCall>)
    ensures result == RunResult(b, o)
    ensures child == if NewArgs(b).Ready? && CheckSingleThreaded(o.threads).None? && !o.forkFails
                     then Some(ChildFate(o.krun)) else None
    ensures calls == if child.Some? then ChildCalls(NewArgs(b).args, b.cpus, b.memory, o.krun) else []
  {
    child, calls := None, [];
    var args := NewArgs(b);
    if args.Rejected? {
      return Failure(Error.Rejected(args.error)), None, [];
    }
    var check := CheckSingleThreaded(o.threads);
    if check.Some? {
      return Failure(check.value), None, [];
    }
    if o.forkFails {
      return Failure(ForkFailed), None, [];
    }
    var fate;
    fate, calls := EnterVm(args.args, b.cpus, b.memory, o.krun);
    child := Some(fate);
    var last := if o.waitFails then WaitError else Reaped(StatusOf(fate));
    var kernel := new Kernel(seq(o.interruptions, i => Interrupted) + [last]);
    assert kernel.replies[o.interruptions] == last;
    AnsweredAfter(o.interruptions, last);
    result := WaitFor(kernel);
  }

  lemma {:induction false} AnsweredAfter(n: nat, last: Reply)
    requires last != Interrupted
    ensures var r := seq(n, i => Interrupted) + [last];
            r[n] == last && Answered(r) == last
  {
    var r := seq(n, i => Interrupted) + [last];
    assert r[n] == last;
    if n > 0 {
      AnsweredAfter(n - 1, last);
      assert r[1..] == seq(n - 1, i => Interrupted) + [last];
    }
  }

  function RunResult(b: VmBuild, o: Outside): Result {
    match NewArgs(b)
    case Rejected(e) => Failure(Error.Rejected(e))
    case Ready(_) =>
      match CheckSingleThreaded(o.threads)
      case Some(e) => Failure(e)
      case None =>
        if o.forkFails then Failure(ForkFailed)
        else Reported(if o.waitFails then WaitError else Reaped(StatusOf(ChildFate(o.krun))))
  }

  // The run got as far as having a child reaped.
  predicate ChildReaped(b: VmBuild, o: Outside) {
    NewArgs(b).Ready? && CheckSingleThreaded(o.threads).None? && !o.forkFails && !o.waitFails
  }

  predicate EnteredVm(k: Libkrun) {
    Accepted(k) && k.start.Entered?
  }

  lemma ReportedExactly(fate: Fate)
    ensures var r := Reported(Reaped(StatusOf(fate)));
            r == if fate.Killed? then Failure(Signaled)
                 else if fate.code % 256 == 0 then Success
                 else if fate.code % 256 == 119 then Failure(SetupFailed)
                 else if fate.code % 256 == 118 then Failure(EnterFailed)
                 else Failure(ExitCode(fate.code % 256))
  {
    StatusReadsBack(fate);
  }

  // What a result says about the child, in both directions: a workload exit
  // code is reported unchanged, except that 118 and 119 cannot be told from
  // libkrun's own failures.
  ghost predicate Tells(r: Result, k: Libkrun) {
    var workload := EnteredVm(k) && k.start.fate.Exited?;
    && (r == Success <==> workload && k.start.fate.code % 256 == 0)
    && (r == Failure(Signaled) <==> EnteredVm(k) && k.start.fate.Killed?)
    && (r == Failure(SetupFailed) <==> !Accepted(k) || (workload && k.start.fate.code % 256 == 119))
    && (r == Failure(EnterFailed) <==>
          (Accepted(k) && k.start.Refused?) || (workload && k.start.fate.code % 256 == 118))
    && (forall c :: r == Failure(ExitCode(c)) <==>
                      workload && c == k.start.fate.code % 256 && c != 0 && c != 118 && c != 119)
  }

  lemma ReapedTells(k: Libkrun)
    ensures Tells(Reported(Reaped(StatusOf(ChildFate(k)))), k)
  {
    ReportedExactly(ChildFate(k));
  }

  // Main result. Once a child is reaped, the parent's result tells exactly
  // what became of it: success means every call succeeded, the VM was entered
  // and the workload exited 0.
  lemma RunExactly(b: VmBuild, o: Outside)
    requires ChildReaped(b, o)
    ensures Tells(RunResult(b, o), o.krun)
  {
    ReapedTells(o.krun);
  }

  // The VM was entered and its workload exited 0.
  predicate WorkloadSucceeded(k: Libkrun) {
    EnteredVm(k) && k.start.fate.Exited? && k.start.fate.code % 256 == 0
  }

  // All that success takes, and all it says.
  lemma SuccessExactly(b: VmBuild, o: Outside)
    ensures RunResult(b, o) == Success <==> ChildReaped(b, o) && WorkloadSucceeded(o.krun)
  {
    NoChildNoSuccess(b, o);
    if ChildReaped(b, o) {
      RunExactly(b, o);
    }
  }

  // A machine that is entered is the one the build describes, and it is told
  // nothing after that.
  lemma EnteredAsConfigured(b: VmBuild, k: Libkrun)
    requires NewArgs(b).Ready? && Accepted(k)
    ensures var a := NewArgs(b).args; var calls := ChildCalls(a, b.cpus, b.memory, k);
            && calls[|calls| - 1] == StartEnter && HandOff.Configured(MemoryOf(a), BLANK, calls) == VmOf(b)
  {
    var a := NewArgs(b).args;
    var c := Configuration(a, b.cpus, b.memory);
    ConfiguredAppend(MemoryOf(a), BLANK, c, [StartEnter]);
    var calls := ChildCalls(a, b.cpus, b.memory, k);
    assert calls[1..] == c + [StartEnter] && [StartEnter][1..] == [];
  }

  lemma {:induction false} ConfiguredAppend(mem: Memory, vm: Vm, c: seq<KrunCall>, d: seq<KrunCall>)
    ensures HandOff.Configured(mem, vm, c + d) == HandOff.Configured(mem, HandOff.Configured(mem, vm, c), d)
    decreases |c|
  {
    if c == [] {
      assert c + d == d;
    } else {
      assert (c + d)[1..] == c[1..] + d;
      ConfiguredAppend(mem, Told(mem, vm, c[0]), c[1..], d);
    }
  }

  // Without a reaped child there is no success.
  lemma NoChildNoSuccess(b: VmBuild, o: Outside)
    ensures RunResult(b, o) == Success ==> ChildReaped(b, o)
    ensures o.threads.Counted? && o.threads.count > 1 ==> RunResult(b, o).Failure?
  {
  }

  // ---- the check and the fork --------------------------------------------

  // What reading the thread count of `p` gives.
  predicate Reads(t: Threads, p: F.Process) {
    t.Counted? ==> t.count == |p.threads|
  }

  // Whatever process the check lets through, and whatever the caller does
  // before the fork short of starting a thread: no lock is left behind.
  ghost predicate ForksSafely(t: Threads) {
    forall p, caller, before: seq<F.Move> |
      && F.OwnersLive(p) && caller in p.threads && Reads(t, p)
      && F.Runs(p, before) && (forall i | 0 <= i < |before| :: !before[i].Spawn?) ::
      F.AlwaysLive(F.Fork(F.AfterAll(p, before), caller))
  }

  lemma CountedForkIsSafe(t: Threads, p: F.Process, caller: nat, before: seq<F.Move>)
    requires t.Counted? && CheckSingleThreaded(t).None? && Reads(t, p)
    requires F.OwnersLive(p) && caller in p.threads
    requires F.Runs(p, before) && forall i | 0 <= i < |before| :: !before[i].Spawn?
    ensures F.AlwaysLive(F.Fork(F.AfterAll(p, before), caller))
  {
    var child := F.Fork(F.AfterAll(p, before), caller);
    forall later | F.Runs(child, later) ensures F.OwnersLive(F.AfterAll(child, later)) {
      F.ChildNeverWaitsOnTheDead(p, caller, before, later);
    }
  }

  // Two threads, one of which holds a lock while the other forks.
  lemma UncountedForkIsNot()
    ensures !ForksSafely(NotMacOs)
  {
    var p, none: seq<F.Move> := F.Process({0, 1}, map["heap" := 1], 2), [];
    assert Reads(NotMacOs, p) && F.OwnersLive(p) && F.Runs(p, none) && F.AfterAll(p, none) == p;
    F.ForkSafeExactly(p, 0);
    assert "heap" in p.holder && p.holder["heap"] != 0;
  }

  // The check passes on macOS with a count of at most one only; a count that
  // cannot be read fails it.
  lemma CheckPassesExactly(t: Threads)
    ensures CheckSingleThreaded(t) == None <==> t == NotMacOs || (t.Counted? && t.count <= 1)
    ensures t == Unreadable ==> CheckSingleThreaded(t) == Some(ThreadsUnreadable)
    ensures t.Counted? && t.count > 1 ==> CheckSingleThreaded(t) == Some(MultiThreaded(t.count))
  {
  }

  // Main result. A fork the check lets through is safe exactly where the check
  // counts threads, as it does on macOS; elsewhere it passes unseen.
  lemma CheckedForkIsSafe(t: Threads)
    requires CheckSingleThreaded(t).None?
    ensures ForksSafely(t) <==> t.Counted?
  {
    if t.Counted? {
      forall p, caller, before: seq<F.Move> |
        && F.OwnersLive(p) && caller in p.threads && Reads(t, p)
        && F.Runs(p, before) && (forall i | 0 <= i < |before| :: !before[i].Spawn?)
        ensures F.AlwaysLive(F.Fork(F.AfterAll(p, before), caller))
      {
        CountedForkIsSafe(t, p, caller, before);
      }
    } else {
      UncountedForkIsNot();
    }
  }
}
