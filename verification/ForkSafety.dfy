// Why forking without exec is sound here: threads, locks and what a fork
// keeps of them.
module ForkSafety {

  // Thread identifiers are never used again: all are below `next`.
  datatype Process = Process(threads: set<nat>, holder: map<string, nat>, next: nat)

  datatype Move = Acquire(t: nat, lock: string) | Release(t: nat, lock: string) | Spawn(t: nat) | Leave(t: nat)

  // A thread waits to acquire a held lock, and gives its locks back before it
  // ends.
  predicate Enabled(p: Process, m: Move) {
    m.t in p.threads
    && match m
       case Acquire(t, lock) => lock !in p.holder
       case Release(t, lock) => lock in p.holder && p.holder[lock] == t
       case Spawn(t) => true
       case Leave(t) => forall l | l in p.holder :: p.holder[l] != t
  }

  function After(p: Process, m: Move): Process {
    match m
    case Acquire(t, lock) => p.(holder := p.holder[lock := t])
    case Release(t, lock) => p.(holder := p.holder - {lock})
    case Spawn(t) => p.(threads := p.threads + {p.next}, next := p.next + 1)
    case Leave(t) => p.(threads := p.threads - {t})
  }

  predicate Runs(p: Process, moves: seq<Move>)
    decreases |moves|
  {
    moves == [] || (Enabled(p, moves[0]) && Runs(After(p, moves[0]), moves[1..]))
  }

  function AfterAll(p: Process, moves: seq<Move>): Process
    decreases |moves|
  {
    if moves == [] then p else AfterAll(After(p, moves[0]), moves[1..])
  }

  // The calling thread alone survives; every lock stays as it was.
  function Fork(p: Process, caller: nat): Process {
    p.(threads := {caller})
  }

  predicate OwnersLive(p: Process) {
    forall l | l in p.holder :: p.holder[l] in p.threads
  }

  predicate Sane(p: Process) {
    forall t | t in p.threads :: t < p.next
  }

  // The process has no thread besides those counted.
  predicate AtMostOne(p: Process) {
    |p.threads| <= 1
  }

  lemma {:induction false} OwnersStayLive(p: Process, moves: seq<Move>)
    requires Runs(p, moves) && OwnersLive(p)
    ensures OwnersLive(AfterAll(p, moves))
    decreases |moves|
  {
    if moves != [] {
      OwnersStayLive(After(p, moves[0]), moves[1..]);
    }
  }

  lemma {:induction false} StaysAlone(p: Process, caller: nat, moves: seq<Move>)
    requires p.threads <= {caller} && Runs(p, moves)
    requires forall i | 0 <= i < |moves| :: !moves[i].Spawn?
    ensures AfterAll(p, moves).threads <= {caller}
    decreases |moves|
  {
    if moves != [] {
      assert forall i | 0 <= i < |moves| - 1 :: moves[1..][i] == moves[i + 1];
      StaysAlone(After(p, moves[0]), caller, moves[1..]);
    }
  }

  lemma OnlyOne(threads: set<nat>, caller: nat)
    requires caller in threads && |threads| <= 1
    ensures threads == {caller}
  {
    if t :| t in threads && t != caller {
      assert {caller, t} <= threads;
      SubsetSmaller({caller, t}, threads);
    }
  }

  lemma {:induction false} SubsetSmaller(a: set<nat>, b: set<nat>)
    requires a <= b
    ensures |a| <= |b|
  {
    if a != {} {
      var x :| x in a;
      SubsetSmaller(a - {x}, b - {x});
    }
  }

  // Main result. If the caller is the only thread when threads are counted, and
  // starts none between that and the fork, then whatever the child does later, every lock held in it
  // is held by one of its living threads: no acquisition waits on a dead owner.
  lemma ChildNeverWaitsOnTheDead(p: Process, caller: nat, before: seq<Move>, later: seq<Move>)
    requires OwnersLive(p) && caller in p.threads && AtMostOne(p)
    requires Runs(p, before) && forall i | 0 <= i < |before| :: !before[i].Spawn?
    requires Runs(Fork(AfterAll(p, before), caller), later)
    ensures OwnersLive(AfterAll(Fork(AfterAll(p, before), caller), later))
  {
    OnlyOne(p.threads, caller);
    StaysAlone(p, caller, before);
    OwnersStayLive(p, before);
    OwnersStayLive(Fork(AfterAll(p, before), caller), later);
  }

  lemma {:induction false} LockedForever(child: Process, lock: string, owner: nat, later: seq<Move>)
    requires lock in child.holder && child.holder[lock] == owner
    requires owner !in child.threads && owner < child.next && Runs(child, later)
    ensures var end := AfterAll(child, later);
            lock in end.holder && end.holder[lock] == owner && owner !in end.threads
    ensures forall t :: !Enabled(AfterAll(child, later), Acquire(t, lock))
    decreases |later|
  {
    if later != [] {
      LockedForever(After(child, later[0]), lock, owner, later[1..]);
    }
  }

  // Whatever a forked child does, the owners of its held locks live.
  ghost predicate AlwaysLive(child: Process) {
    forall later | Runs(child, later) :: OwnersLive(AfterAll(child, later))
  }

  lemma AlwaysLiveExactly(child: Process)
    ensures AlwaysLive(child) <==> OwnersLive(child)
  {
    if OwnersLive(child) {
      forall later | Runs(child, later) ensures OwnersLive(AfterAll(child, later)) {
        OwnersStayLive(child, later);
      }
    } else {
      var none: seq<Move> := [];
      assert Runs(child, none) && AfterAll(child, none) == child;
    }
  }

  // Some future of the child lets one of its threads take the lock.
  ghost predicate CanBeTaken(child: Process, l: string) {
    exists later, t :: Runs(child, later) && Enabled(AfterAll(child, later), Acquire(t, l))
  }

  lemma OwnLockComesFree(child: Process, caller: nat, l: string)
    requires caller in child.threads && l in child.holder && child.holder[l] == caller
    ensures CanBeTaken(child, l)
  {
    var later := [Release(caller, l)];
    assert Enabled(child, later[0]) && later[1..] == [];
    var end := After(child, later[0]);
    assert Runs(end, []) && AfterAll(end, []) == end;
    assert Runs(child, later) && AfterAll(child, later) == end;
    assert Enabled(AfterAll(child, later), Acquire(caller, l));
  }

  // The hazard the check is for, exactly: every lock can still be taken in the
  // child, and its owners stay alive over every future, if and only if no other
  // thread holds a lock at the moment of the fork. A lock that one does hold is
  // never released in the child.
  lemma ForkSafeExactly(p: Process, caller: nat)
    requires OwnersLive(p) && Sane(p) && caller in p.threads
    ensures AlwaysLive(Fork(p, caller)) <==> forall l | l in p.holder :: p.holder[l] == caller
    ensures forall l | l in p.holder :: CanBeTaken(Fork(p, caller), l) <==> p.holder[l] == caller
    ensures forall l, later | l in p.holder && p.holder[l] != caller && Runs(Fork(p, caller), later) ::
              forall t :: !Enabled(AfterAll(Fork(p, caller), later), Acquire(t, l))
  {
    var child := Fork(p, caller);
    AlwaysLiveExactly(child);
    forall l | l in p.holder && p.holder[l] == caller ensures CanBeTaken(child, l) {
      OwnLockComesFree(child, caller, l);
    }
    forall l, later | l in p.holder && p.holder[l] != caller && Runs(child, later)
      ensures forall t :: !Enabled(AfterAll(child, later), Acquire(t, l))
    {
      LockedForever(child, l, p.holder[l], later);
    }
  }
}
