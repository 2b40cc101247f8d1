/** The guard of a shared segment: a semaphore of size 1, locked in blocking mode and unlocked
    by "check used, then post", both undoable.  Every access of SharedMemory.c is a lock, some
    work on the memory, and an unlock, and asserts that both returned 0.

    `Aborted` is a process stopped by one of those asserts; a process that dies, by an assert
    or otherwise, is cleaned up after by the kernel. */
module GuardProtocol {
  import opened Totals
  import opened SemaphoreKernel

  const GUARD_SIZE := 1

  datatype Phase = Out | In | Cleared | Gone | Aborted

  datatype Guard = Guard(sem: Sem, phase: seq<Phase>)

  datatype Action = Lock(p: nat) | CheckUsed(p: nat) | Post(p: nat) | Crash(p: nat) | Fork

  function Start(n: nat): Guard {
    Guard(Sem(GUARD_SIZE, seq(n, i => 0)), seq(n, i => Out))
  }

  /** A process blocked in `Lock` is one whose action is not enabled. */
  predicate Enabled(g: Guard, a: Action) {
    |g.sem.adj| == |g.phase| &&
    match a
    case Lock(p) => p < |g.phase| && g.phase[p].Out? && !SemOp(g.sem, p, -1, true).Again?
    case CheckUsed(p) => p < |g.phase| && g.phase[p].In?
    case Post(p) => p < |g.phase| && g.phase[p].Cleared?
    case Crash(p) => p < |g.phase| && !g.phase[p].Gone? && !g.phase[p].Aborted?
    case Fork => true
  }

  function Abort(g: Guard, p: nat): Guard
    requires p < |g.phase| == |g.sem.adj|
  {
    Guard(Exit(g.sem, p), g.phase[p := Aborted])
  }

  function Step(g: Guard, a: Action): Guard {
    if !Enabled(g, a) then g else
    match a
    case Lock(p) =>
      var r := SemOp(g.sem, p, -1, true);
      if r.Done? then Guard(r.sem, g.phase[p := In]) else Abort(g, p)
    case CheckUsed(p) =>
      if GUARD_SIZE - g.sem.value > 0 then g.(phase := g.phase[p := Cleared]) else Abort(g, p)
    case Post(p) =>
      var r := SemOp(g.sem, p, 1, true);
      if r.Done? then Guard(r.sem, g.phase[p := Out]) else Abort(g, p)
    case Crash(p) =>
      Guard(Exit(g.sem, p), g.phase[p := Gone])
    case Fork =>
      Guard(NewProcess(g.sem), g.phase + [Out])
  }

  function Exec(g: Guard, acts: seq<Action>): Guard {
    if acts == [] then g else Step(Exec(g, acts[..|acts| - 1]), acts[|acts| - 1])
  }

  predicate Holds(g: Guard, p: nat) {
    p < |g.phase| && (g.phase[p].In? || g.phase[p].Cleared?)
  }

  predicate Free(g: Guard) {
    forall p :: 0 <= p < |g.phase| ==> !Holds(g, p)
  }

  /** The guard is conserved, and each adjustment is 1 exactly while its process holds it. */
  ghost predicate Inv(g: Guard) {
    && |g.sem.adj| == |g.phase|
    && g.sem.value >= 0
    && Balance(g.sem) == GUARD_SIZE
    && (forall p :: 0 <= p < |g.phase| ==> g.sem.adj[p] == if Holds(g, p) then 1 else 0)
    && (forall p :: 0 <= p < |g.phase| ==> !g.phase[p].Aborted?)
  }

  lemma StartInv(n: nat)
    ensures Inv(Start(n))
  {
    SumZero(seq(n, i => 0));
  }

  /** What the balance says about who can hold the guard. */
  lemma OneHolder(g: Guard)
    requires Inv(g)
    ensures forall p, q :: Holds(g, p) && Holds(g, q) ==> p == q
    ensures g.sem.value == if Free(g) then 1 else 0
  {
    SumNonNegative(g.sem.adj);
    forall p, q | Holds(g, p) && Holds(g, q) ensures p == q && g.sem.value == 0 {
      SumBounds(g.sem.adj, p, q);
    }
    if Free(g) {
      SumZero(g.sem.adj);
    }
  }

  lemma StepInv(g: Guard, a: Action)
    requires Inv(g)
    ensures Inv(Step(g, a))
    ensures a.CheckUsed? && Enabled(g, a) ==> Step(g, a) == g.(phase := g.phase[a.p := Cleared])
    ensures a.Post? && Enabled(g, a) ==> Step(g, a).phase == g.phase[a.p := Out] && Free(Step(g, a))
    ensures a.Lock? && Enabled(g, a) ==> Step(g, a).phase == g.phase[a.p := In] && Free(g)
  {
    OneHolder(g);
    if Enabled(g, a) {
      match a
      case Lock(p) => SemOpBalance(g.sem, p, -1, true);
      case CheckUsed(p) => assert Holds(g, p);
      case Post(p) =>
        assert Holds(g, p);
        SemOpBalance(g.sem, p, 1, true);
      case Crash(p) => ExitBalance(g.sem, p);
      case Fork => NewProcessBalance(g.sem);
    }
  }

  lemma {:induction false} RunInv(n: nat, acts: seq<Action>)
    ensures Inv(Exec(Start(n), acts))
  {
    StartInv(n);
    if acts != [] {
      RunInv(n, acts[..|acts| - 1]);
      StepInv(Exec(Start(n), acts[..|acts| - 1]), acts[|acts| - 1]);
    }
  }

  /** In every reachable state, whatever died on the way: value plus adjustments is 1, an
      adjustment is 1 exactly while its process is between lock and unlock, and at most one is. */
  lemma GuardConserved(n: nat, acts: seq<Action>)
    ensures var g := Exec(Start(n), acts);
            && |g.sem.adj| == |g.phase|
            && g.sem.value + Sum(g.sem.adj) == 1
            && (forall p :: 0 <= p < |g.phase| ==> g.sem.adj[p] == if Holds(g, p) then 1 else 0)
            && (forall p, q :: Holds(g, p) && Holds(g, q) ==> p == q)
  {
    RunInv(n, acts);
    OneHolder(Exec(Start(n), acts));
  }

  /** No assert ever fails: no process is aborted, a holder's used-check passes, and its post
      succeeds and frees the guard. */
  lemma NoAssertFails(n: nat, acts: seq<Action>, p: nat)
    ensures var g := Exec(Start(n), acts);
            && (p < |g.phase| ==> !g.phase[p].Aborted?)
            && (p < |g.phase| && g.phase[p].In? ==> Step(g, CheckUsed(p)).phase[p].Cleared?)
            && (p < |g.phase| && g.phase[p].Cleared? ==>
                  var f := Step(g, Post(p)); f.phase[p].Out? && f.sem.value == 1 && Free(f))
  {
    RunInv(n, acts);
    var g := Exec(Start(n), acts);
    StepInv(g, CheckUsed(p));
    StepInv(g, Post(p));
    OneHolder(Step(g, Post(p)));
  }

  /** The guard is never stuck: either it is free and any waiting process can take it, or a
      live process holds it, and the death of that process frees it at once. */
  lemma GuardNeverStuck(n: nat, acts: seq<Action>)
    ensures var g := Exec(Start(n), acts);
            if g.sem.value == 1
            then Free(g) && forall p :: 0 <= p < |g.phase| && g.phase[p].Out? ==> Holds(Step(g, Lock(p)), p)
            else g.sem.value == 0 && exists p ::
                   Holds(g, p) &&
                   Step(g, Crash(p)).sem.value == 1 && Free(Step(g, Crash(p)))
  {
    RunInv(n, acts);
    var g := Exec(Start(n), acts);
    OneHolder(g);
    if Free(g) {
      forall p | 0 <= p < |g.phase| && g.phase[p].Out? ensures Holds(Step(g, Lock(p)), p) {
        StepInv(g, Lock(p));
      }
    } else {
      var p :| 0 <= p < |g.phase| && Holds(g, p);
      StepInv(g, Crash(p));
      OneHolder(Step(g, Crash(p)));
      assert Free(Step(g, Crash(p)));
    }
  }
}
