/** Any number of processes locking and unlocking one semaphore of a given size, in any
    mixture of persistent and undoable operations, with processes dying at any point.

    Unlocking is two steps, as in the code: read the value to see whether anything is used,
    and, some time later, post.  Every system call is one step.  An action whose process is
    not at that point of its program leaves the state alone, so that every sequence of
    actions is a run. */
module SemaphoreProtocol {
  import opened Totals
  import opened SemaphoreKernel

  datatype Phase = Idle | Cleared(persist: bool) | Gone

  datatype State = State(size: int, sem: Sem, phase: seq<Phase>)

  /** `TryLock` is one semop of any of the three lock modes: the blocking mode waits for a
      moment at which it succeeds, the other two also make attempts that fail. */
  datatype Action =
    | TryLock(p: nat, persist: bool)
    | CheckUsed(p: nat, persist: bool)
    | Post(p: nat)
    | Crash(p: nat)
    | Fork

  function Start(size: int, n: nat): State {
    State(size, Sem(size, seq(n, i => 0)), seq(n, i => Idle))
  }

  predicate Enabled(s: State, a: Action) {
    |s.sem.adj| == |s.phase| &&
    match a
    case TryLock(p, _) => p < |s.phase| && s.phase[p].Idle?
    case CheckUsed(p, _) => p < |s.phase| && s.phase[p].Idle?
    case Post(p) => p < |s.phase| && s.phase[p].Cleared?
    case Crash(p) => p < |s.phase| && !s.phase[p].Gone?
    case Fork => true
  }

  function Attempt(s: State, a: Action): Outcome
    requires Enabled(s, a) && (a.TryLock? || a.Post?)
  {
    if a.TryLock? then SemOp(s.sem, a.p, -1, !a.persist)
    else SemOp(s.sem, a.p, 1, !s.phase[a.p].persist)
  }

  function Used(s: State): int {
    s.size - s.sem.value
  }

  function Step(s: State, a: Action): State {
    if !Enabled(s, a) then s else
    match a
    case TryLock(p, _) =>
      if Attempt(s, a).Done? then s.(sem := Attempt(s, a).sem) else s
    case CheckUsed(p, persist) =>
      if Used(s) > 0 then s.(phase := s.phase[p := Cleared(persist)]) else s
    case Post(p) =>
      State(s.size, if Attempt(s, a).Done? then Attempt(s, a).sem else s.sem, s.phase[p := Idle])
    case Crash(p) =>
      State(s.size, Exit(s.sem, p), s.phase[p := Gone])
    case Fork =>
      State(s.size, NewProcess(s.sem), s.phase + [Idle])
  }

  function Exec(s: State, acts: seq<Action>): State {
    if acts == [] then s else Step(Exec(s, acts[..|acts| - 1]), acts[|acts| - 1])
  }

  // What happened along a run, read off the actions and the states they met.

  predicate Locks(s: State, a: Action, persist: bool) {
    a.TryLock? && a.persist == persist && Enabled(s, a) && Attempt(s, a).Done?
  }

  predicate Unlocks(s: State, a: Action, persist: bool) {
    a.Post? && Enabled(s, a) && s.phase[a.p].persist == persist && Attempt(s, a).Done?
  }

  function PersistLocks(s: State, acts: seq<Action>): nat {
    if acts == [] then 0
    else PersistLocks(s, acts[..|acts| - 1]) +
         if Locks(Exec(s, acts[..|acts| - 1]), acts[|acts| - 1], true) then 1 else 0
  }

  function PersistUnlocks(s: State, acts: seq<Action>): nat {
    if acts == [] then 0
    else PersistUnlocks(s, acts[..|acts| - 1]) +
         if Unlocks(Exec(s, acts[..|acts| - 1]), acts[|acts| - 1], true) then 1 else 0
  }

  /** Undoable units that process p has locked, less those it has unlocked. */
  function Owed(s: State, acts: seq<Action>, p: nat): int {
    if acts == [] then 0
    else
      var front := acts[..|acts| - 1];
      var t, a := Exec(s, front), acts[|acts| - 1];
      Owed(s, front, p) +
      if Locks(t, a, false) && a.p == p then 1
      else if Unlocks(t, a, false) && a.p == p then -1
      else 0
  }

  /** Units that exits had to invent along the run. */
  function Invented(s: State, acts: seq<Action>): nat {
    if acts == [] then 0
    else
      var front := acts[..|acts| - 1];
      var t, a := Exec(s, front), acts[|acts| - 1];
      Invented(s, front) + if a.Crash? && Enabled(t, a) then Shortfall(t.sem, a.p) else 0
  }

  /** Units that exits had to drop along the run. */
  function Dropped(s: State, acts: seq<Action>): nat {
    if acts == [] then 0
    else
      var front := acts[..|acts| - 1];
      var t, a := Exec(s, front), acts[|acts| - 1];
      Dropped(s, front) + if a.Crash? && Enabled(t, a) then Excess(t.sem, a.p) else 0
  }

  /** Every undoable unlock is by a process that still owes an undoable lock. */
  predicate Matched(s: State, acts: seq<Action>) {
    acts != [] ==>
      var front := acts[..|acts| - 1];
      var a := acts[|acts| - 1];
      Matched(s, front) && (Unlocks(Exec(s, front), a, false) ==> Owed(s, front, a.p) > 0)
  }

  // ---------------------------------------------------------------- conservation

  lemma StepBalance(s: State, a: Action)
    ensures Balance(Step(s, a).sem) == Balance(s.sem)
              - (if Locks(s, a, true) then 1 else 0)
              + (if Unlocks(s, a, true) then 1 else 0)
              + (if a.Crash? && Enabled(s, a) then Shortfall(s.sem, a.p) - Excess(s.sem, a.p) else 0)
  {
    if Enabled(s, a) {
      match a
      case TryLock(p, persist) =>
        if Attempt(s, a).Done? { SemOpBalance(s.sem, p, -1, !persist); }
      case CheckUsed(p, persist) =>
      case Post(p) =>
        if Attempt(s, a).Done? { SemOpBalance(s.sem, p, 1, !s.phase[p].persist); }
      case Crash(p) => ExitBalance(s.sem, p);
      case Fork => NewProcessBalance(s.sem);
    }
  }

  /** Nothing but persistent operations, and exits that have to invent or drop units, changes the
      balance. */
  lemma {:induction false} BalanceOfRun(s: State, acts: seq<Action>)
    ensures Balance(Exec(s, acts).sem) ==
            Balance(s.sem) - PersistLocks(s, acts) + PersistUnlocks(s, acts) + Invented(s, acts) - Dropped(s, acts)
  {
    if acts != [] {
      BalanceOfRun(s, acts[..|acts| - 1]);
      StepBalance(Exec(s, acts[..|acts| - 1]), acts[|acts| - 1]);
    }
  }

  lemma StartBalance(size: int, n: nat)
    ensures Balance(Start(size, n).sem) == size
  {
    SumZero(seq(n, i => 0));
  }

  ghost predicate AdjustmentsAreOwed(s0: State, acts: seq<Action>) {
    var s := Exec(s0, acts);
    |s.sem.adj| == |s.phase| && s.sem.value >= 0 &&
    (forall p :: 0 <= p < |s.phase| ==>
      s.sem.adj[p] == (if s.phase[p].Gone? then 0 else Owed(s0, acts, p)) && s.sem.adj[p] >= 0) &&
    (forall p :: p >= |s.phase| ==> Owed(s0, acts, p) == 0)
  }

  /** In a matched run each live process's adjustment is exactly what it still owes, and no
      exit ever has to invent a unit. */
  lemma {:induction false} MatchedRun(size: int, n: nat, acts: seq<Action>)
    requires size >= 0 && Matched(Start(size, n), acts)
    ensures AdjustmentsAreOwed(Start(size, n), acts)
    ensures Invented(Start(size, n), acts) == 0
  {
    if acts != [] {
      MatchedRun(size, n, acts[..|acts| - 1]);
    }
  }

  /** Value plus adjustments is the size less persistent locks plus persistent unlocks, on every
      interleaving with crashes, exactly when exits invent as many units as they drop.  None is
      invented when every undoable unlock matches a lock of the same process, and then the
      equation holds exactly when no exit passes the limit. */
  lemma Conservation(size: int, n: nat, acts: seq<Action>)
    requires size >= 0
    ensures var s0 := Start(size, n);
            Balance(Exec(s0, acts).sem) == size - PersistLocks(s0, acts) + PersistUnlocks(s0, acts)
            <==> Invented(s0, acts) == Dropped(s0, acts)
    ensures Matched(Start(size, n), acts) ==> Invented(Start(size, n), acts) == 0
  {
    StartBalance(size, n);
    BalanceOfRun(Start(size, n), acts);
    if Matched(Start(size, n), acts) {
      MatchedRun(size, n, acts);
    }
  }

  // ---------------------------------------------------------------- staying within the size

  /** More units have been taken persistently than given back persistently. */
  predicate Outstanding(s: State, acts: seq<Action>) {
    PersistLocks(s, acts) > PersistUnlocks(s, acts)
  }

  /** What is given back persistently was taken persistently. */
  predicate Backed(s: State, acts: seq<Action>) {
    acts != [] ==>
      var front := acts[..|acts| - 1];
      Backed(s, front) && (Unlocks(Exec(s, front), acts[|acts| - 1], true) ==> Outstanding(s, front))
  }

  /** At every moment, value and adjustments together are within the size. */
  predicate BalanceWithin(s: State, acts: seq<Action>, size: int) {
    Balance(Exec(s, acts).sem) <= size && (acts != [] ==> BalanceWithin(s, acts[..|acts| - 1], size))
  }

  lemma {:induction false} WithinAt(s: State, acts: seq<Action>, size: int, i: nat)
    requires BalanceWithin(s, acts, size) && i <= |acts|
    ensures Balance(Exec(s, acts[..i]).sem) <= size
  {
    if i == |acts| {
      assert acts[..i] == acts;
    } else {
      assert acts[..|acts| - 1][..i] == acts[..i];
      WithinAt(s, acts[..|acts| - 1], size, i);
    }
  }

  lemma {:induction false} WithinAtEveryMoment(s: State, acts: seq<Action>, size: int)
    requires forall i :: 0 <= i <= |acts| ==> Balance(Exec(s, acts[..i]).sem) <= size
    ensures BalanceWithin(s, acts, size)
  {
    assert acts[..|acts|] == acts;
    if acts != [] {
      var front := acts[..|acts| - 1];
      forall i | 0 <= i <= |front| ensures Balance(Exec(s, front[..i]).sem) <= size {
        assert front[..i] == acts[..i];
      }
      WithinAtEveryMoment(s, front, size);
    }
  }

  lemma {:induction false} BackedCounts(s: State, acts: seq<Action>)
    requires Backed(s, acts)
    ensures PersistLocks(s, acts) >= PersistUnlocks(s, acts)
  {
    if acts != [] {
      BackedCounts(s, acts[..|acts| - 1]);
    }
  }

  /** While the balance is within the limit, no exit drops anything. */
  lemma {:induction false} NothingDropped(size: int, n: nat, acts: seq<Action>)
    requires 0 <= size <= SEMVMX && Matched(Start(size, n), acts) && BalanceWithin(Start(size, n), acts, size)
    ensures Dropped(Start(size, n), acts) == 0
  {
    if acts != [] {
      var front, a := acts[..|acts| - 1], acts[|acts| - 1];
      var s := Exec(Start(size, n), front);
      NothingDropped(size, n, front);
      if a.Crash? && Enabled(s, a) {
        MatchedRun(size, n, front);
        SumBounds(s.sem.adj, a.p, a.p);
      }
    }
  }

  lemma {:induction false} BackedIffWithin(size: int, n: nat, acts: seq<Action>)
    requires 0 <= size <= SEMVMX && Matched(Start(size, n), acts)
    ensures Backed(Start(size, n), acts) <==> BalanceWithin(Start(size, n), acts, size)
  {
    var s0 := Start(size, n);
    MatchedRun(size, n, acts);
    StartBalance(size, n);
    BalanceOfRun(s0, acts);
    if acts != [] {
      BackedIffWithin(size, n, acts[..|acts| - 1]);
      if Backed(s0, acts) {
        BackedCounts(s0, acts);
      }
      if BalanceWithin(s0, acts, size) {
        NothingDropped(size, n, acts);
      }
    }
  }

  /** A run with matched undoable unlocks, in any mixture with persistent ones, keeps value and
      adjustments within the size at every moment if and only if what it gives back persistently it
      has taken persistently.  Then the value is within the size, however many unlocks overlap,
      and nothing is ever dropped, so that the balance is exact. */
  lemma WithinSizeExactly(size: int, n: nat, acts: seq<Action>)
    requires 0 <= size <= SEMVMX && Matched(Start(size, n), acts)
    ensures var s0 := Start(size, n);
            Backed(s0, acts) <==> forall i :: 0 <= i <= |acts| ==> Balance(Exec(s0, acts[..i]).sem) <= size
    ensures var s0 := Start(size, n);
            Backed(s0, acts) ==>
              && 0 <= Exec(s0, acts).sem.value <= size
              && Balance(Exec(s0, acts).sem) == size - PersistLocks(s0, acts) + PersistUnlocks(s0, acts)
  {
    var s0 := Start(size, n);
    BackedIffWithin(size, n, acts);
    if Backed(s0, acts) {
      forall i | 0 <= i <= |acts| ensures Balance(Exec(s0, acts[..i]).sem) <= size {
        WithinAt(s0, acts, size, i);
      }
    } else if forall i :: 0 <= i <= |acts| ==> Balance(Exec(s0, acts[..i]).sem) <= size {
      WithinAtEveryMoment(s0, acts, size);
    }
    MatchedRun(size, n, acts);
    if Backed(s0, acts) {
      NothingDropped(size, n, acts);
      StartBalance(size, n);
      BalanceOfRun(s0, acts);
      SumNonNegative(Exec(s0, acts).sem.adj);
    }
  }

  // What the balance foretells: the value when everybody dies.

  function Crashes(k: nat): seq<Action> {
    seq(k, i requires 0 <= i < k => Crash(i))
  }

  function Capped(value: int): int {
    if value > SEMVMX then SEMVMX else value
  }

  ghost predicate Crashable(s: State) {
    |s.sem.adj| == |s.phase| && 0 <= s.sem.value <= SEMVMX &&
    forall p :: 0 <= p < |s.phase| ==> s.sem.adj[p] >= 0 && (s.phase[p].Gone? ==> s.sem.adj[p] == 0)
  }

  lemma CrashStep(s: State, p: nat)
    requires Crashable(s) && p < |s.phase|
    ensures Step(s, Crash(p)).sem == Sem(Capped(s.sem.value + s.sem.adj[p]), s.sem.adj[p := 0])
    ensures Step(s, Crash(p)).phase == s.phase[p := Gone]
  {
  }

  lemma {:induction false} AfterCrashes(s: State, k: nat)
    requires Crashable(s) && k <= |s.phase|
    ensures var t := Exec(s, Crashes(k));
            && Crashable(t) && |t.phase| == |s.phase|
            && t.sem.value == Capped(s.sem.value + Sum(s.sem.adj[..k]))
            && (forall q :: k <= q < |s.phase| ==> t.sem.adj[q] == s.sem.adj[q])
  {
    if k > 0 {
      AfterCrashes(s, k - 1);
      assert Crashes(k)[..k - 1] == Crashes(k - 1);
      assert Exec(s, Crashes(k)) == Step(Exec(s, Crashes(k - 1)), Crash(k - 1));
      CrashStep(Exec(s, Crashes(k - 1)), k - 1);
      assert s.sem.adj[..k] == s.sem.adj[..k - 1] + [s.sem.adj[k - 1]];
      SumAppend(s.sem.adj[..k - 1], s.sem.adj[k - 1]);
    }
  }

  /** The value that would be left if every process died now. */
  function ValueWhenAllDie(s: State): int {
    Exec(s, Crashes(|s.phase|)).sem.value
  }

  /** The same in terms of the value alone: what is given back persistently was taken persistently if
      and only if at no moment of the run the death of all processes would leave more than the size. */
  lemma BackedIffNoDeathOvershoots(size: int, n: nat, acts: seq<Action>)
    requires 0 <= size < SEMVMX && Matched(Start(size, n), acts)
    ensures var s0 := Start(size, n);
            Backed(s0, acts) <==> forall i :: 0 <= i <= |acts| ==> ValueWhenAllDie(Exec(s0, acts[..i])) <= size
  {
    var s0 := Start(size, n);
    WithinSizeExactly(size, n, acts);
    forall i | 0 <= i <= |acts|
      ensures ValueWhenAllDie(Exec(s0, acts[..i])) <= size <==> Balance(Exec(s0, acts[..i]).sem) <= size
    {
      MatchedPrefix(s0, acts, i);
      DeathsTellBalance(size, n, acts[..i]);
    }
  }

  lemma {:induction false} MatchedPrefix(s: State, acts: seq<Action>, i: nat)
    requires Matched(s, acts) && i <= |acts|
    ensures Matched(s, acts[..i])
  {
    if i == |acts| {
      assert acts[..i] == acts;
    } else {
      assert acts[..|acts| - 1][..i] == acts[..i];
      MatchedPrefix(s, acts[..|acts| - 1], i);
    }
  }

  lemma DeathsTellBalance(size: int, n: nat, acts: seq<Action>)
    requires 0 <= size < SEMVMX && Matched(Start(size, n), acts)
    ensures ValueWhenAllDie(Exec(Start(size, n), acts)) == Capped(Balance(Exec(Start(size, n), acts).sem))
  {
    var s := Exec(Start(size, n), acts);
    MatchedRun(size, n, acts);
    ValueWithinLimit(Start(size, n), acts);
    AfterCrashes(s, |s.phase|);
    assert s.sem.adj[..|s.phase|] == s.sem.adj;
  }

  lemma {:induction false} ValueWithinLimit(s: State, acts: seq<Action>)
    requires s.sem.value <= SEMVMX
    ensures Exec(s, acts).sem.value <= SEMVMX
  {
    if acts != [] {
      ValueWithinLimit(s, acts[..|acts| - 1]);
    }
  }

  // ---------------------------------------------------------------- overshoot

  predicate PersistOnly(acts: seq<Action>) {
    forall i :: 0 <= i < |acts| ==> (acts[i].TryLock? || acts[i].CheckUsed? ==> acts[i].persist)
  }

  predicate UndoOnly(acts: seq<Action>) {
    forall i :: 0 <= i < |acts| ==> (acts[i].TryLock? || acts[i].CheckUsed? ==> !acts[i].persist)
  }

  function Open(s: State): nat {
    Count(s.phase, (ph: Phase) => ph.Cleared?)
  }

  /** Never more than n processes between the used-check and the post. */
  ghost predicate AtMostOpen(s: State, acts: seq<Action>, n: nat) {
    forall i :: 0 <= i <= |acts| ==> Open(Exec(s, acts[..i])) <= n
  }

  function Bound(size: int, n: nat): int {
    if n == 0 then size else if size - 1 + n <= SEMVMX then size - 1 + n else SEMVMX
  }

  /** Persistent unlocks under way: the used-check has passed and the post is still to come. */
  function OpenPersistent(s: State): nat {
    Count(s.phase, (ph: Phase) => ph == Cleared(true))
  }

  ghost predicate AtMostOpenPersistent(s: State, acts: seq<Action>, n: nat) {
    forall i :: 0 <= i <= |acts| ==> OpenPersistent(Exec(s, acts[..i])) <= n
  }

  predicate PassesCheck(s: State, a: Action) {
    a.CheckUsed? && a.persist && Enabled(s, a) && Used(s) > 0
  }

  /** A persistent used-check passes only while persistently taken units are outstanding. */
  predicate ChecksBacked(s: State, acts: seq<Action>) {
    acts != [] ==>
      var front := acts[..|acts| - 1];
      ChecksBacked(s, front) && (PassesCheck(Exec(s, front), acts[|acts| - 1]) ==> Outstanding(s, front))
  }

  /** How a step changes the number of persistent unlocks under way. */
  lemma StepOpenPersistent(s: State, a: Action)
    ensures OpenPersistent(Step(s, a)) <= OpenPersistent(s)
              + (if PassesCheck(s, a) then 1 else 0) - (if Unlocks(s, a, true) then 1 else 0)
  {
    var cleared := (ph: Phase) => ph == Cleared(true);
    if Enabled(s, a) {
      match a
      case TryLock(p, persist) =>
      case CheckUsed(p, persist) => CountUpdate(s.phase, p, Cleared(persist), cleared);
      case Post(p) => CountUpdate(s.phase, p, Idle, cleared);
      case Crash(p) => CountUpdate(s.phase, p, Gone, cleared);
      case Fork => CountAppend(s.phase, Idle, cleared);
    }
  }

  /** Units outside the balance of the start, counting every persistent unlock under way as done. */
  function Surplus(s: State, acts: seq<Action>): int {
    PersistUnlocks(s, acts) - PersistLocks(s, acts) + OpenPersistent(Exec(s, acts))
  }

  lemma {:induction false} SurplusBound(s: State, acts: seq<Action>, n: nat)
    requires OpenPersistent(s) == 0 && ChecksBacked(s, acts) && AtMostOpenPersistent(s, acts, n)
    ensures Surplus(s, acts) <= if n == 0 then 0 else n - 1
  {
    if acts != [] {
      var front := acts[..|acts| - 1];
      assert acts[..|acts|] == acts;
      assert forall i :: 0 <= i <= |front| ==> front[..i] == acts[..i];
      SurplusBound(s, front, n);
      StepOpenPersistent(Exec(s, front), acts[|acts| - 1]);
    }
  }

  /** Any mixture of modes, any number of processes, crashes included: when undoable unlocks are
      matched, persistent used-checks are backed, and at most n persistent unlocks are under way
      at a time, the value together with those under way stays within size - 1 + n, and within
      size when they never overlap. */
  lemma MixedOvershootBound(size: int, m: nat, acts: seq<Action>, n: nat)
    requires 0 <= size <= SEMVMX && Matched(Start(size, m), acts)
    requires ChecksBacked(Start(size, m), acts) && AtMostOpenPersistent(Start(size, m), acts, n)
    ensures var s := Exec(Start(size, m), acts);
            && 0 <= s.sem.value <= Bound(size, n)
            && s.sem.value + OpenPersistent(s) <= (if n == 0 then size else size - 1 + n)
            && (n <= 1 ==> s.sem.value <= size)
  {
    var s0 := Start(size, m);
    CountAtMost(s0.phase, (ph: Phase) => ph == Cleared(true));
    SurplusBound(s0, acts, n);
    MatchedRun(size, m, acts);
    StartBalance(size, m);
    BalanceOfRun(s0, acts);
    SumNonNegative(Exec(s0, acts).sem.adj);
    ValueWithinLimit(s0, acts);
  }

  /** What persistent operations alone leave: no adjustment and no undoable unlock under way. */
  predicate NoUndo(s: State, size: int) {
    && |s.sem.adj| == |s.phase| && s.size == size && 0 <= s.sem.value <= SEMVMX
    && (forall p :: 0 <= p < |s.phase| ==> s.sem.adj[p] == 0 && s.phase[p] != Cleared(false))
  }

  lemma NoUndoStep(s: State, a: Action, size: int)
    requires NoUndo(s, size) && (a.TryLock? || a.CheckUsed? ==> a.persist)
    ensures NoUndo(Step(s, a), size)
    ensures !Unlocks(s, a, false)
    ensures PassesCheck(s, a) ==> Balance(s.sem) < size
  {
    SumZero(s.sem.adj);
  }

  lemma {:induction false} PersistOnlyRun(size: int, m: nat, acts: seq<Action>)
    requires 0 <= size <= SEMVMX && PersistOnly(acts)
    ensures NoUndo(Exec(Start(size, m), acts), size)
    ensures Balance(Exec(Start(size, m), acts).sem) ==
            size - PersistLocks(Start(size, m), acts) + PersistUnlocks(Start(size, m), acts)
    ensures Matched(Start(size, m), acts) && ChecksBacked(Start(size, m), acts)
  {
    StartBalance(size, m);
    if acts != [] {
      var front, a := acts[..|acts| - 1], acts[|acts| - 1];
      PersistOnlyRun(size, m, front);
      NoUndoStep(Exec(Start(size, m), front), a, size);
      StepBalance(Exec(Start(size, m), front), a);
    }
  }

  /** Persistent locking, any number of processes, crashes included: with at most n processes
      at a time inside an unlock, the value stays within size - 1 + n, and within size when
      unlocks never overlap. */
  lemma OvershootBound(size: int, m: nat, acts: seq<Action>, n: nat)
    requires 0 <= size <= SEMVMX && PersistOnly(acts) && AtMostOpen(Start(size, m), acts, n)
    ensures var s := Exec(Start(size, m), acts);
            && NoUndo(s, size)
            && s.sem.value <= Bound(size, n)
            && s.sem.value + Open(s) <= (if n == 0 then size else size - 1 + n)
            && (n <= 1 ==> s.sem.value <= size)
  {
    PersistOnlyRun(size, m, acts);
    forall i | 0 <= i <= |acts| ensures OpenPersistent(Exec(Start(size, m), acts[..i])) <= n {
      CountMonotone(Exec(Start(size, m), acts[..i]).phase, (ph: Phase) => ph == Cleared(true),
                    (ph: Phase) => ph.Cleared?);
    }
    MixedOvershootBound(size, m, acts, n);
    CountMonotone(Exec(Start(size, m), acts).phase, (ph: Phase) => ph.Cleared?, (ph: Phase) => ph == Cleared(true));
  }

  /** With undoable, matched operations nothing overshoots, however many unlocks overlap. */
  lemma UndoNeverOvershoots(size: int, n: nat, acts: seq<Action>)
    requires size >= 0 && UndoOnly(acts) && Matched(Start(size, n), acts)
    ensures 0 <= Exec(Start(size, n), acts).sem.value <= size
  {
    var s0 := Start(size, n);
    MatchedRun(size, n, acts);
    NoPersistentOps(s0, acts);
    StartBalance(size, n);
    BalanceOfRun(s0, acts);
    SumNonNegative(Exec(s0, acts).sem.adj);
  }

  lemma {:induction false} NoPersistentOps(s: State, acts: seq<Action>)
    requires UndoOnly(acts)
    requires forall p :: 0 <= p < |s.phase| ==> s.phase[p] != Cleared(true)
    ensures PersistLocks(s, acts) == 0 && PersistUnlocks(s, acts) == 0
    ensures forall p :: 0 <= p < |Exec(s, acts).phase| ==> Exec(s, acts).phase[p] != Cleared(true)
  {
    if acts != [] {
      NoPersistentOps(s, acts[..|acts| - 1]);
    }
  }

  // The bound is reached: one lock, then n overlapping unlocks.

  function Checks(n: nat): seq<Action> {
    [TryLock(0, true)] + seq(n, i requires 0 <= i < n => CheckUsed(i, true))
  }

  function Posts(k: nat): seq<Action> {
    seq(k, i requires 0 <= i < k => Post(i))
  }

  lemma {:induction false} AfterChecks(size: int, n: nat, k: nat)
    requires 1 <= size <= SEMVMX && k <= n && n >= 1
    ensures var s := Exec(Start(size, n), Checks(k));
            s.size == size && s.sem == Sem(size - 1, seq(n, i => 0)) &&
            s.phase == seq(n, i => if i < k then Cleared(true) else Idle)
  {
    var s0 := Start(size, n);
    if k == 0 {
      assert Checks(0)[..0] == [];
      assert Exec(s0, Checks(0)) == Step(s0, TryLock(0, true));
    } else {
      AfterChecks(size, n, k - 1);
      assert Checks(k)[..k] == Checks(k - 1);
      assert Exec(s0, Checks(k)) == Step(Exec(s0, Checks(k - 1)), CheckUsed(k - 1, true));
    }
  }

  function Posted(size: int, n: nat, k: nat): State {
    State(size, Sem(if k == 0 then size - 1 else Bound(size, k), seq(n, i => 0)),
          seq(n, i => if i < k then Idle else Cleared(true)))
  }

  lemma {:induction false} AfterPosts(size: int, n: nat, k: nat)
    requires 1 <= size <= SEMVMX && k <= n && n >= 1
    ensures Exec(Start(size, n), Checks(n) + Posts(k)) == Posted(size, n, k)
  {
    var acts := Checks(n) + Posts(k);
    if k == 0 {
      AfterChecks(size, n, n);
      assert acts == Checks(n);
      assert Exec(Start(size, n), acts).phase == Posted(size, n, 0).phase;
    } else {
      AfterPosts(size, n, k - 1);
      assert acts[..|acts| - 1] == Checks(n) + Posts(k - 1);
      var s := Posted(size, n, k - 1);
      assert s.phase[k - 1 := Idle] == Posted(size, n, k).phase;
      assert Step(s, Post(k - 1)) == Posted(size, n, k);
    }
  }

  lemma {:induction false} ProcessesKept(s: State, acts: seq<Action>)
    requires forall i :: 0 <= i < |acts| ==> !acts[i].Fork?
    ensures |Exec(s, acts).phase| == |s.phase|
  {
    if acts != [] {
      ProcessesKept(s, acts[..|acts| - 1]);
    }
  }

  /** For every n there is a run of n processes, persistent operations only, that reaches the bound. */
  lemma BoundReached(size: int, n: nat) returns (acts: seq<Action>)
    requires 1 <= size <= SEMVMX && n >= 1
    ensures PersistOnly(acts) && AtMostOpen(Start(size, n), acts, n)
    ensures Exec(Start(size, n), acts).sem.value == Bound(size, n)
  {
    acts := Checks(n) + Posts(n);
    AfterPosts(size, n, n);
    var s0 := Start(size, n);
    forall i | 0 <= i <= |acts| ensures Open(Exec(s0, acts[..i])) <= n {
      ProcessesKept(s0, acts[..i]);
      CountAtMost(Exec(s0, acts[..i]).phase, (ph: Phase) => ph.Cleared?);
    }
  }

  // Mixing the modes: no bound at all.

  lemma {:induction false} ExecConcat(s: State, a: seq<Action>, b: seq<Action>)
    ensures Exec(s, a + b) == Exec(Exec(s, a), b)
  {
    if b == [] {
      assert a + b == a;
    } else {
      var front, last := b[..|b| - 1], b[|b| - 1];
      ExecConcat(s, a, front);
      assert (a + b)[..|a + b| - 1] == a + front;
      assert (a + b)[|a + b| - 1] == last;
    }
  }

  lemma PrefixOfConcat(s: State, a: seq<Action>, b: seq<Action>, i: nat)
    requires i <= |a| + |b|
    ensures Exec(s, (a + b)[..i]) == if i <= |a| then Exec(s, a[..i]) else Exec(Exec(s, a), b[..i - |a|])
  {
    if i <= |a| {
      assert (a + b)[..i] == a[..i];
    } else {
      assert (a + b)[..i] == a + b[..i - |a|];
      ExecConcat(s, a, b[..i - |a|]);
    }
  }

  lemma AtMostOpenConcat(s: State, a: seq<Action>, b: seq<Action>, n: nat)
    requires AtMostOpen(s, a, n) && AtMostOpen(Exec(s, a), b, n)
    ensures AtMostOpen(s, a + b, n)
  {
    forall i | 0 <= i <= |a + b| ensures Open(Exec(s, (a + b)[..i])) <= n {
      PrefixOfConcat(s, a, b, i);
      if i > |a| {
        assert Open(Exec(Exec(s, a), b[..i - |a|])) <= n;
      }
    }
  }

  ghost predicate Settled(s: State, v: int) {
    |s.sem.adj| == |s.phase| >= 1 && s.size == 1 && s.sem.value == v && s.phase[0].Idle? && Open(s) == 0
  }

  function LockRepeatedly(p: nat, v: nat): seq<Action> {
    seq(v, i => TryLock(p, false))
  }

  lemma {:induction false} AfterLockRepeatedly(s: State, p: nat, v: nat)
    requires |s.sem.adj| == |s.phase| && p < |s.phase| && s.phase[p].Idle? && Open(s) == 0
    requires v <= s.sem.value <= SEMVMX && s.sem.adj[p] == 0
    ensures Exec(s, LockRepeatedly(p, v)) == s.(sem := Sem(s.sem.value - v, s.sem.adj[p := v]))
    ensures AtMostOpen(s, LockRepeatedly(p, v), 1)
  {
    var acts := LockRepeatedly(p, v);
    if v > 0 {
      AfterLockRepeatedly(s, p, v - 1);
      assert acts[..v - 1] == LockRepeatedly(p, v - 1);
    }
    forall i | 0 <= i <= |acts| ensures Open(Exec(s, acts[..i])) <= 1 {
      if i < v {
        assert acts[..i] == LockRepeatedly(p, v - 1)[..i];
      } else {
        assert acts[..i] == acts;
      }
    }
  }

  predicate NoUndoUnlocks(acts: seq<Action>) {
    forall i :: 0 <= i < |acts| ==> (acts[i].CheckUsed? ==> acts[i].persist)
  }

  /** Extends a run by one action. */
  lemma Extend(s: State, acts: seq<Action>, a: Action) returns (all: seq<Action>)
    requires AtMostOpen(s, acts, 1) && Open(Step(Exec(s, acts), a)) <= 1
    requires NoUndoUnlocks(acts) && NoUndoUnlocks([a])
    ensures AtMostOpen(s, all, 1) && NoUndoUnlocks(all)
    ensures Exec(s, all) == Step(Exec(s, acts), a)
  {
    all := acts + [a];
    assert all[..|all| - 1] == acts && all[..|all|] == all;
    assert [a][0] == a;
    forall i | 0 <= i <= |all| ensures Open(Exec(s, all[..i])) <= 1 {
      if i < |all| {
        assert all[..i] == acts[..i];
      }
    }
  }

  /** Process 0 unlocks a unit that some other process has locked. */
  lemma UnlockForAnother(s: State)
    requires |s.sem.adj| == |s.phase| > 0 && s.phase[0].Idle? && Open(s) == 0
    requires s.size == 1 && s.sem.value == 0
    ensures var s1 := Step(s, CheckUsed(0, true));
            Open(s1) <= 1 && Step(s1, Post(0)) == s.(sem := Sem(1, s.sem.adj))
  {
    CountUpdate(s.phase, 0, Cleared(true), (ph: Phase) => ph.Cleared?);
    assert s.phase[0 := Cleared(true)][0 := Idle] == s.phase;
  }

  lemma OwnerDies(s: State, m: nat, v: nat)
    requires |s.sem.adj| == |s.phase| && 0 < m < |s.phase| && s.phase[0].Idle? && s.phase[m].Idle? && Open(s) == 0
    requires s.size == 1 && s.sem.value == 1 && s.sem.adj[m] == v < SEMVMX
    ensures Settled(Step(s, Crash(m)), v + 1)
  {
    CountUpdate(s.phase, m, Gone, (ph: Phase) => ph.Cleared?);
  }

  /** The second half of a round: process 0 unlocks the unit of process m, which then dies. */
  lemma UnlockThenCrash(s0: State, locked: seq<Action>, m: nat, v: nat) returns (acts: seq<Action>)
    requires AtMostOpen(s0, locked, 1) && NoUndoUnlocks(locked)
    requires var s := Exec(s0, locked);
             |s.sem.adj| == |s.phase| && 0 < m < |s.phase| && s.phase[0].Idle? && s.phase[m].Idle? &&
             s.size == 1 && s.sem.value == 0 && s.sem.adj[m] == v < SEMVMX && Open(s) == 0
    ensures Settled(Exec(s0, acts), v + 1) && AtMostOpen(s0, acts, 1) && NoUndoUnlocks(acts)
  {
    UnlockForAnother(Exec(s0, locked));
    acts := Extend(s0, locked, CheckUsed(0, true));
    acts := Extend(s0, acts, Post(0));
    OwnerDies(Exec(s0, acts), m, v);
    acts := Extend(s0, acts, Crash(m));
  }

  /** A round: a new process takes all v units, and one of them is handed back twice. */
  lemma OneRound(s0: State, before: seq<Action>, v: nat) returns (acts: seq<Action>)
    requires AtMostOpen(s0, before, 1) && NoUndoUnlocks(before)
    requires Settled(Exec(s0, before), v) && v < SEMVMX
    ensures Settled(Exec(s0, acts), v + 1) && AtMostOpen(s0, acts, 1) && NoUndoUnlocks(acts)
  {
    var s := Exec(s0, before);
    var m := |s.phase|;
    CountAppend(s.phase, Idle, (ph: Phase) => ph.Cleared?);
    var forked := Extend(s0, before, Fork);
    var locks := LockRepeatedly(m, v);
    AfterLockRepeatedly(Exec(s0, forked), m, v);
    AtMostOpenConcat(s0, forked, locks, 1);
    ExecConcat(s0, forked, locks);
    acts := UnlockThenCrash(s0, forked + locks, m, v);
  }

  lemma {:induction false} NoUndoUnlocksMatched(s: State, acts: seq<Action>)
    requires NoUndoUnlocks(acts)
    requires forall p :: 0 <= p < |s.phase| ==> s.phase[p] != Cleared(false)
    ensures Matched(s, acts)
    ensures forall p :: 0 <= p < |Exec(s, acts).phase| ==> Exec(s, acts).phase[p] != Cleared(false)
  {
    if acts != [] {
      NoUndoUnlocksMatched(s, acts[..|acts| - 1]);
    }
  }

  lemma {:induction false} MixedRounds(v: nat) returns (acts: seq<Action>)
    requires 1 <= v <= SEMVMX
    ensures NoUndoUnlocks(acts) && AtMostOpen(Start(1, 1), acts, 1)
    ensures Settled(Exec(Start(1, 1), acts), v)
  {
    var s0 := Start(1, 1);
    if v == 1 {
      acts := [];
      CountAtMost(s0.phase, (ph: Phase) => ph.Cleared?);
    } else {
      var before := MixedRounds(v - 1);
      acts := OneRound(s0, before, v - 1);
    }
  }

  /** Why the bound asks for one mode alone.  When a persistent unlock hands back the unit of an
      undoable lock, the exit of its owner hands it back again; by repeating that, a semaphore
      of size 1 reaches every value up to the system limit, in a matched run in which no two
      unlocks ever overlap. */
  lemma MixedModesUnbounded(v: nat) returns (acts: seq<Action>)
    requires 1 <= v <= SEMVMX
    ensures Matched(Start(1, 1), acts) && AtMostOpen(Start(1, 1), acts, 1)
    ensures Exec(Start(1, 1), acts).sem.value == v
  {
    acts := MixedRounds(v);
    NoUndoUnlocksMatched(Start(1, 1), acts);
  }
}
