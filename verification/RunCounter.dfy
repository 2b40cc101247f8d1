/** The run counter of a daemon: `inc_count` reads the shared count in one guarded access and
    writes it back plus one in another, so that increments can be lost.  n processes each call
    it once. */
module RunCounter {
  import opened Totals
  import G = GuardProtocol

  const UINT_RANGE := 0x1_0000_0000
  const INT_MAX := 0x7FFF_FFFF

  /** How far a process has come: reading (`Fresh`, then `Released` when the guard is given back,
      then `Loaded`), writing (`Loaded`, then `Stored`), `Finished`. */
  datatype Stage = Fresh | Released | Loaded(value: int) | Stored | Finished

  datatype State = State(guard: G.Guard, count: int, stage: seq<Stage>)

  /** `junk` is what is stored when the increment is undefined in C. */
  datatype Action =
    | Lock(p: nat)
    | CheckUsed(p: nat)
    | Post(p: nat)
    | Load(p: nat)
    | Store(p: nat, junk: int)
    | Crash(p: nat)

  /** The loaded word plus one, by way of a signed int: undefined for the largest int alone. */
  function Incremented(value: int, junk: int): int {
    if value == INT_MAX then junk else (value + 1) % UINT_RANGE
  }

  function Start(count: int, n: nat): State {
    State(G.Start(n), count, seq(n, i => Fresh))
  }

  predicate Enabled(s: State, a: Action) {
    |s.stage| == |s.guard.phase| && a.p < |s.stage| &&
    match a
    case Lock(p) => (s.stage[p].Fresh? || s.stage[p].Loaded?) && G.Enabled(s.guard, G.Lock(p))
    case CheckUsed(p) => (s.stage[p].Fresh? || s.stage[p].Stored?) && G.Enabled(s.guard, G.CheckUsed(p))
    case Post(p) => G.Enabled(s.guard, G.Post(p))
    case Load(p) => s.stage[p].Released? && s.guard.phase[p].Out?
    case Store(p, _) => s.stage[p].Loaded? && s.guard.phase[p].In?
    case Crash(p) => G.Enabled(s.guard, G.Crash(p))
  }

  function Step(s: State, a: Action): State {
    if !Enabled(s, a) then s else
    match a
    case Lock(p) => s.(guard := G.Step(s.guard, G.Lock(p)))
    case CheckUsed(p) => s.(guard := G.Step(s.guard, G.CheckUsed(p)))
    case Post(p) =>
      var g := G.Step(s.guard, G.Post(p));
      if g.phase[p].Out?
      then State(g, s.count, s.stage[p := if s.stage[p].Fresh? then Released else Finished])
      else s.(guard := g)
    case Load(p) => s.(stage := s.stage[p := Loaded(s.count)])
    case Store(p, junk) => s.(count := Incremented(s.stage[p].value, junk), stage := s.stage[p := Stored])
    case Crash(p) => s.(guard := G.Step(s.guard, G.Crash(p)))
  }

  function Exec(s: State, acts: seq<Action>): State {
    if acts == [] then s else Step(Exec(s, acts[..|acts| - 1]), acts[|acts| - 1])
  }

  predicate HasStored(st: Stage) {
    st.Stored? || st.Finished?
  }

  /** The number of stores made so far. */
  function Stores(s: State): nat {
    Count(s.stage, (st: Stage) => HasStored(st))
  }

  /** The step is not an increment of the largest int. */
  predicate StepDefined(s: State, a: Action) {
    a.Store? && Enabled(s, a) ==> s.stage[a.p].value != INT_MAX
  }

  /** No increment along the run is undefined. */
  predicate Defined(s: State, acts: seq<Action>) {
    acts != [] ==>
      Defined(s, acts[..|acts| - 1]) && StepDefined(Exec(s, acts[..|acts| - 1]), acts[|acts| - 1])
  }

  ghost predicate Inv(c0: int, n: nat, s: State) {
    && G.Inv(s.guard) && |s.guard.phase| == |s.stage| == n
    && c0 + (if Stores(s) > 0 then 1 else 0) <= s.count <= c0 + Stores(s)
    && (forall p :: 0 <= p < n ==>
          && (s.stage[p].Loaded? ==> c0 <= s.stage[p].value <= c0 + Stores(s))
          && (s.guard.phase[p].Cleared? ==> s.stage[p].Fresh? || s.stage[p].Stored?))
  }

  /** Steps of the guard alone. */
  lemma GuardStepInv(c0: int, n: nat, s: State, a: Action)
    requires Inv(c0, n, s) && Enabled(s, a) && (a.Lock? || a.CheckUsed? || a.Crash?)
    ensures Inv(c0, n, Step(s, a))
  {
    match a
    case Lock(p) => G.StepInv(s.guard, G.Lock(p));
    case CheckUsed(p) => G.StepInv(s.guard, G.CheckUsed(p));
    case Crash(p) => G.StepInv(s.guard, G.Crash(p));
  }

  lemma PostInv(c0: int, n: nat, s: State, p: nat)
    requires Inv(c0, n, s) && Enabled(s, Post(p))
    ensures Inv(c0, n, Step(s, Post(p))) && Stores(Step(s, Post(p))) == Stores(s)
  {
    G.StepInv(s.guard, G.Post(p));
    CountUpdate(s.stage, p, if s.stage[p].Fresh? then Released else Finished, (st: Stage) => HasStored(st));
  }

  lemma LoadInv(c0: int, n: nat, s: State, p: nat)
    requires Inv(c0, n, s) && Enabled(s, Load(p))
    ensures Inv(c0, n, Step(s, Load(p))) && Stores(Step(s, Load(p))) == Stores(s)
  {
    CountUpdate(s.stage, p, Loaded(s.count), (st: Stage) => HasStored(st));
  }

  lemma StoreCounts(n: nat, s: State, p: nat, junk: int)
    requires |s.stage| == n && Enabled(s, Store(p, junk))
    ensures Stores(Step(s, Store(p, junk))) == Stores(s) + 1 <= n
  {
    CountUpdate(s.stage, p, Stored, (st: Stage) => HasStored(st));
    CountAtMost(s.stage[p := Stored], (st: Stage) => HasStored(st));
  }

  lemma StoreInv(c0: int, n: nat, s: State, p: nat, junk: int)
    requires Inv(c0, n, s) && Enabled(s, Store(p, junk)) && StepDefined(s, Store(p, junk))
    requires 0 <= c0 && c0 + n < 0x1_0000_0000
    ensures Inv(c0, n, Step(s, Store(p, junk)))
    ensures Step(s, Store(p, junk)).count == s.stage[p].value + 1
  {
    StoreCounts(n, s, p, junk);
  }

  lemma StepInv(c0: int, n: nat, s: State, a: Action)
    requires Inv(c0, n, s) && 0 <= c0 && c0 + n < 0x1_0000_0000 && StepDefined(s, a)
    ensures Inv(c0, n, Step(s, a))
    ensures Stores(Step(s, a)) == Stores(s) + if a.Store? && Enabled(s, a) then 1 else 0
  {
    if Enabled(s, a) {
      match a
      case Post(p) => PostInv(c0, n, s, p);
      case Load(p) => LoadInv(c0, n, s, p);
      case Store(p, junk) => StoreInv(c0, n, s, p, junk); StoreCounts(n, s, p, junk);
      case _ => GuardStepInv(c0, n, s, a);
    }
  }

  lemma {:induction false} RunInv(c0: int, n: nat, acts: seq<Action>)
    requires 0 <= c0 && c0 + n < 0x1_0000_0000 && Defined(Start(c0, n), acts)
    ensures Inv(c0, n, Exec(Start(c0, n), acts))
  {
    if acts == [] {
      G.StartInv(n);
      CountAtMost(Start(c0, n).stage, (st: Stage) => HasStored(st));
    } else {
      RunInv(c0, n, acts[..|acts| - 1]);
      StepInv(c0, n, Exec(Start(c0, n), acts[..|acts| - 1]), acts[|acts| - 1]);
    }
  }

  /** Counts that neither wrap around nor meet the largest int before the last one. */
  predicate Away(c0: int, n: nat) {
    0 <= c0 && c0 + n < 0x1_0000_0000 && !(c0 <= 0x7FFF_FFFF < c0 + n)
  }

  /** Nothing is undefined unless the largest int is among c0, ..., c0 + n - 1. */
  lemma {:induction false} AwayFromIntMax(c0: int, n: nat, acts: seq<Action>)
    requires Away(c0, n)
    ensures Defined(Start(c0, n), acts)
  {
    if acts != [] {
      var front, a := acts[..|acts| - 1], acts[|acts| - 1];
      var s := Exec(Start(c0, n), front);
      AwayFromIntMax(c0, n, front);
      RunInv(c0, n, front);
      if a.Store? && Enabled(s, a) {
        StoreCounts(n, s, a.p, a.junk);
      }
    }
  }

  ghost predicate AllFinished(s: State) {
    forall p :: 0 <= p < |s.stage| ==> s.stage[p].Finished?
  }

  /** Under any interleaving, with crashes: the count has moved by at least one as soon as anyone
      has stored, and by no more than the number of stores; so once all n >= 1 calls have
      returned it lies between c0 + 1 and c0 + n. */
  lemma IncrementsBounded(c0: int, n: nat, acts: seq<Action>)
    requires 0 <= c0 && c0 + n < 0x1_0000_0000 && Defined(Start(c0, n), acts)
    ensures var s := Exec(Start(c0, n), acts);
            && c0 + (if Stores(s) > 0 then 1 else 0) <= s.count <= c0 + Stores(s)
            && (n >= 1 && AllFinished(s) ==> c0 + 1 <= s.count <= c0 + n)
  {
    RunInv(c0, n, acts);
    var s := Exec(Start(c0, n), acts);
    CountAtMost(s.stage, (st: Stage) => HasStored(st));
  }

  /** A process may die at any moment of its call: the count stays as it is, its stage too, and the guard
      is free if it was the holder. */
  lemma LiveMayDie(c0: int, n: nat, acts: seq<Action>, p: nat)
    requires 0 <= c0 && c0 + n < 0x1_0000_0000 && Defined(Start(c0, n), acts) && p < n
    ensures var s := Exec(Start(c0, n), acts);
            var t := Step(s, Crash(p));
            && |s.guard.phase| == |t.guard.phase| == n
            && (!s.guard.phase[p].Gone? ==> t.guard.phase[p].Gone?)
            && t.count == s.count && t.stage == s.stage
            && (G.Holds(s.guard, p) ==> G.Free(t.guard))
  {
    RunInv(c0, n, acts);
    var s := Exec(Start(c0, n), acts);
    G.OneHolder(s.guard);
    G.StepInv(s.guard, G.Crash(p));
  }

  // ---------------------------------------------------------------- when nothing is lost

  /** What a store adds one to is still the count. */
  predicate StoreIsCurrent(s: State, a: Action) {
    a.Store? && Enabled(s, a) ==> s.stage[a.p].value == s.count
  }

  /** At every store of the run the loaded value is still the count. */
  predicate Lossless(s: State, acts: seq<Action>) {
    acts != [] ==>
      Lossless(s, acts[..|acts| - 1]) && StoreIsCurrent(Exec(s, acts[..|acts| - 1]), acts[|acts| - 1])
  }

  /** An increment has been lost, and cannot come back. */
  ghost predicate Behind(c0: int, s: State) {
    && s.count < c0 + Stores(s)
    && (forall p :: 0 <= p < |s.stage| && s.stage[p].Loaded? ==> s.stage[p].value < c0 + Stores(s))
  }

  lemma StillBehind(c0: int, n: nat, s: State, a: Action)
    requires Inv(c0, n, s) && 0 <= c0 && c0 + n < 0x1_0000_0000 && StepDefined(s, a)
    requires Behind(c0, s) || (s.count == c0 + Stores(s) && !StoreIsCurrent(s, a))
    ensures Behind(c0, Step(s, a))
  {
    StepInv(c0, n, s, a);
    if a.Store? && Enabled(s, a) {
      StoreInv(c0, n, s, a.p, a.junk);
    }
  }

  lemma StillExact(c0: int, n: nat, s: State, a: Action)
    requires Inv(c0, n, s) && 0 <= c0 && c0 + n < 0x1_0000_0000 && StepDefined(s, a)
    requires s.count == c0 + Stores(s) && StoreIsCurrent(s, a)
    ensures Step(s, a).count == c0 + Stores(Step(s, a))
  {
    StepInv(c0, n, s, a);
    if a.Store? && Enabled(s, a) {
      StoreInv(c0, n, s, a.p, a.junk);
    }
  }

  lemma {:induction false} ExactOrBehind(c0: int, n: nat, acts: seq<Action>)
    requires 0 <= c0 && c0 + n < 0x1_0000_0000 && Defined(Start(c0, n), acts)
    ensures var s := Exec(Start(c0, n), acts);
            if Lossless(Start(c0, n), acts) then s.count == c0 + Stores(s) else Behind(c0, s)
  {
    if acts == [] {
      CountAtMost(Start(c0, n).stage, (st: Stage) => HasStored(st));
    } else {
      var front, a := acts[..|acts| - 1], acts[|acts| - 1];
      ExactOrBehind(c0, n, front);
      RunInv(c0, n, front);
      if Lossless(Start(c0, n), acts) {
        StillExact(c0, n, Exec(Start(c0, n), front), a);
      } else {
        StillBehind(c0, n, Exec(Start(c0, n), front), a);
      }
    }
  }

  /** No increment is lost, so that the count has moved by the number of stores, if and only if at
      every store the loaded value was still the count. */
  lemma NothingLostExactly(c0: int, n: nat, acts: seq<Action>)
    requires 0 <= c0 && c0 + n < 0x1_0000_0000 && Defined(Start(c0, n), acts)
    ensures var s := Exec(Start(c0, n), acts);
            && (s.count == c0 + Stores(s) <==> Lossless(Start(c0, n), acts))
            && (AllFinished(s) ==> (s.count == c0 + n <==> Lossless(Start(c0, n), acts)))
  {
    ExactOrBehind(c0, n, acts);
    RunInv(c0, n, acts);
    CountAtMost(Exec(Start(c0, n), acts).stage, (st: Stage) => HasStored(st));
  }

  // ---------------------------------------------------------------- calls that do not overlap

  /** A live process that has entered its first access and not left its second. */
  predicate Inside(s: State, p: nat) {
    p < |s.stage| == |s.guard.phase| && !s.guard.phase[p].Gone? && !s.guard.phase[p].Aborted? &&
    !s.stage[p].Finished? && !(s.stage[p].Fresh? && s.guard.phase[p].Out?)
  }

  ghost predicate OneInside(s: State) {
    forall p, q :: Inside(s, p) && Inside(s, q) ==> p == q
  }

  ghost predicate NoOverlap(s: State, acts: seq<Action>) {
    forall i :: 0 <= i <= |acts| ==> OneInside(Exec(s, acts[..i]))
  }

  /** Nobody has stored between the load and the store of a process that is inside. */
  ghost predicate LoadsCurrent(s: State) {
    forall p: nat :: Inside(s, p) && s.stage[p].Loaded? ==> s.stage[p].value == s.count
  }

  lemma LoadsStayCurrent(n: nat, s: State, a: Action)
    requires G.Inv(s.guard) && |s.guard.phase| == |s.stage| == n && OneInside(s) && LoadsCurrent(s)
    ensures LoadsCurrent(Step(s, a))
  {
    var t := Step(s, a);
    if Enabled(s, a) {
      if a.Store? {
        assert Inside(s, a.p);
      }
      forall p: nat | Inside(t, p) && t.stage[p].Loaded? ensures t.stage[p].value == t.count {
        assert Inside(s, p);
      }
    }
  }

  lemma {:induction false} NoOverlapIsLossless(c0: int, n: nat, acts: seq<Action>)
    requires 0 <= c0 && c0 + n < 0x1_0000_0000 && Defined(Start(c0, n), acts) && NoOverlap(Start(c0, n), acts)
    ensures Lossless(Start(c0, n), acts) && LoadsCurrent(Exec(Start(c0, n), acts))
  {
    if acts != [] {
      var front, a := acts[..|acts| - 1], acts[|acts| - 1];
      var s := Exec(Start(c0, n), front);
      forall i | 0 <= i <= |front| ensures OneInside(Exec(Start(c0, n), front[..i])) {
        assert front[..i] == acts[..i];
      }
      NoOverlapIsLossless(c0, n, front);
      RunInv(c0, n, front);
      assert front[..|front|] == front;
      LoadsStayCurrent(n, s, a);
      assert a.Store? && Enabled(s, a) ==> Inside(s, a.p);
    }
  }

  /** In particular when no two calls overlap: the count has moved by exactly the number of stores,
      which is n once all n calls have returned. */
  lemma IncrementsExact(c0: int, n: nat, acts: seq<Action>)
    requires 0 <= c0 && c0 + n < 0x1_0000_0000 && Defined(Start(c0, n), acts) && NoOverlap(Start(c0, n), acts)
    ensures var s := Exec(Start(c0, n), acts);
            && s.count == c0 + Stores(s) && LoadsCurrent(s)
            && (AllFinished(s) ==> s.count == c0 + n)
  {
    NoOverlapIsLossless(c0, n, acts);
    NothingLostExactly(c0, n, acts);
  }

  // ---------------------------------------------------------------- every count in the range occurs

  lemma {:induction false} ExecConcat(s: State, a: seq<Action>, b: seq<Action>)
    ensures Exec(s, a + b) == Exec(Exec(s, a), b)
  {
    if b == [] {
      assert a + b == a;
    } else {
      var front, last := b[..|b| - 1], b[|b| - 1];
      ExecConcat(s, a, front);
      assert (a + b)[..|a + b| - 1] == a + front;
      assert (a + b)[|a + b| - 1] == last;
    }
  }

  lemma ExecFour(s: State, acts: seq<Action>)
    requires |acts| == 4
    ensures Exec(s, acts) == Step(Step(Step(Step(s, acts[0]), acts[1]), acts[2]), acts[3])
  {
    var a3, a2, a1 := acts[..3], acts[..2], acts[..1];
    assert a3[..2] == a2 && a2[..1] == a1 && a1[..0] == [];
    assert Exec(s, a1) == Step(s, acts[0]);
    assert Exec(s, a2) == Step(Exec(s, a1), acts[1]);
    assert Exec(s, a3) == Step(Exec(s, a2), acts[2]);
  }

  ghost predicate Resting(s: State, n: nat) {
    s.guard == G.Start(n) && |s.stage| == n
  }

  /** One lock, and later one unlock, of a free guard. */
  lemma GuardCycle(n: nat, p: nat)
    requires p < n
    ensures var g1 := G.Step(G.Start(n), G.Lock(p));
            var g2 := G.Step(g1, G.CheckUsed(p));
            && g1.phase[p].In? && g2.phase[p].Cleared? && G.Step(g2, G.Post(p)) == G.Start(n)
            && |g1.sem.adj| == |g1.phase| == n && |g2.sem.adj| == |g2.phase| == n
  {
    var g := G.Start(n);
    var g1 := G.Step(g, G.Lock(p));
    var g3 := G.Step(G.Step(g1, G.CheckUsed(p)), G.Post(p));
    assert g3.phase == g.phase && g3.sem.adj == g.sem.adj;
  }

  lemma Joined(s: State, a: seq<Action>, t: State, b: seq<Action>, u: State) returns (acts: seq<Action>)
    requires Exec(s, a) == t && Exec(t, b) == u
    ensures Exec(s, acts) == u
  {
    ExecConcat(s, a, b);
    acts := a + b;
  }

  /** The reading half of a call. */
  lemma ReadPart(s: State, n: nat, p: nat) returns (acts: seq<Action>)
    requires Resting(s, n) && p < n && s.stage[p].Fresh?
    ensures Exec(s, acts) == s.(stage := s.stage[p := Loaded(s.count)])
  {
    acts := [Lock(p), CheckUsed(p), Post(p), Load(p)];
    ExecFour(s, acts);
    GuardCycle(n, p);
  }

  /** The writing half. */
  lemma WritePart(s: State, n: nat, p: nat) returns (acts: seq<Action>)
    requires Resting(s, n) && p < n && s.stage[p].Loaded?
    ensures Exec(s, acts) == State(s.guard, Incremented(s.stage[p].value, 0), s.stage[p := Finished])
  {
    acts := [Lock(p), Store(p, 0), CheckUsed(p), Post(p)];
    ExecFour(s, acts);
    GuardCycle(n, p);
    assert s.stage[p := Stored][p := Finished] == s.stage[p := Finished];
  }

  lemma WholeCall(s: State, n: nat, p: nat) returns (acts: seq<Action>)
    requires Resting(s, n) && p < n && s.stage[p].Fresh? && 0 <= s.count < UINT_RANGE - 1 && s.count != INT_MAX
    ensures Exec(s, acts) == State(s.guard, s.count + 1, s.stage[p := Finished])
  {
    var t := s.(stage := s.stage[p := Loaded(s.count)]);
    var u := State(s.guard, s.count + 1, s.stage[p := Finished]);
    assert t.stage[p := Finished] == u.stage;
    var a := ReadPart(s, n, p);
    var b := WritePart(t, n, p);
    acts := Joined(s, a, t, b, u);
  }

  function AfterCalls(c0: int, n: nat, k: nat): State {
    State(G.Start(n), c0 + k, seq(n, i => if i < k then Finished else Fresh))
  }

  /** Processes 0 to k - 1 one after the other. */
  lemma {:induction false} Serially(c0: int, n: nat, k: nat) returns (acts: seq<Action>)
    requires Away(c0, n) && k <= n
    ensures Exec(Start(c0, n), acts) == AfterCalls(c0, n, k)
  {
    if k == 0 {
      assert AfterCalls(c0, n, 0).stage == Start(c0, n).stage;
      acts := [];
    } else {
      var s := AfterCalls(c0, n, k - 1);
      assert s.stage[k - 1 := Finished] == AfterCalls(c0, n, k).stage;
      var a := Serially(c0, n, k - 1);
      var b := WholeCall(s, n, k - 1);
      acts := Joined(Start(c0, n), a, s, b, AfterCalls(c0, n, k));
    }
  }

  function AllAt(s: State, lo: nat, hi: nat, st: Stage): seq<Stage> {
    seq(|s.stage|, i requires 0 <= i < |s.stage| => if lo <= i < hi then st else s.stage[i])
  }

  lemma OneMoreAt(s: State, lo: nat, hi: nat, st: Stage)
    requires lo < hi <= |s.stage|
    ensures AllAt(s, lo, hi - 1, st)[hi - 1 := st] == AllAt(s, lo, hi, st)
  {
  }

  /** Processes lo to hi - 1 all read. */
  lemma {:induction false} AllRead(s: State, n: nat, lo: nat, hi: nat) returns (acts: seq<Action>)
    requires Resting(s, n) && lo <= hi <= n
    requires forall i :: lo <= i < n ==> s.stage[i].Fresh?
    ensures Exec(s, acts) == s.(stage := AllAt(s, lo, hi, Loaded(s.count)))
  {
    if lo == hi {
      assert s.stage == AllAt(s, lo, hi, Loaded(s.count));
      acts := [];
    } else {
      var t := s.(stage := AllAt(s, lo, hi - 1, Loaded(s.count)));
      OneMoreAt(s, lo, hi, Loaded(s.count));
      var a := AllRead(s, n, lo, hi - 1);
      var b := ReadPart(t, n, hi - 1);
      acts := Joined(s, a, t, b, s.(stage := AllAt(s, lo, hi, Loaded(s.count))));
    }
  }

  /** And then all write. */
  lemma {:induction false} AllWrite(s: State, n: nat, lo: nat, hi: nat, v: int) returns (acts: seq<Action>)
    requires Resting(s, n) && lo < hi <= n && 0 <= v < UINT_RANGE - 1 && v != INT_MAX
    requires forall i :: lo <= i < n ==> s.stage[i] == Loaded(v)
    ensures Exec(s, acts) == State(s.guard, v + 1, AllAt(s, lo, hi, Finished))
  {
    var t := s;
    var a := [];
    OneMoreAt(s, lo, hi, Finished);
    if lo == hi - 1 {
      assert s.stage == AllAt(s, lo, lo, Finished);
    } else {
      a := AllWrite(s, n, lo, hi - 1, v);
      t := State(s.guard, v + 1, AllAt(s, lo, hi - 1, Finished));
    }
    var b := WritePart(t, n, hi - 1);
    acts := Joined(s, a, t, b, State(s.guard, v + 1, AllAt(s, lo, hi, Finished)));
  }

  lemma Overlapping(c0: int, n: nat, k: nat) returns (acts: seq<Action>)
    requires Away(c0, n) && k < n
    ensures Exec(AfterCalls(c0, n, k), acts) == AfterCalls(c0 + k + 1 - n, n, n)
  {
    var s := AfterCalls(c0, n, k);
    var t := s.(stage := AllAt(s, k, n, Loaded(s.count)));
    var u := AfterCalls(c0 + k + 1 - n, n, n);
    assert AllAt(t, k, n, Finished) == u.stage;
    var a := AllRead(s, n, k, n);
    var b := AllWrite(t, n, k, n, s.count);
    acts := Joined(s, a, t, b, u);
  }

  ghost predicate Returned(s: State, n: nat, count: int) {
    AllFinished(s) && |s.stage| == n && s.count == count
  }

  lemma AllCallsReturned(c0: int, n: nat)
    ensures Returned(AfterCalls(c0, n, n), n, c0 + n)
  {
  }

  /** The bounds cannot be improved: for every m between 1 and n there is a run in which all n
      calls return and the count has moved by m. */
  lemma EveryCountOccurs(c0: int, n: nat, m: nat) returns (acts: seq<Action>)
    requires Away(c0, n) && 1 <= m <= n
    ensures Returned(Exec(Start(c0, n), acts), n, c0 + m) && Defined(Start(c0, n), acts)
  {
    var k := m - 1;
    var t, u := AfterCalls(c0, n, k), AfterCalls(c0 + k + 1 - n, n, n);
    AllCallsReturned(c0 + k + 1 - n, n);
    var a := Serially(c0, n, k);
    var b := Overlapping(c0, n, k);
    acts := Joined(Start(c0, n), a, t, b, u);
    AwayFromIntMax(c0, n, acts);
  }
}
