/** Word accesses to one guarded segment by any number of processes.

    A write stores its word while it holds the guard; a read locks and unlocks the guard first and
    loads the word afterwards, when any other process may be inside.  A load and a store of one
    word are single steps.  `hist` is what the callers see: calls and returns in the order in
    which they happen; a call is named by its position in `hist`. */
module GuardedWords {
  import G = GuardProtocol

  datatype Op = Write(offset: nat, value: int) | Read(offset: nat)

  datatype Event = Invoke(p: nat, op: Op) | Response(id: nat, result: int)

  datatype Stage = Called | Stored | Unlocked | Loaded(value: int)

  datatype Job = Idle | Busy(id: nat, op: Op, stage: Stage)

  /** A call at the moment of its load or store. */
  datatype Access = Access(id: nat, op: Op)

  /** `order` is an auxiliary record of the loads and stores; no step depends on it. */
  datatype State = State(guard: G.Guard, mem: seq<int>, job: seq<Job>, hist: seq<Event>, order: seq<Access>)

  datatype Action =
    | Call(p: nat, op: Op)
    | Lock(p: nat)
    | Store(p: nat)
    | CheckUsed(p: nat)
    | Post(p: nat)
    | Load(p: nat)
    | Return(p: nat)
    | Crash(p: nat)
    | Fork

  function Start(mem: seq<int>, n: nat): State {
    State(G.Start(n), mem, seq(n, i => Idle), [], [])
  }

  /** The work that has to be done inside the guard is done. */
  predicate ReadyToUnlock(j: Job) {
    j.Busy? && j.stage == if j.op.Write? then Stored else Called
  }

  predicate Enabled(s: State, a: Action) {
    |s.job| == |s.guard.phase| &&
    match a
    case Call(p, op) => p < |s.job| && s.guard.phase[p].Out? && s.job[p].Idle? && op.offset < |s.mem|
    case Lock(p) => p < |s.job| && s.job[p].Busy? && s.job[p].stage.Called? && G.Enabled(s.guard, G.Lock(p))
    case Store(p) =>
      p < |s.job| && s.guard.phase[p].In? && s.job[p].Busy? && s.job[p].op.Write? && s.job[p].stage.Called? &&
      s.job[p].op.offset < |s.mem|
    case CheckUsed(p) => p < |s.job| && ReadyToUnlock(s.job[p]) && G.Enabled(s.guard, G.CheckUsed(p))
    case Post(p) => p < |s.job| && s.job[p].Busy? && G.Enabled(s.guard, G.Post(p))
    case Load(p) =>
      p < |s.job| && s.guard.phase[p].Out? && s.job[p].Busy? && s.job[p].stage.Unlocked? &&
      s.job[p].op.offset < |s.mem|
    case Return(p) =>
      p < |s.job| && s.guard.phase[p].Out? && s.job[p].Busy? && (s.job[p].stage.Stored? || s.job[p].stage.Loaded?)
    case Crash(p) => p < |s.job| && G.Enabled(s.guard, G.Crash(p))
    case Fork => G.Enabled(s.guard, G.Fork)
  }

  function Step(s: State, a: Action): State {
    if !Enabled(s, a) then s else
    match a
    case Call(p, op) =>
      s.(job := s.job[p := Busy(|s.hist|, op, Called)], hist := s.hist + [Invoke(p, op)])
    case Lock(p) => s.(guard := G.Step(s.guard, G.Lock(p)))
    case Store(p) =>
      var j := s.job[p];
      s.(mem := s.mem[j.op.offset := j.op.value],
         job := s.job[p := j.(stage := Stored)],
         order := s.order + [Access(j.id, j.op)])
    case CheckUsed(p) => s.(guard := G.Step(s.guard, G.CheckUsed(p)))
    case Post(p) =>
      var g := G.Step(s.guard, G.Post(p));
      if g.phase[p].Out? && s.job[p].op.Read?
      then s.(guard := g, job := s.job[p := s.job[p].(stage := Unlocked)])
      else s.(guard := g)
    case Load(p) =>
      var j := s.job[p];
      s.(job := s.job[p := j.(stage := Loaded(s.mem[j.op.offset]))],
         order := s.order + [Access(j.id, j.op)])
    case Return(p) =>
      var j := s.job[p];
      s.(job := s.job[p := Idle],
         hist := s.hist + [Response(j.id, if j.stage.Loaded? then j.stage.value else 0)])
    case Crash(p) => s.(guard := G.Step(s.guard, G.Crash(p)), job := s.job[p := Idle])
    case Fork => s.(guard := G.Step(s.guard, G.Fork), job := s.job + [Idle])
  }

  function Exec(s: State, acts: seq<Action>): State {
    if acts == [] then s else Step(Exec(s, acts[..|acts| - 1]), acts[|acts| - 1])
  }

  // ---------------------------------------------------------------- independent registers, one access at a time

  predicate WritesTo(c: Access, offset: nat) {
    c.op.Write? && c.op.offset == offset
  }

  /** No access from position `from` up to position `to` writes the word. */
  predicate NoWrite(order: seq<Access>, from: nat, to: nat, offset: nat)
    requires to <= |order|
  {
    forall z :: from <= z < to ==> !WritesTo(order[z], offset)
  }

  /** Access y, before position x, is the last one to write the word, and writes v. */
  predicate LastWrite(order: seq<Access>, y: nat, x: nat, offset: nat, v: int)
    requires y < x <= |order|
  {
    WritesTo(order[y], offset) && order[y].op.value == v && NoWrite(order, y + 1, x, offset)
  }

  /** What a register holds before position x: the value of the last write to it, and what it held
      at the start if there is none. */
  ghost predicate Holds(mem: seq<int>, order: seq<Access>, x: nat, offset: nat, v: int)
    requires x <= |order| && offset < |mem|
  {
    (NoWrite(order, 0, x, offset) && v == mem[offset]) || (exists y :: 0 <= y < x && LastWrite(order, y, x, offset, v))
  }

  /** That is one value. */
  lemma HoldsOne(mem: seq<int>, order: seq<Access>, x: nat, offset: nat, v: int, w: int)
    requires x <= |order| && offset < |mem|
    requires Holds(mem, order, x, offset, v) && Holds(mem, order, x, offset, w)
    ensures v == w
  {
    if !NoWrite(order, 0, x, offset) {
      var y :| 0 <= y < x && LastWrite(order, y, x, offset, v);
      var z :| 0 <= z < x && LastWrite(order, z, x, offset, w);
      assert WritesTo(order[y], offset) && WritesTo(order[z], offset);
      assert y == z;
    }
  }

  ghost predicate CallsOnce(mem: seq<int>, hist: seq<Event>, order: seq<Access>) {
    && (forall x :: 0 <= x < |order| ==>
          && order[x].id < |hist| && order[x].op.offset < |mem|
          && hist[order[x].id].Invoke? && hist[order[x].id].op == order[x].op)
    && (forall x, y :: 0 <= x < y < |order| ==> order[x].id != order[y].id)
  }

  /** Access x is call `id`, and if it is a read, `result` is what its register holds there. */
  ghost predicate ExplainedAt(mem: seq<int>, order: seq<Access>, x: nat, id: nat, result: int)
    requires x < |order|
  {
    order[x].id == id &&
    (order[x].op.Read? ==> order[x].op.offset < |mem| && Holds(mem, order, x, order[x].op.offset, result))
  }

  /** Call `id` is in the order, and `result` is what it returns when made at that place. */
  ghost predicate Explains(mem: seq<int>, order: seq<Access>, id: nat, result: int) {
    exists x :: 0 <= x < |order| && ExplainedAt(mem, order, x, id, result)
  }

  ghost predicate ResponsesExplained(mem: seq<int>, hist: seq<Event>, order: seq<Access>) {
    forall j :: 0 <= j < |hist| && hist[j].Response? ==>
      hist[j].id < j && hist[hist[j].id].Invoke? && Explains(mem, order, hist[j].id, hist[j].result)
  }

  /** A call that returned before another was made is not ordered after it. */
  ghost predicate RespectsRealTime(hist: seq<Event>, order: seq<Access>) {
    forall x, y, j :: 0 <= x < y < |order| && 0 <= j < |hist| && hist[j].Response? && hist[j].id == order[y].id ==>
      order[x].id < j
  }

  /** A legal sequential execution of independent registers, of calls made in the history, that
      contains every returned call and explains its result, and respects real time. */
  ghost predicate IsLinearization(mem: seq<int>, hist: seq<Event>, order: seq<Access>) {
    CallsOnce(mem, hist, order) && ResponsesExplained(mem, hist, order) && RespectsRealTime(hist, order)
  }

  ghost predicate Linearizable(mem: seq<int>, hist: seq<Event>) {
    exists order :: IsLinearization(mem, hist, order)
  }

  // ---------------------------------------------------------------- invariant

  predicate Made(hist: seq<Event>, id: nat) {
    exists j :: 0 <= j < |hist| && hist[j].Response? && hist[j].id == id
  }

  predicate NotOrdered(order: seq<Access>, id: nat) {
    forall x :: 0 <= x < |order| ==> order[x].id != id
  }

  ghost predicate JobInv(mem0: seq<int>, s: State, p: nat)
    requires p < |s.job|
  {
    var j := s.job[p];
    && (p < |s.guard.phase| && s.guard.phase[p].Cleared? ==> ReadyToUnlock(j))
    && (G.Holds(s.guard, p) ==> j.Busy? && (j.stage.Called? || (j.op.Write? && j.stage.Stored?)))
    && (j.Busy? ==>
      && j.id < |s.hist| && s.hist[j.id] == Invoke(p, j.op) && j.op.offset < |mem0|
      && !Made(s.hist, j.id)
      && (j.stage.Stored? ==> j.op.Write? && Explains(mem0, s.order, j.id, 0))
      && (j.stage.Loaded? ==> j.op.Read? && Explains(mem0, s.order, j.id, j.stage.value))
      && (j.stage.Unlocked? ==> j.op.Read?)
      && (j.stage.Called? || j.stage.Unlocked? ==> NotOrdered(s.order, j.id)))
  }

  ghost predicate MemoryIs(mem0: seq<int>, order: seq<Access>, mem: seq<int>) {
    |mem| == |mem0| && forall o :: 0 <= o < |mem| ==> Holds(mem0, order, |order|, o, mem[o])
  }

  ghost predicate Inv(mem0: seq<int>, s: State) {
    && G.Inv(s.guard)
    && |s.job| == |s.guard.phase|
    && MemoryIs(mem0, s.order, s.mem)
    && IsLinearization(mem0, s.hist, s.order)
    && (forall p :: 0 <= p < |s.job| ==> JobInv(mem0, s, p))
  }

  /** What comes later in the order does not matter to what a register held before. */
  lemma HoldsMore(mem: seq<int>, order: seq<Access>, c: Access, x: nat, offset: nat, v: int)
    requires x <= |order| && offset < |mem| && Holds(mem, order, x, offset, v)
    ensures Holds(mem, order + [c], x, offset, v)
  {
    var more := order + [c];
    if !NoWrite(order, 0, x, offset) {
      var y :| 0 <= y < x && LastWrite(order, y, x, offset, v);
      assert LastWrite(more, y, x, offset, v);
    }
  }

  /** One access more: a write to the register, or anything else. */
  lemma HoldsAfter(mem: seq<int>, order: seq<Access>, c: Access, offset: nat, v: int)
    requires offset < |mem| && Holds(mem, order, |order|, offset, v)
    ensures Holds(mem, order + [c], |order| + 1, offset, if WritesTo(c, offset) then c.op.value else v)
  {
    var more := order + [c];
    if WritesTo(c, offset) {
      assert LastWrite(more, |order|, |order| + 1, offset, c.op.value);
    } else if !NoWrite(order, 0, |order|, offset) {
      var y :| 0 <= y < |order| && LastWrite(order, y, |order|, offset, v);
      assert LastWrite(more, y, |order| + 1, offset, v);
    }
  }

  lemma MemoryAfter(mem0: seq<int>, order: seq<Access>, mem: seq<int>, c: Access)
    requires MemoryIs(mem0, order, mem) && c.op.offset < |mem|
    ensures MemoryIs(mem0, order + [c], if c.op.Write? then mem[c.op.offset := c.op.value] else mem)
  {
    var more, after := order + [c], if c.op.Write? then mem[c.op.offset := c.op.value] else mem;
    forall o | 0 <= o < |after| ensures Holds(mem0, more, |more|, o, after[o]) {
      HoldsAfter(mem0, order, c, o, mem[o]);
    }
  }

  lemma ExplainsMore(mem: seq<int>, order: seq<Access>, c: Access, id: nat, result: int)
    requires Explains(mem, order, id, result)
    ensures Explains(mem, order + [c], id, result)
  {
    var x :| 0 <= x < |order| && ExplainedAt(mem, order, x, id, result);
    assert (order + [c])[x] == order[x];
    if order[x].op.Read? {
      HoldsMore(mem, order, c, x, order[x].op.offset, result);
    }
    assert ExplainedAt(mem, order + [c], x, id, result);
  }

  lemma ExplainsLast(mem0: seq<int>, order: seq<Access>, mem: seq<int>, c: Access, result: int)
    requires MemoryIs(mem0, order, mem)
    requires c.op.offset < |mem| && (c.op.Read? ==> result == mem[c.op.offset])
    ensures Explains(mem0, order + [c], c.id, result)
  {
    assert (order + [c])[|order|] == c;
    HoldsMore(mem0, order, c, |order|, c.op.offset, mem[c.op.offset]);
    assert ExplainedAt(mem0, order + [c], |order|, c.id, result);
  }

  /** A call that has not returned can go to the end of the order. */
  lemma OrderOneMore(mem0: seq<int>, hist: seq<Event>, order: seq<Access>, c: Access)
    requires IsLinearization(mem0, hist, order)
    requires c.id < |hist| && hist[c.id].Invoke? && hist[c.id].op == c.op && c.op.offset < |mem0|
    requires !Made(hist, c.id) && NotOrdered(order, c.id)
    ensures IsLinearization(mem0, hist, order + [c])
  {
    var more := order + [c];
    forall i | 0 <= i < |hist| && hist[i].Response?
      ensures Explains(mem0, more, hist[i].id, hist[i].result)
    {
      ExplainsMore(mem0, order, c, hist[i].id, hist[i].result);
    }
    forall x, y, j | 0 <= x < y < |more| && 0 <= j < |hist| && hist[j].Response? && hist[j].id == more[y].id
      ensures more[x].id < j
    {
      assert y < |order|;
      assert order[y].id == hist[j].id;
      assert more[x] == order[x];
    }
  }

  /** A store: the call goes to the end of the order. */
  lemma StoreInv(mem0: seq<int>, s: State, p: nat)
    requires Inv(mem0, s) && Enabled(s, Store(p))
    ensures Inv(mem0, Step(s, Store(p)))
  {
    var j := s.job[p];
    assert JobInv(mem0, s, p);
    var c := Access(j.id, j.op);
    var t := Step(s, Store(p));
    ExplainsLast(mem0, s.order, s.mem, c, 0);
    MemoryAfter(mem0, s.order, s.mem, c);
    OrderOneMore(mem0, s.hist, s.order, c);
    forall q | 0 <= q < |t.job| ensures JobInv(mem0, t, q) {
      if q != p {
        OthersKeep(mem0, s, q, p, c);
        JobInvFrame(mem0, s.(order := s.order + [c]), t, q);
      }
    }
  }

  /** A load: likewise. */
  lemma LoadInv(mem0: seq<int>, s: State, p: nat)
    requires Inv(mem0, s) && Enabled(s, Load(p))
    ensures Inv(mem0, Step(s, Load(p)))
  {
    var j := s.job[p];
    assert JobInv(mem0, s, p);
    var c := Access(j.id, j.op);
    var t := Step(s, Load(p));
    ExplainsLast(mem0, s.order, s.mem, c, s.mem[j.op.offset]);
    MemoryAfter(mem0, s.order, s.mem, c);
    OrderOneMore(mem0, s.hist, s.order, c);
    forall q | 0 <= q < |t.job| ensures JobInv(mem0, t, q) {
      if q != p {
        OthersKeep(mem0, s, q, p, c);
        JobInvFrame(mem0, s.(order := s.order + [c]), t, q);
      }
    }
  }

  lemma OthersKeep(mem0: seq<int>, s: State, q: nat, p: nat, c: Access)
    requires q < |s.job| && p < |s.job| && q != p && JobInv(mem0, s, q)
    requires c.id < |s.hist| && s.hist[c.id] == Invoke(p, c.op)
    ensures JobInv(mem0, s.(order := s.order + [c]), q)
  {
    var k := s.job[q];
    if k.Busy? && (k.stage.Stored? || k.stage.Loaded?) {
      ExplainsMore(mem0, s.order, c, k.id, if k.stage.Loaded? then k.stage.value else 0);
    }
  }

  lemma CallInv(mem0: seq<int>, s: State, p: nat, op: Op)
    requires Inv(mem0, s) && Enabled(s, Call(p, op))
    ensures Inv(mem0, Step(s, Call(p, op)))
  {
    var t := Step(s, Call(p, op));
    HistoryOneMore(mem0, s.hist, s.order, Invoke(p, op));
    forall q | 0 <= q < |t.job| ensures JobInv(mem0, t, q) {
      assert JobInv(mem0, s, q);
    }
  }

  lemma ReturnInv(mem0: seq<int>, s: State, p: nat)
    requires Inv(mem0, s) && Enabled(s, Return(p))
    ensures Inv(mem0, Step(s, Return(p)))
  {
    var t := Step(s, Return(p));
    var e := t.hist[|s.hist|];
    assert JobInv(mem0, s, p);
    HistoryOneMore(mem0, s.hist, s.order, e);
    forall q | 0 <= q < |t.job| ensures JobInv(mem0, t, q) {
      assert JobInv(mem0, s, q);
      if q != p && s.job[q].Busy? {
        assert s.hist[s.job[q].id].p != s.hist[s.job[p].id].p;
        assert !Made(t.hist, s.job[q].id);
      }
    }
  }

  lemma HistoryOneMore(mem0: seq<int>, hist: seq<Event>, order: seq<Access>, e: Event)
    requires IsLinearization(mem0, hist, order)
    requires e.Response? ==> e.id < |hist| && hist[e.id].Invoke? && Explains(mem0, order, e.id, e.result)
    ensures IsLinearization(mem0, hist + [e], order)
  {
    var more := hist + [e];
    forall x, y, j | 0 <= x < y < |order| && 0 <= j < |more| && more[j].Response? && more[j].id == order[y].id
      ensures order[x].id < j
    {
      assert j < |hist| ==> more[j] == hist[j];
    }
  }

  lemma JobInvFrame(mem0: seq<int>, s: State, t: State, q: nat)
    requires q < |s.job| && q < |t.job| && JobInv(mem0, s, q)
    requires t.hist == s.hist && t.order == s.order && t.job[q] == s.job[q]
    requires q < |t.guard.phase| && t.guard.phase[q].Cleared? ==>
               ReadyToUnlock(t.job[q]) || (q < |s.guard.phase| && s.guard.phase[q].Cleared?)
    requires G.Holds(t.guard, q) ==> G.Holds(s.guard, q) || (t.job[q].Busy? && t.job[q].stage.Called?)
    ensures JobInv(mem0, t, q)
  {
  }

  /** A step that touches neither the memory, nor the history, nor the order, and at most process p. */
  lemma QuietInv(mem0: seq<int>, s: State, t: State, p: nat)
    requires Inv(mem0, s) && G.Inv(t.guard) && |t.job| == |t.guard.phase| >= |s.job|
    requires t.mem == s.mem && t.hist == s.hist && t.order == s.order
    requires forall q :: 0 <= q < |s.job| && q != p ==> t.job[q] == s.job[q] && t.guard.phase[q] == s.guard.phase[q]
    requires forall q :: |s.job| <= q < |t.job| ==> t.job[q].Idle? && t.guard.phase[q].Out?
    requires p < |t.job| ==> JobInv(mem0, t, p)
    ensures Inv(mem0, t)
  {
    forall q | 0 <= q < |t.job| ensures JobInv(mem0, t, q) {
      if q < |s.job| && q != p {
        JobInvFrame(mem0, s, t, q);
      }
    }
  }

  lemma LockOrCheckInv(mem0: seq<int>, s: State, p: nat, a: Action)
    requires Inv(mem0, s) && Enabled(s, a) && (a == Lock(p) || a == CheckUsed(p))
    ensures Inv(mem0, Step(s, a))
  {
    G.StepInv(s.guard, if a.Lock? then G.Lock(p) else G.CheckUsed(p));
    JobInvFrame(mem0, s, Step(s, a), p);
    QuietInv(mem0, s, Step(s, a), p);
  }

  lemma CrashInv(mem0: seq<int>, s: State, p: nat)
    requires Inv(mem0, s) && Enabled(s, Crash(p))
    ensures Inv(mem0, Step(s, Crash(p)))
  {
    G.StepInv(s.guard, G.Crash(p));
    QuietInv(mem0, s, Step(s, Crash(p)), p);
  }

  lemma ForkInv(mem0: seq<int>, s: State)
    requires Inv(mem0, s) && Enabled(s, Fork)
    ensures Inv(mem0, Step(s, Fork))
  {
    G.StepInv(s.guard, G.Fork);
    QuietInv(mem0, s, Step(s, Fork), |s.job|);
  }

  lemma PostInv(mem0: seq<int>, s: State, p: nat)
    requires Inv(mem0, s) && Enabled(s, Post(p))
    ensures Inv(mem0, Step(s, Post(p)))
  {
    var t := Step(s, Post(p));
    G.StepInv(s.guard, G.Post(p));
    assert JobInv(mem0, s, p) && ReadyToUnlock(s.job[p]);
    forall q | 0 <= q < |t.job| ensures JobInv(mem0, t, q) {
      if q != p {
        JobInvFrame(mem0, s, t, q);
      }
    }
  }

  lemma StepInv(mem0: seq<int>, s: State, a: Action)
    requires Inv(mem0, s)
    ensures Inv(mem0, Step(s, a))
  {
    if Enabled(s, a) {
      match a
      case Call(p, op) => CallInv(mem0, s, p, op);
      case Return(p) => ReturnInv(mem0, s, p);
      case Store(p) => StoreInv(mem0, s, p);
      case Load(p) => LoadInv(mem0, s, p);
      case Post(p) => PostInv(mem0, s, p);
      case Lock(p) => LockOrCheckInv(mem0, s, p, a);
      case CheckUsed(p) => LockOrCheckInv(mem0, s, p, a);
      case Crash(p) => CrashInv(mem0, s, p);
      case Fork => ForkInv(mem0, s);
    }
  }

  lemma {:induction false} RunInv(mem0: seq<int>, n: nat, acts: seq<Action>)
    ensures Inv(mem0, Exec(Start(mem0, n), acts))
  {
    if acts == [] {
      G.StartInv(n);
    } else {
      RunInv(mem0, n, acts[..|acts| - 1]);
      StepInv(mem0, Exec(Start(mem0, n), acts[..|acts| - 1]), acts[|acts| - 1]);
    }
  }

  /** Word accesses are linearisable, crashes included, although a read loads its word after it
      has given the guard back. */
  lemma WordsLinearizable(mem0: seq<int>, n: nat, acts: seq<Action>)
    ensures Linearizable(mem0, Exec(Start(mem0, n), acts).hist)
  {
    RunInv(mem0, n, acts);
    assert IsLinearization(mem0, Exec(Start(mem0, n), acts).hist, Exec(Start(mem0, n), acts).order);
  }

  /** A process may die at any moment: memory and history stay as they are, and the guard is free if it
      was the holder. */
  lemma LiveMayDie(mem0: seq<int>, n: nat, acts: seq<Action>, p: nat)
    requires p < |Exec(Start(mem0, n), acts).guard.phase|
    ensures var s := Exec(Start(mem0, n), acts);
            var t := Step(s, Crash(p));
            && |t.guard.phase| == |s.guard.phase| == |t.job|
            && (!s.guard.phase[p].Gone? ==> t.guard.phase[p].Gone? && t.job[p].Idle?)
            && t.mem == s.mem && t.hist == s.hist
            && (G.Holds(s.guard, p) ==> G.Free(t.guard))
  {
    RunInv(mem0, n, acts);
    var s := Exec(Start(mem0, n), acts);
    G.OneHolder(s.guard);
    G.StepInv(s.guard, G.Crash(p));
  }

  // ---------------------------------------------------------------- progress

  predicate StepOf(a: Action, p: nat) {
    !a.Fork? && !a.Crash? && a.p == p
  }

  predicate StepsOf(acts: seq<Action>, p: nat) {
    forall i :: 0 <= i < |acts| ==> StepOf(acts[i], p)
  }

  /** A live process in a call, which does not have to wait for the guard. */
  predicate CanGoOn(s: State, p: nat) {
    && p < |s.job| == |s.guard.phase| && s.job[p].Busy?
    && (G.Holds(s.guard, p) || (s.guard.phase[p].Out? && !s.job[p].stage.Called?))
  }

  function NextOf(s: State, p: nat): Action
    requires CanGoOn(s, p)
  {
    if s.guard.phase[p].Cleared? then Post(p)
    else if s.guard.phase[p].In? then (if ReadyToUnlock(s.job[p]) then CheckUsed(p) else Store(p))
    else if s.job[p].stage.Unlocked? then Load(p)
    else Return(p)
  }

  function StepsLeft(s: State, p: nat): nat
    requires CanGoOn(s, p)
  {
    if s.guard.phase[p].Cleared? then 3
    else if s.guard.phase[p].In? then (if ReadyToUnlock(s.job[p]) then 4 else 5)
    else if s.job[p].stage.Unlocked? then 2
    else 1
  }

  lemma OneTurn(mem0: seq<int>, s: State, p: nat)
    requires Inv(mem0, s) && CanGoOn(s, p)
    ensures var a := NextOf(s, p);
            var t := Step(s, a);
            && StepOf(a, p) && Enabled(s, a) && Inv(mem0, t)
            && if a.Return? then Returned(s, p, t)
               else t.hist == s.hist && CanGoOn(t, p) && t.job[p].id == s.job[p].id && StepsLeft(t, p) < StepsLeft(s, p)
  {
    StepInv(mem0, s, NextOf(s, p));
    assert JobInv(mem0, s, p);
    if s.guard.phase[p].Cleared? {
      G.StepInv(s.guard, G.Post(p));
    } else if s.guard.phase[p].In? && ReadyToUnlock(s.job[p]) {
      G.StepInv(s.guard, G.CheckUsed(p));
    }
  }

  lemma {:induction false} ExecCons(s: State, a: Action, acts: seq<Action>)
    ensures Exec(s, [a] + acts) == Exec(Step(s, a), acts)
  {
    var all := [a] + acts;
    if acts == [] {
      assert all[..0] == [] && all[0] == a;
    } else {
      var front, last := acts[..|acts| - 1], acts[|acts| - 1];
      ExecCons(s, a, front);
      assert all[..|all| - 1] == [a] + front;
      assert all[|all| - 1] == last;
    }
  }

  /** The call of p has returned: that is all that the callers have seen meanwhile. */
  ghost predicate Returned(s: State, p: nat, t: State)
    requires p < |s.job|
  {
    && p < |t.job| && t.job[p].Idle? && |t.hist| == |s.hist| + 1 && t.hist[..|s.hist|] == s.hist
    && t.hist[|s.hist|].Response? && s.job[p].Busy? && t.hist[|s.hist|].id == s.job[p].id
  }

  lemma {:induction false} Finishes(mem0: seq<int>, s: State, p: nat) returns (acts: seq<Action>)
    requires Inv(mem0, s) && CanGoOn(s, p)
    ensures StepsOf(acts, p) && Returned(s, p, Exec(s, acts))
    decreases StepsLeft(s, p)
  {
    OneTurn(mem0, s, p);
    var a := NextOf(s, p);
    if a.Return? {
      acts := [a];
      assert acts[..0] == [] && Exec(s, acts) == Step(s, a);
    } else {
      var rest := Finishes(mem0, Step(s, a), p);
      ExecCons(s, a, rest);
      acts := [a] + rest;
    }
  }

  /** No access is ever stuck: in every reachable state, a process in a call that holds the guard, or
      finds it free, or has given it back, can complete the call by its own steps alone. */
  lemma AccessCompletes(mem0: seq<int>, n: nat, before: seq<Action>, p: nat) returns (acts: seq<Action>)
    requires var s := Exec(Start(mem0, n), before);
             && p < |s.job| && |s.guard.phase| == |s.job| && s.job[p].Busy? && !s.guard.phase[p].Gone?
             && (s.guard.sem.value == 1 || G.Holds(s.guard, p) || !s.job[p].stage.Called?)
    ensures StepsOf(acts, p)
    ensures var s := Exec(Start(mem0, n), before); p < |s.job| && Returned(s, p, Exec(s, acts))
  {
    RunInv(mem0, n, before);
    var s := Exec(Start(mem0, n), before);
    G.OneHolder(s.guard);
    if CanGoOn(s, p) {
      acts := Finishes(mem0, s, p);
    } else {
      StepInv(mem0, s, Lock(p));
      G.StepInv(s.guard, G.Lock(p));
      acts := Finishes(mem0, Step(s, Lock(p)), p);
      ExecCons(s, Lock(p), acts);
      acts := [Lock(p)] + acts;
    }
  }
}
