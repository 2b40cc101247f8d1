/** String accesses to one guarded segment by any number of processes, byte by byte.

    A write stores the bytes of its image one at a time, a read copies one byte at a time, and
    both happen between the lock and the unlock of the guard.  `hist` is what the callers see:
    calls and returns in the order in which they happen; a call is named by its position in
    `hist`. */
module GuardedStrings {
  import opened CStrings
  import G = GuardProtocol

  datatype Op = Write(offset: nat, text: seq<Byte>) | Read(offset: nat)

  datatype Event = Invoke(p: nat, op: Op) | Response(id: nat, copy: seq<Byte>)

  /** `Returning` is a call that has given the guard back and not returned yet. */
  datatype Job =
    | Idle
    | Writing(id: nat, offset: nat, text: seq<Byte>, stored: nat)
    | Reading(id: nat, offset: nat, copied: seq<Byte>)
    | Returning(id: nat, copy: seq<Byte>)

  datatype Entry =
    | Wrote(id: nat, offset: nat, text: seq<Byte>)
    | Torn(id: nat, offset: nat, text: seq<Byte>, stored: nat)
    | Got(id: nat, offset: nat, copy: seq<Byte>)

  /** `log` is an auxiliary record of the accesses in the order in which they gave the guard back;
      no step depends on it. */
  datatype State = State(guard: G.Guard, mem: seq<Byte>, job: seq<Job>, hist: seq<Event>, log: seq<Entry>)

  datatype Action =
    | CallWrite(p: nat, offset: nat, text: seq<Byte>)
    | CallRead(p: nat, offset: nat)
    | Lock(p: nat)
    | StoreByte(p: nat)
    | LoadByte(p: nat)
    | CheckUsed(p: nat)
    | Post(p: nat)
    | Return(p: nat)
    | Crash(p: nat)
    | Fork

  function Start(mem: seq<Byte>, n: nat): State {
    State(G.Start(n), mem, seq(n, i => Idle), [], [])
  }

  function Bytes(s: State, j: Job): seq<Byte>
    requires j.Writing? && j.offset <= |s.mem|
  {
    Image(j.text, |s.mem| - j.offset)
  }

  predicate Working(j: Job) {
    j.Writing? || j.Reading?
  }

  predicate Finished(s: State, j: Job) {
    match j
    case Idle => false
    case Returning(_, _) => false
    case Writing(_, offset, _, stored) => offset <= |s.mem| && stored == |Bytes(s, j)|
    case Reading(_, offset, copied) => offset + |copied| == |s.mem|
  }

  predicate Enabled(s: State, a: Action) {
    |s.job| == |s.guard.phase| &&
    match a
    case CallWrite(p, offset, _) => p < |s.job| && s.guard.phase[p].Out? && s.job[p].Idle? && offset <= |s.mem|
    case CallRead(p, offset) => p < |s.job| && s.guard.phase[p].Out? && s.job[p].Idle? && offset <= |s.mem|
    case Lock(p) => p < |s.job| && Working(s.job[p]) && G.Enabled(s.guard, G.Lock(p))
    case StoreByte(p) =>
      p < |s.job| && s.guard.phase[p].In? && s.job[p].Writing? && s.job[p].offset <= |s.mem| &&
      s.job[p].stored < |Bytes(s, s.job[p])|
    case LoadByte(p) =>
      p < |s.job| && s.guard.phase[p].In? && s.job[p].Reading? && s.job[p].offset + |s.job[p].copied| < |s.mem|
    case CheckUsed(p) => p < |s.job| && Finished(s, s.job[p]) && G.Enabled(s.guard, G.CheckUsed(p))
    case Post(p) => p < |s.job| && Working(s.job[p]) && G.Enabled(s.guard, G.Post(p))
    case Return(p) => p < |s.job| && s.job[p].Returning? && s.guard.phase[p].Out?
    case Crash(p) => p < |s.job| && G.Enabled(s.guard, G.Crash(p))
    case Fork => G.Enabled(s.guard, G.Fork)
  }

  /** The log entry of a completed access. */
  function Completed(j: Job): Entry
    requires Working(j)
  {
    if j.Writing? then Wrote(j.id, j.offset, j.text) else Got(j.id, j.offset, j.copied)
  }

  function Step(s: State, a: Action): State {
    if !Enabled(s, a) then s else
    match a
    case CallWrite(p, offset, text) =>
      s.(job := s.job[p := Writing(|s.hist|, offset, text, 0)], hist := s.hist + [Invoke(p, Write(offset, text))])
    case CallRead(p, offset) =>
      s.(job := s.job[p := Reading(|s.hist|, offset, [])], hist := s.hist + [Invoke(p, Read(offset))])
    case Lock(p) => s.(guard := G.Step(s.guard, G.Lock(p)))
    case StoreByte(p) =>
      var j := s.job[p];
      s.(mem := s.mem[j.offset + j.stored := Bytes(s, j)[j.stored]],
         job := s.job[p := j.(stored := j.stored + 1)])
    case LoadByte(p) =>
      var j := s.job[p];
      var byte := if NUL in j.copied then NUL else s.mem[j.offset + |j.copied|];
      s.(job := s.job[p := j.(copied := j.copied + [byte])])
    case CheckUsed(p) => s.(guard := G.Step(s.guard, G.CheckUsed(p)))
    case Post(p) =>
      var g := G.Step(s.guard, G.Post(p));
      var j := s.job[p];
      if g.phase[p].Out?
      then s.(guard := g, log := s.log + [Completed(j)],
              job := s.job[p := Returning(j.id, if j.Reading? then j.copied else [])])
      else s.(guard := g)
    case Return(p) =>
      s.(job := s.job[p := Idle], hist := s.hist + [Response(s.job[p].id, s.job[p].copy)])
    case Crash(p) =>
      var j := s.job[p];
      s.(guard := G.Step(s.guard, G.Crash(p)), job := s.job[p := Idle],
         log := if G.Holds(s.guard, p) && j.Writing?
                then s.log + [Torn(j.id, j.offset, j.text, j.stored)] else s.log)
    case Fork => s.(guard := G.Step(s.guard, G.Fork), job := s.job + [Idle])
  }

  function Exec(s: State, acts: seq<Action>): State {
    if acts == [] then s else Step(Exec(s, acts[..|acts| - 1]), acts[|acts| - 1])
  }

  // ---------------------------------------------------------------- the serial specification

  /** One access made in a single step.  A torn write is a write cut short by a crash. */
  function Effect(mem: seq<Byte>, e: Entry): (r: seq<Byte>)
    ensures |r| == |mem|
  {
    match e
    case Wrote(_, offset, text) => if offset <= |mem| then VsnPrintf(mem, offset, text) else mem
    case Torn(_, offset, text, stored) =>
      if offset <= |mem|
      then
        var image := Image(text, |mem| - offset);
        Put(mem, offset, image[..Min(stored, |image|)])
      else mem
    case Got(_, _, _) => mem
  }

  function Replay(mem: seq<Byte>, log: seq<Entry>): (r: seq<Byte>)
    ensures |r| == |mem|
  {
    if log == [] then mem else Effect(Replay(mem, log[..|log| - 1]), log[|log| - 1])
  }

  /** Every read returned what strncpy gives of the memory left by the accesses before it. */
  predicate Faithful(mem: seq<Byte>, log: seq<Entry>) {
    forall k :: 0 <= k < |log| && log[k].Got? ==>
      log[k].offset <= |mem| && log[k].copy == StrNCpy(Replay(mem, log[..k])[log[k].offset..])
  }

  lemma LogOneMore(mem: seq<Byte>, log: seq<Entry>, e: Entry)
    requires Faithful(mem, log)
    requires e.Got? ==> e.offset <= |mem| && e.copy == StrNCpy(Replay(mem, log)[e.offset..])
    ensures Faithful(mem, log + [e])
    ensures Replay(mem, log + [e]) == Effect(Replay(mem, log), e)
  {
    var all := log + [e];
    assert all[..|log|] == log;
    forall k | 0 <= k < |log| && all[k].Got?
      ensures all[k].offset <= |mem| && all[k].copy == StrNCpy(Replay(mem, all[..k])[all[k].offset..])
    {
      assert all[..k] == log[..k];
    }
  }

  // ---------------------------------------------------------------- the same, one byte at a time

  /** Whether an access stores byte i of a segment of the given size: the bytes of the text that fit
      in front of a terminator, and the terminator; of a torn write only the first ones. */
  predicate StoresAt(e: Entry, size: nat, i: nat) {
    && !e.Got? && e.offset <= i < size
    && i - e.offset <= |e.text|
    && (e.Torn? ==> i - e.offset < e.stored)
  }

  /** The byte that it stores there. */
  function StoredAt(e: Entry, size: nat, i: nat): Byte
    requires StoresAt(e, size, i)
  {
    if i - e.offset < |e.text| && i + 1 < size then e.text[i - e.offset] else NUL
  }

  /** Access y, before position x, is the last one to store byte i, and stores b. */
  predicate LastStore(log: seq<Entry>, size: nat, y: nat, x: nat, i: nat, b: Byte)
    requires y < x <= |log|
  {
    && StoresAt(log[y], size, i) && StoredAt(log[y], size, i) == b
    && forall z :: y < z < x ==> !StoresAt(log[z], size, i)
  }

  /** What byte i is before position x: what the last access to store it stored, and what it was at
      the start if there is none. */
  ghost predicate ByteIs(mem: seq<Byte>, log: seq<Entry>, x: nat, i: nat, b: Byte)
    requires x <= |log| && i < |mem|
  {
    ((forall z :: 0 <= z < x ==> !StoresAt(log[z], |mem|, i)) && b == mem[i]) ||
    (exists y :: 0 <= y < x && LastStore(log, |mem|, y, x, i, b))
  }

  /** A copy of the string at `offset` before position x: its bytes up to the first NUL, then NULs. */
  ghost predicate IsCopy(mem: seq<Byte>, log: seq<Entry>, x: nat, offset: nat, copy: seq<Byte>)
    requires x <= |log|
  {
    && offset + |copy| == |mem|
    && forall j :: 0 <= j < |copy| ==>
         if NUL in copy[..j] then copy[j] == NUL else ByteIs(mem, log, x, offset + j, copy[j])
  }

  /** Every read of the log is a copy of the string that the accesses before it have left. */
  ghost predicate Legal(mem: seq<Byte>, log: seq<Entry>) {
    forall k :: 0 <= k < |log| && log[k].Got? ==> IsCopy(mem, log, k, log[k].offset, log[k].copy)
  }

  lemma EffectByte(mem: seq<Byte>, e: Entry, i: nat)
    requires i < |mem|
    ensures Effect(mem, e)[i] == if StoresAt(e, |mem|, i) then StoredAt(e, |mem|, i) else mem[i]
  {
  }

  lemma {:induction false} ReplayByte(mem: seq<Byte>, log: seq<Entry>, x: nat, i: nat)
    requires x <= |log| && i < |mem|
    ensures ByteIs(mem, log, x, i, Replay(mem, log[..x])[i])
  {
    if x > 0 {
      var y, before := x - 1, Replay(mem, log[..x - 1]);
      ReplayByte(mem, log, y, i);
      assert log[..x][..y] == log[..y];
      EffectByte(before, log[y], i);
      if StoresAt(log[y], |mem|, i) {
        assert LastStore(log, |mem|, y, x, i, StoredAt(log[y], |mem|, i));
      } else if exists z :: 0 <= z < y && LastStore(log, |mem|, z, y, i, before[i]) {
        var z :| 0 <= z < y && LastStore(log, |mem|, z, y, i, before[i]);
        assert LastStore(log, |mem|, z, x, i, before[i]);
      }
    }
  }

  lemma FaithfulIsLegal(mem: seq<Byte>, log: seq<Entry>)
    requires Faithful(mem, log)
    ensures Legal(mem, log)
  {
    forall k | 0 <= k < |log| && log[k].Got? ensures IsCopy(mem, log, k, log[k].offset, log[k].copy) {
      var offset, copy := log[k].offset, log[k].copy;
      forall j | 0 <= j < |copy|
        ensures if NUL in copy[..j] then copy[j] == NUL else ByteIs(mem, log, k, offset + j, copy[j])
      {
        StrNCpyAt(Replay(mem, log[..k])[offset..], j);
        ReplayByte(mem, log, k, offset + j);
      }
    }
  }

  /** In particular, a read straight after a write at the same place gets as much of the text as fits
      in front of the terminator, padded with NULs. */
  lemma ReadAfterWrite(mem: seq<Byte>, log: seq<Entry>, k: nat)
    requires Faithful(mem, log) && k + 1 < |log| && log[k].Wrote? && log[k + 1].Got?
    requires log[k + 1].offset == log[k].offset < |mem| && NUL !in log[k].text
    ensures var kept := Min(|log[k].text|, |mem| - log[k].offset - 1);
            log[k + 1].copy == log[k].text[..kept] + Padding(|mem| - log[k].offset - kept)
  {
    assert log[..k + 1][..k] == log[..k];
    WriteThenRead(Replay(mem, log[..k]), log[k].offset, log[k].text);
  }

  // ---------------------------------------------------------------- invariant

  ghost predicate JobInv(s: State, base: seq<Byte>, p: nat)
    requires p < |s.job| == |s.guard.phase| && |base| == |s.mem|
  {
    var j := s.job[p];
    var held := G.Holds(s.guard, p);
    && (held ==> Working(j))
    && (s.guard.phase[p].Cleared? ==> Finished(s, j))
    && (j.Writing? ==>
          && j.offset <= |s.mem| && j.stored <= |Bytes(s, j)|
          && (!held ==> j.stored == 0)
          && (held ==> s.mem == Put(base, j.offset, Bytes(s, j)[..j.stored])))
    && (j.Reading? ==>
          && j.offset + |j.copied| <= |s.mem|
          && (!held ==> j.copied == [])
          && (held ==> s.mem == base && j.copied == StrNCpy(base[j.offset..])[..|j.copied|]))
  }

  /** Between accesses the memory is what replaying the log gives; during one, it is that with
      the part of the write that has been stored. */
  ghost predicate Inv(mem0: seq<Byte>, s: State) {
    && G.Inv(s.guard)
    && |s.job| == |s.guard.phase|
    && |s.mem| == |mem0|
    && Faithful(mem0, s.log)
    && (G.Free(s.guard) ==> s.mem == Replay(mem0, s.log))
    && (forall p :: 0 <= p < |s.job| ==> JobInv(s, Replay(mem0, s.log), p))
  }

  /** A process outside the guard has begun nothing, whatever others do to the memory. */
  lemma OutsideFrame(s: State, base: seq<Byte>, t: State, base': seq<Byte>, q: nat)
    requires q < |s.job| == |s.guard.phase| && |base| == |s.mem|
    requires q < |t.job| == |t.guard.phase| && |base'| == |t.mem| == |s.mem|
    requires JobInv(s, base, q) && t.job[q] == s.job[q]
    requires !G.Holds(s.guard, q) && !G.Holds(t.guard, q)
    ensures JobInv(t, base', q)
  {
  }

  /** A process that neither enters nor leaves, in an unchanged memory. */
  lemma SameJob(s: State, t: State, base: seq<Byte>, q: nat)
    requires q < |s.job| == |s.guard.phase| && q < |t.job| == |t.guard.phase| && t.mem == s.mem && |base| == |s.mem|
    requires JobInv(s, base, q) && t.job[q] == s.job[q]
    requires G.Holds(t.guard, q) == G.Holds(s.guard, q)
    requires t.guard.phase[q].Cleared? ==> s.guard.phase[q].Cleared? || Finished(s, s.job[q])
    ensures JobInv(t, base, q)
  {
  }

  lemma PutOneMore(base: seq<Byte>, offset: nat, bytes: seq<Byte>, k: nat)
    requires k < |bytes| && offset + |bytes| <= |base|
    ensures Put(base, offset, bytes[..k])[offset + k := bytes[k]] == Put(base, offset, bytes[..k + 1])
  {
    assert bytes[..k + 1] == bytes[..k] + [bytes[k]];
  }

  lemma StoreByteInv(mem0: seq<Byte>, s: State, p: nat)
    requires Inv(mem0, s) && Enabled(s, StoreByte(p))
    ensures Inv(mem0, Step(s, StoreByte(p)))
  {
    G.OneHolder(s.guard);
    var j := s.job[p];
    var base := Replay(mem0, s.log);
    assert G.Holds(s.guard, p) && JobInv(s, base, p);
    PutOneMore(base, j.offset, Bytes(s, j), j.stored);
    forall q | 0 <= q < |s.job| && q != p ensures JobInv(Step(s, StoreByte(p)), base, q) {
      assert !G.Holds(s.guard, q);
      OutsideFrame(s, base, Step(s, StoreByte(p)), base, q);
    }
  }

  lemma LoadByteInv(mem0: seq<Byte>, s: State, p: nat)
    requires Inv(mem0, s) && Enabled(s, LoadByte(p))
    ensures Inv(mem0, Step(s, LoadByte(p)))
  {
    G.OneHolder(s.guard);
    var j := s.job[p];
    var base := Replay(mem0, s.log);
    assert G.Holds(s.guard, p) && JobInv(s, base, p);
    NextByte(base[j.offset..], j.copied);
    assert base[j.offset..][|j.copied|] == base[j.offset + |j.copied|];
    var t := Step(s, LoadByte(p));
    forall q | 0 <= q < |s.job| && q != p ensures JobInv(t, base, q) {
      assert !G.Holds(s.guard, q);
      OutsideFrame(s, base, t, base, q);
    }
  }

  /** The memory when a job is finished, if at the lock it was `base`. */
  lemma FinishedJob(s: State, base: seq<Byte>, p: nat)
    requires p < |s.job| == |s.guard.phase| && |base| == |s.mem|
    requires JobInv(s, base, p) && G.Holds(s.guard, p) && Finished(s, s.job[p])
    ensures var e := Completed(s.job[p]);
            && Effect(base, e) == s.mem
            && (e.Got? ==> e.offset <= |base| && e.copy == StrNCpy(base[e.offset..]))
  {
    var j := s.job[p];
    if j.Writing? {
      assert Bytes(s, j)[..j.stored] == Bytes(s, j);
    } else {
      var whole := StrNCpy(base[j.offset..]);
      assert whole[..|whole|] == whole;
    }
  }

  lemma FinishedEffect(mem0: seq<Byte>, s: State, p: nat)
    requires Inv(mem0, s) && p < |s.job| && s.guard.phase[p].Cleared?
    ensures Working(s.job[p])
    ensures var e := Completed(s.job[p]);
            && Faithful(mem0, s.log + [e]) && Replay(mem0, s.log + [e]) == s.mem
  {
    var base := Replay(mem0, s.log);
    assert G.Holds(s.guard, p) && JobInv(s, base, p);
    FinishedJob(s, base, p);
    LogOneMore(mem0, s.log, Completed(s.job[p]));
  }

  lemma PostInv(mem0: seq<Byte>, s: State, p: nat)
    requires Inv(mem0, s) && Enabled(s, Post(p))
    ensures Inv(mem0, Step(s, Post(p)))
  {
    G.OneHolder(s.guard);
    G.StepInv(s.guard, G.Post(p));
    FinishedEffect(mem0, s, p);
    var t := Step(s, Post(p));
    forall q | 0 <= q < |s.job| ensures JobInv(t, Replay(mem0, t.log), q) {
      if q != p {
        assert !G.Holds(s.guard, q);
        OutsideFrame(s, Replay(mem0, s.log), t, Replay(mem0, t.log), q);
      }
    }
  }

  lemma CrashOutsideInv(mem0: seq<Byte>, s: State, p: nat)
    requires Inv(mem0, s) && Enabled(s, Crash(p)) && !G.Holds(s.guard, p)
    ensures Inv(mem0, Step(s, Crash(p)))
  {
    G.StepInv(s.guard, G.Crash(p));
    var t := Step(s, Crash(p));
    var base := Replay(mem0, s.log);
    forall q | 0 <= q < |s.job| ensures JobInv(t, base, q) && G.Holds(t.guard, q) == G.Holds(s.guard, q) {
      assert JobInv(s, base, q);
    }
  }

  lemma TornEffect(s: State, base: seq<Byte>, p: nat)
    requires p < |s.job| == |s.guard.phase| && |base| == |s.mem|
    requires JobInv(s, base, p) && G.Holds(s.guard, p) && s.job[p].Writing?
    ensures var j := s.job[p]; Effect(base, Torn(j.id, j.offset, j.text, j.stored)) == s.mem
  {
  }

  lemma CrashInsideInv(mem0: seq<Byte>, s: State, p: nat)
    requires Inv(mem0, s) && Enabled(s, Crash(p)) && G.Holds(s.guard, p)
    ensures Inv(mem0, Step(s, Crash(p)))
    ensures G.Free(Step(s, Crash(p)).guard)
  {
    G.OneHolder(s.guard);
    G.StepInv(s.guard, G.Crash(p));
    var j := s.job[p];
    var base := Replay(mem0, s.log);
    assert JobInv(s, base, p);
    var t := Step(s, Crash(p));
    if j.Writing? {
      LogOneMore(mem0, s.log, Torn(j.id, j.offset, j.text, j.stored));
      TornEffect(s, base, p);
    }
    forall q | 0 <= q < |s.job| ensures JobInv(t, Replay(mem0, t.log), q) && !G.Holds(t.guard, q) {
      if q != p {
        assert !G.Holds(s.guard, q);
        OutsideFrame(s, base, t, Replay(mem0, t.log), q);
      }
    }
  }

  lemma CallInv(mem0: seq<Byte>, s: State, a: Action)
    requires Inv(mem0, s) && Enabled(s, a) && (a.CallWrite? || a.CallRead? || a.Return?)
    ensures Inv(mem0, Step(s, a))
  {
    var t := Step(s, a);
    forall q | 0 <= q < |t.job| ensures JobInv(t, Replay(mem0, s.log), q) {
      assert JobInv(s, Replay(mem0, s.log), q);
    }
  }

  lemma LockInv(mem0: seq<Byte>, s: State, p: nat)
    requires Inv(mem0, s) && Enabled(s, Lock(p))
    ensures Inv(mem0, Step(s, Lock(p)))
  {
    G.StepInv(s.guard, G.Lock(p));
    var t := Step(s, Lock(p));
    var base := Replay(mem0, s.log);
    assert JobInv(s, base, p) && !G.Holds(s.guard, p) && G.Holds(t.guard, p);
    assert s.job[p].Writing? ==> Put(base, s.job[p].offset, []) == base;
    forall q | 0 <= q < |t.job| && q != p ensures JobInv(t, base, q) {
      assert !G.Holds(s.guard, q);
      OutsideFrame(s, base, t, base, q);
    }
  }

  /** The guard moves on and nobody enters or leaves. */
  lemma CheckInv(mem0: seq<Byte>, s: State, p: nat)
    requires Inv(mem0, s) && Enabled(s, CheckUsed(p))
    ensures Inv(mem0, Step(s, CheckUsed(p)))
  {
    var t := Step(s, CheckUsed(p));
    G.StepInv(s.guard, G.CheckUsed(p));
    forall q | 0 <= q < |s.job|
      ensures JobInv(t, Replay(mem0, s.log), q) && G.Holds(t.guard, q) == G.Holds(s.guard, q)
    {
      SameJob(s, t, Replay(mem0, s.log), q);
    }
  }

  lemma ForkInv(mem0: seq<Byte>, s: State)
    requires Inv(mem0, s) && Enabled(s, Fork)
    ensures Inv(mem0, Step(s, Fork))
  {
    var t := Step(s, Fork);
    G.StepInv(s.guard, G.Fork);
    forall q | 0 <= q < |s.job|
      ensures JobInv(t, Replay(mem0, s.log), q) && G.Holds(t.guard, q) == G.Holds(s.guard, q)
    {
      SameJob(s, t, Replay(mem0, s.log), q);
    }
  }

  lemma StepInv(mem0: seq<Byte>, s: State, a: Action)
    requires Inv(mem0, s)
    ensures Inv(mem0, Step(s, a))
  {
    if Enabled(s, a) {
      match a
      case StoreByte(p) => StoreByteInv(mem0, s, p);
      case LoadByte(p) => LoadByteInv(mem0, s, p);
      case Post(p) => PostInv(mem0, s, p);
      case Crash(p) =>
        if G.Holds(s.guard, p) { CrashInsideInv(mem0, s, p); } else { CrashOutsideInv(mem0, s, p); }
      case Lock(p) => LockInv(mem0, s, p);
      case CallWrite(_, _, _) => CallInv(mem0, s, a);
      case CallRead(_, _) => CallInv(mem0, s, a);
      case Return(_) => CallInv(mem0, s, a);
      case CheckUsed(p) => CheckInv(mem0, s, p);
      case Fork => ForkInv(mem0, s);
    }
  }

  lemma {:induction false} RunInv(mem0: seq<Byte>, n: nat, acts: seq<Action>)
    ensures Inv(mem0, Exec(Start(mem0, n), acts))
  {
    if acts == [] {
      G.StartInv(n);
    } else {
      RunInv(mem0, n, acts[..|acts| - 1]);
      StepInv(mem0, Exec(Start(mem0, n), acts[..|acts| - 1]), acts[|acts| - 1]);
    }
  }

  // ---------------------------------------------------------------- histories

  function OpOf(e: Entry): Op {
    if e.Got? then Read(e.offset) else Write(e.offset, e.text)
  }

  /** The log has calls of the history, each at most once. */
  ghost predicate CallsOnce(hist: seq<Event>, log: seq<Entry>) {
    && (forall x :: 0 <= x < |log| ==>
          log[x].id < |hist| && hist[log[x].id].Invoke? && hist[log[x].id].op == OpOf(log[x]))
    && (forall x, y :: 0 <= x < y < |log| ==> log[x].id != log[y].id)
  }

  /** Call `id` is in the log as a whole access, and if it is a read, `copy` is what it got. */
  ghost predicate Answered(log: seq<Entry>, id: nat, copy: seq<Byte>) {
    exists x :: 0 <= x < |log| && log[x].id == id && !log[x].Torn? && (log[x].Got? ==> log[x].copy == copy)
  }

  ghost predicate ResponsesAnswered(hist: seq<Event>, log: seq<Entry>) {
    forall j :: 0 <= j < |hist| && hist[j].Response? ==>
      hist[j].id < j && hist[hist[j].id].Invoke? && Answered(log, hist[j].id, hist[j].copy)
  }

  /** A call that returned before another was made is not ordered after it. */
  ghost predicate RespectsRealTime(hist: seq<Event>, log: seq<Entry>) {
    forall x, y, j :: 0 <= x < y < |log| && 0 <= j < |hist| && hist[j].Response? && hist[j].id == log[y].id ==>
      log[x].id < j
  }

  /** A legal serial execution of calls made in the history, that contains every returned call as a
      whole access with its result, and respects real time. */
  ghost predicate IsLinearization(mem: seq<Byte>, hist: seq<Event>, log: seq<Entry>) {
    Legal(mem, log) && CallsOnce(hist, log) && ResponsesAnswered(hist, log) && RespectsRealTime(hist, log)
  }

  predicate NothingTorn(log: seq<Entry>) {
    forall k :: 0 <= k < |log| ==> !log[k].Torn?
  }

  ghost predicate Linearizable(mem: seq<Byte>, hist: seq<Event>) {
    exists log :: IsLinearization(mem, hist, log) && NothingTorn(log)
  }

  predicate Made(hist: seq<Event>, id: nat) {
    exists j :: 0 <= j < |hist| && hist[j].Response? && hist[j].id == id
  }

  predicate NotOrdered(log: seq<Entry>, id: nat) {
    forall x :: 0 <= x < |log| ==> log[x].id != id
  }

  ghost predicate CallInHistory(hist: seq<Event>, log: seq<Entry>, p: nat, j: Job) {
    && (!j.Idle? ==> j.id < |hist| && hist[j.id].Invoke? && hist[j.id].p == p && !Made(hist, j.id))
    && (j.Writing? ==> hist[j.id].op == Write(j.offset, j.text))
    && (j.Reading? ==> hist[j.id].op == Read(j.offset))
    && (Working(j) ==> NotOrdered(log, j.id))
    && (j.Returning? ==> Answered(log, j.id, j.copy))
  }

  ghost predicate HistoryInv(s: State) {
    && CallsOnce(s.hist, s.log) && ResponsesAnswered(s.hist, s.log) && RespectsRealTime(s.hist, s.log)
    && (forall p :: 0 <= p < |s.job| ==> CallInHistory(s.hist, s.log, p, s.job[p]))
  }

  lemma AnsweredMore(log: seq<Entry>, e: Entry, id: nat, copy: seq<Byte>)
    requires Answered(log, id, copy)
    ensures Answered(log + [e], id, copy)
  {
    var x :| 0 <= x < |log| && log[x].id == id && !log[x].Torn? && (log[x].Got? ==> log[x].copy == copy);
    assert (log + [e])[x] == log[x];
  }

  /** A call that has not returned can go to the end of the log. */
  lemma LogMoreInHistory(hist: seq<Event>, log: seq<Entry>, e: Entry)
    requires CallsOnce(hist, log) && ResponsesAnswered(hist, log) && RespectsRealTime(hist, log)
    requires e.id < |hist| && hist[e.id].Invoke? && hist[e.id].op == OpOf(e)
    requires !Made(hist, e.id) && NotOrdered(log, e.id)
    ensures CallsOnce(hist, log + [e]) && ResponsesAnswered(hist, log + [e]) && RespectsRealTime(hist, log + [e])
  {
    var more := log + [e];
    forall i | 0 <= i < |hist| && hist[i].Response? ensures Answered(more, hist[i].id, hist[i].copy) {
      AnsweredMore(log, e, hist[i].id, hist[i].copy);
    }
    forall x, y, j | 0 <= x < y < |more| && 0 <= j < |hist| && hist[j].Response? && hist[j].id == more[y].id
      ensures more[x].id < j
    {
      assert y < |log|;
      assert log[y].id == hist[j].id;
      assert more[x] == log[x];
    }
  }

  lemma HistoryMore(hist: seq<Event>, log: seq<Entry>, e: Event)
    requires CallsOnce(hist, log) && ResponsesAnswered(hist, log) && RespectsRealTime(hist, log)
    requires e.Response? ==> e.id < |hist| && hist[e.id].Invoke? && Answered(log, e.id, e.copy)
    ensures CallsOnce(hist + [e], log) && ResponsesAnswered(hist + [e], log) && RespectsRealTime(hist + [e], log)
  {
    var more := hist + [e];
    forall x, y, j | 0 <= x < y < |log| && 0 <= j < |more| && more[j].Response? && more[j].id == log[y].id
      ensures log[x].id < j
    {
      assert j < |hist| ==> more[j] == hist[j];
    }
  }

  /** What another process appends leaves a call as it is. */
  lemma OtherCallAppended(hist: seq<Event>, log: seq<Entry>, p: nat, j: Job, e: Event)
    requires CallInHistory(hist, log, p, j)
    requires e.Response? ==> e.id < |hist| && hist[e.id].Invoke? && hist[e.id].p != p
    ensures CallInHistory(hist + [e], log, p, j)
  {
  }

  lemma OtherEntryAppended(hist: seq<Event>, log: seq<Entry>, p: nat, j: Job, e: Entry)
    requires CallInHistory(hist, log, p, j)
    requires e.id < |hist| && hist[e.id].Invoke? && hist[e.id].p != p
    ensures CallInHistory(hist, log + [e], p, j)
  {
    if j.Returning? {
      AnsweredMore(log, e, j.id, j.copy);
    }
  }

  lemma CallHistory(s: State, a: Action)
    requires HistoryInv(s) && Enabled(s, a) && (a.CallWrite? || a.CallRead?)
    ensures HistoryInv(Step(s, a))
  {
    var t := Step(s, a);
    var e := t.hist[|s.hist|];
    HistoryMore(s.hist, s.log, e);
    forall q | 0 <= q < |t.job| ensures CallInHistory(t.hist, t.log, q, t.job[q]) {
      OtherCallAppended(s.hist, s.log, q, s.job[q], e);
    }
  }

  lemma ReturnHistory(s: State, p: nat)
    requires HistoryInv(s) && Enabled(s, Return(p))
    ensures HistoryInv(Step(s, Return(p)))
  {
    var t := Step(s, Return(p));
    var e := Response(s.job[p].id, s.job[p].copy);
    assert CallInHistory(s.hist, s.log, p, s.job[p]);
    HistoryMore(s.hist, s.log, e);
    forall q | 0 <= q < |t.job| ensures CallInHistory(t.hist, t.log, q, t.job[q]) {
      if q != p {
        OtherCallAppended(s.hist, s.log, q, s.job[q], e);
      }
    }
  }

  lemma AnsweredLast(log: seq<Entry>, e: Entry, copy: seq<Byte>)
    requires !e.Torn? && (e.Got? ==> e.copy == copy)
    ensures Answered(log + [e], e.id, copy)
  {
    assert (log + [e])[|log|] == e;
  }

  /** A step that puts process p's call at the end of the log, and answers it or ends the process. */
  lemma EntryHistory(s: State, t: State, p: nat, e: Entry)
    requires HistoryInv(s) && p < |s.job| && Working(s.job[p])
    requires e.id == s.job[p].id && OpOf(e) == s.hist[e.id].op
    requires t.hist == s.hist && t.log == s.log + [e] && |t.job| == |s.job|
    requires forall q :: 0 <= q < |s.job| && q != p ==> t.job[q] == s.job[q]
    requires t.job[p].Idle? ||
             (t.job[p].Returning? && t.job[p].id == e.id && !e.Torn? && (e.Got? ==> e.copy == t.job[p].copy))
    ensures HistoryInv(t)
  {
    assert CallInHistory(s.hist, s.log, p, s.job[p]);
    LogMoreInHistory(s.hist, s.log, e);
    forall q | 0 <= q < |t.job| ensures CallInHistory(t.hist, t.log, q, t.job[q]) {
      if q != p {
        OtherEntryAppended(s.hist, s.log, q, s.job[q], e);
      } else if t.job[p].Returning? {
        AnsweredLast(s.log, e, t.job[p].copy);
      }
    }
  }

  /** A step that no caller sees and that gives nothing back. */
  lemma QuietHistory(s: State, a: Action)
    requires HistoryInv(s) && Enabled(s, a) && Step(s, a).log == s.log
    requires !a.CallWrite? && !a.CallRead? && !a.Return?
    ensures HistoryInv(Step(s, a))
  {
    var t := Step(s, a);
    forall q | 0 <= q < |t.job| ensures CallInHistory(t.hist, t.log, q, t.job[q]) {
      if q < |s.job| {
        assert CallInHistory(s.hist, s.log, q, s.job[q]);
      }
    }
  }

  lemma StepHistory(s: State, a: Action)
    requires HistoryInv(s) && Enabled(s, a)
    ensures HistoryInv(Step(s, a))
  {
    var t := Step(s, a);
    if a.CallWrite? || a.CallRead? {
      CallHistory(s, a);
    } else if a.Return? {
      ReturnHistory(s, a.p);
    } else if t.log == s.log {
      QuietHistory(s, a);
    } else {
      assert a.Post? || a.Crash?;
      assert CallInHistory(s.hist, s.log, a.p, s.job[a.p]);
      EntryHistory(s, t, a.p, t.log[|s.log|]);
    }
  }

  lemma {:induction false} RunHistory(mem0: seq<Byte>, n: nat, acts: seq<Action>)
    ensures HistoryInv(Exec(Start(mem0, n), acts))
  {
    if acts != [] {
      RunHistory(mem0, n, acts[..|acts| - 1]);
      var s := Exec(Start(mem0, n), acts[..|acts| - 1]);
      if Enabled(s, acts[|acts| - 1]) {
        StepHistory(s, acts[|acts| - 1]);
      }
    }
  }

  // ---------------------------------------------------------------- theorems

  lemma {:induction false} OnlyCrashesTear(s: State, acts: seq<Action>)
    requires forall i :: 0 <= i < |acts| ==> !acts[i].Crash?
    requires forall k :: 0 <= k < |s.log| ==> !s.log[k].Torn?
    ensures forall k :: 0 <= k < |Exec(s, acts).log| ==> !Exec(s, acts).log[k].Torn?
  {
    if acts != [] {
      OnlyCrashesTear(s, acts[..|acts| - 1]);
    }
  }

  /** Every interleaving of byte accesses is serial: each read returned what one snapshot of the
      memory gives, taken between the accesses logged before and after it; whenever nobody is
      inside, the memory is what those accesses made one after the other leave; and, unless
      some process died, they are all whole. */
  lemma Serialisable(mem0: seq<Byte>, n: nat, acts: seq<Action>)
    ensures var s := Exec(Start(mem0, n), acts);
            && Faithful(mem0, s.log) && Legal(mem0, s.log)
            && (s.guard.sem.value == 1 ==>
                  && s.mem == Replay(mem0, s.log)
                  && forall i :: 0 <= i < |mem0| ==> ByteIs(mem0, s.log, |s.log|, i, s.mem[i]))
    ensures (forall i :: 0 <= i < |acts| ==> !acts[i].Crash?) ==>
              forall k :: 0 <= k < |Exec(Start(mem0, n), acts).log| ==> !Exec(Start(mem0, n), acts).log[k].Torn?
  {
    RunInv(mem0, n, acts);
    var s := Exec(Start(mem0, n), acts);
    G.OneHolder(s.guard);
    FaithfulIsLegal(mem0, s.log);
    forall i | 0 <= i < |mem0| ensures ByteIs(mem0, s.log, |s.log|, i, Replay(mem0, s.log)[i]) {
      assert s.log[..|s.log|] == s.log;
      ReplayByte(mem0, s.log, |s.log|, i);
    }
    if forall i :: 0 <= i < |acts| ==> !acts[i].Crash? {
      OnlyCrashesTear(Start(mem0, n), acts);
    }
  }

  /** String accesses are linearizable over the calls and returns: the log is a serial execution of
      whole accesses, and of writes torn by the crash of their process, that explains every return
      and respects real time; without a crash nothing is torn. */
  lemma StringsLinearizable(mem0: seq<Byte>, n: nat, acts: seq<Action>)
    ensures IsLinearization(mem0, Exec(Start(mem0, n), acts).hist, Exec(Start(mem0, n), acts).log)
    ensures (forall i :: 0 <= i < |acts| ==> !acts[i].Crash?) ==>
              Linearizable(mem0, Exec(Start(mem0, n), acts).hist)
  {
    RunHistory(mem0, n, acts);
    Serialisable(mem0, n, acts);
    if forall i :: 0 <= i < |acts| ==> !acts[i].Crash? {
      assert NothingTorn(Exec(Start(mem0, n), acts).log);
    }
  }

  /** A crash tears at most the write it interrupts: what it leaves is a prefix of the bytes of
      that write, over the memory as it was before it, with the guard free again. */
  lemma TornWriteIsAPrefix(mem0: seq<Byte>, n: nat, acts: seq<Action>, p: nat)
    requires var s := Exec(Start(mem0, n), acts);
             G.Holds(s.guard, p) && p < |s.job| && s.job[p].Writing?
    ensures var s := Exec(Start(mem0, n), acts);
            var t, j := Step(s, Crash(p)), s.job[p];
            && j.offset <= |s.mem| == |mem0| && j.stored <= |Bytes(s, j)|
            && t.mem == Put(Replay(mem0, s.log), j.offset, Bytes(s, j)[..j.stored])
            && p < |t.guard.phase| && t.guard.phase[p].Gone?
            && t.guard.sem.value == 1
  {
    RunInv(mem0, n, acts);
    var s := Exec(Start(mem0, n), acts);
    CrashInsideInv(mem0, s, p);
    assert JobInv(s, Replay(mem0, s.log), p);
    G.OneHolder(Step(s, Crash(p)).guard);
  }

  // ---------------------------------------------------------------- progress

  predicate StepOf(a: Action, p: nat) {
    !a.Fork? && !a.Crash? && a.p == p
  }

  predicate StepsOf(acts: seq<Action>, p: nat) {
    forall i :: 0 <= i < |acts| ==> StepOf(acts[i], p)
  }

  /** A live process in a call, which does not have to wait for the guard. */
  predicate CanGoOn(s: State, p: nat) {
    && p < |s.job| == |s.guard.phase| && !s.job[p].Idle?
    && (G.Holds(s.guard, p) || (s.job[p].Returning? && s.guard.phase[p].Out?))
  }

  function NextOf(s: State, p: nat): Action
    requires CanGoOn(s, p)
  {
    if s.job[p].Returning? then Return(p)
    else if s.guard.phase[p].Cleared? then Post(p)
    else if Finished(s, s.job[p]) then CheckUsed(p)
    else if s.job[p].Writing? then StoreByte(p)
    else LoadByte(p)
  }

  /** The number of steps left. */
  function StepsLeft(s: State, p: nat): int
    requires CanGoOn(s, p)
  {
    match s.job[p]
    case Writing(_, offset, _, stored) =>
      if s.guard.phase[p].Cleared? then 2 else if offset > |s.mem| then 0 else 3 + |Bytes(s, s.job[p])| - stored
    case Reading(_, offset, copied) => if s.guard.phase[p].Cleared? then 2 else 3 + |s.mem| - offset - |copied|
    case _ => 1
  }

  lemma OneTurn(mem0: seq<Byte>, s: State, p: nat)
    requires Inv(mem0, s) && CanGoOn(s, p)
    ensures var a := NextOf(s, p);
            var t := Step(s, a);
            && StepOf(a, p) && Enabled(s, a) && Inv(mem0, t) && StepsLeft(s, p) > 0
            && if a.Return? then t.job[p].Idle? && t.hist == s.hist + [Response(s.job[p].id, s.job[p].copy)]
               else
                 && t.hist == s.hist && CanGoOn(t, p)
                 && t.job[p].id == s.job[p].id && StepsLeft(t, p) == StepsLeft(s, p) - 1
  {
    StepInv(mem0, s, NextOf(s, p));
    assert JobInv(s, Replay(mem0, s.log), p);
    if s.guard.phase[p].Cleared? {
      G.StepInv(s.guard, G.Post(p));
    } else if G.Holds(s.guard, p) && Finished(s, s.job[p]) {
      G.StepInv(s.guard, G.CheckUsed(p));
    }
  }

  lemma {:induction false} ExecCons(s: State, a: Action, acts: seq<Action>)
    ensures Exec(s, [a] + acts) == Exec(Step(s, a), acts)
  {
    var all := [a] + acts;
    if acts == [] {
      assert all[..0] == [] && all[0] == a;
    } else {
      var front, last := acts[..|acts| - 1], acts[|acts| - 1];
      ExecCons(s, a, front);
      assert all[..|all| - 1] == [a] + front;
      assert all[|all| - 1] == last;
    }
  }

  /** The call of p has returned: that is all that the callers have seen meanwhile. */
  ghost predicate Returned(s: State, p: nat, t: State)
    requires p < |s.job|
  {
    && p < |t.job| && t.job[p].Idle? && |t.hist| == |s.hist| + 1 && t.hist[..|s.hist|] == s.hist
    && t.hist[|s.hist|].Response? && !s.job[p].Idle? && t.hist[|s.hist|].id == s.job[p].id
  }

  lemma {:induction false} Finishes(mem0: seq<Byte>, s: State, p: nat) returns (acts: seq<Action>)
    requires Inv(mem0, s) && CanGoOn(s, p)
    ensures StepsOf(acts, p) && Returned(s, p, Exec(s, acts))
    decreases StepsLeft(s, p)
  {
    OneTurn(mem0, s, p);
    var a := NextOf(s, p);
    if a.Return? {
      acts := [a];
      assert acts[..0] == [] && Exec(s, acts) == Step(s, a);
    } else {
      var rest := Finishes(mem0, Step(s, a), p);
      ExecCons(s, a, rest);
      acts := [a] + rest;
    }
  }

  /** No access is ever stuck: in every reachable state, a process in a call that holds the guard, or
      finds it free, or has given it back, can complete the call by its own steps alone. */
  lemma AccessCompletes(mem0: seq<Byte>, n: nat, before: seq<Action>, p: nat) returns (acts: seq<Action>)
    requires var s := Exec(Start(mem0, n), before);
             && p < |s.job| && |s.guard.phase| == |s.job| && !s.job[p].Idle? && !s.guard.phase[p].Gone?
             && (s.guard.sem.value == 1 || G.Holds(s.guard, p) || s.job[p].Returning?)
    ensures StepsOf(acts, p)
    ensures var s := Exec(Start(mem0, n), before); p < |s.job| && Returned(s, p, Exec(s, acts))
  {
    RunInv(mem0, n, before);
    var s := Exec(Start(mem0, n), before);
    G.OneHolder(s.guard);
    if CanGoOn(s, p) {
      acts := Finishes(mem0, s, p);
    } else {
      StepInv(mem0, s, Lock(p));
      G.StepInv(s.guard, G.Lock(p));
      acts := Finishes(mem0, Step(s, Lock(p)), p);
      ExecCons(s, Lock(p), acts);
      acts := [Lock(p)] + acts;
    }
  }
}
