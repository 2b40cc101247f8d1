/** The kernel objects that separate runs of the tools share: semaphore sets and memory segments
    by key, and the clock.  An object is known by the key it was made with. */
module IpcKernel {
  import SemaphoreKernel
  import opened CStrings

  const SEMVMX := SemaphoreKernel.SEMVMX

  datatype SemSet = SemSet(values: seq<int>, ctime: int)

  /** The net change that other processes make to semaphore `index` of set `id` during the second
      that begins at `time`. */
  type Others = (nat, nat, int) -> int

  const NOBODY: Others := (id, index, time) => 0

  datatype Errno = Ok | EEXIST | ENOENT | EINVAL | ERANGE | EAGAIN | Blocked

  function Filled(count: nat, value: int): (s: seq<int>)
    ensures |s| == count && forall i :: 0 <= i < count ==> s[i] == value
  {
    seq(count, i => value)
  }

  /** ftok() uses the low eight bits of its second argument. */
  function Ftok(key: nat): nat {
    key % 256
  }

  function Drift(value: int, change: int): int {
    if change == 0 then value
    else if value + change < 0 then 0
    else if value + change > SEMVMX then SEMVMX
    else value + change
  }

  function DriftSet(s: SemSet, others: Others, id: nat, time: int): SemSet {
    s.(values := seq(|s.values|, i requires 0 <= i < |s.values| => Drift(s.values[i], others(id, i, time))))
  }

  function DriftAll(sems: map<nat, SemSet>, others: Others, time: int): map<nat, SemSet> {
    map id | id in sems :: DriftSet(sems[id], others, id, time)
  }

  /** The sets after `seconds` seconds from `time` in which this process does nothing. */
  function Later(sems: map<nat, SemSet>, others: Others, time: int, seconds: nat): (r: map<nat, SemSet>)
    ensures r.Keys == sems.Keys
    ensures forall id :: id in sems ==> |r[id].values| == |sems[id].values| && r[id].ctime == sems[id].ctime
  {
    if seconds == 0 then sems
    else DriftAll(Later(sems, others, time, seconds - 1), others, time + seconds - 1)
  }

  lemma SetUnchanged(s: SemSet, id: nat, time: int)
    ensures DriftSet(s, NOBODY, id, time) == s
  {
    var values := DriftSet(s, NOBODY, id, time).values;
    forall i | 0 <= i < |s.values| ensures values[i] == s.values[i] {
      assert NOBODY(id, i, time) == 0;
      assert values[i] == Drift(s.values[i], NOBODY(id, i, time));
    }
    assert values == s.values;
  }

  lemma {:induction false} NothingDrifts(sems: map<nat, SemSet>, time: int, seconds: nat)
    ensures Later(sems, NOBODY, time, seconds) == sems
  {
    if seconds > 0 {
      NothingDrifts(sems, time, seconds - 1);
      forall id | id in sems ensures DriftSet(sems[id], NOBODY, id, time + seconds - 1) == sems[id] {
        SetUnchanged(sems[id], id, time + seconds - 1);
      }
    }
  }

  /** The value of one semaphore after `seconds` seconds from `time`, if it is `value` then. */
  function Drifted(value: int, others: Others, id: nat, index: nat, time: int, seconds: nat): (v: int)
    ensures 0 <= value <= SEMVMX ==> 0 <= v <= SEMVMX
  {
    if seconds == 0 then value
    else Drift(Drifted(value, others, id, index, time, seconds - 1), others(id, index, time + seconds - 1))
  }

  lemma {:induction false} ValueLater(sems: map<nat, SemSet>, others: Others, time: int, seconds: nat,
                                      id: nat, index: nat)
    requires id in sems && index < |sems[id].values|
    ensures Later(sems, others, time, seconds)[id].values[index] ==
            Drifted(sems[id].values[index], others, id, index, time, seconds)
  {
    if seconds > 0 {
      ValueLater(sems, others, time, seconds - 1, id, index);
      var before := Later(sems, others, time, seconds - 1);
      assert Later(sems, others, time, seconds)[id] == DriftSet(before[id], others, id, time + seconds - 1);
    }
  }

  class Kernel {
    var now: int
    var sems: map<nat, SemSet>
    var segs: map<nat, seq<Byte>>
    const others: Others

    constructor (now: int, others: Others)
      ensures this.now == now && this.others == others && sems == map[] && segs == map[]
    {
      this.now := now;
      this.others := others;
      sems := map[];
      segs := map[];
    }

    ghost predicate HasSem(id: nat, index: nat)
      reads this
    {
      id in sems && index < |sems[id].values|
    }

    /** semget() with IPC_CREAT and IPC_EXCL.  A new set's values are indeterminate; here 0. */
    method SemCreate(id: nat, nsems: nat) returns (e: Errno)
      modifies this`sems
      ensures e == if id in old(sems) then EEXIST else if nsems == 0 then EINVAL else Ok
      ensures sems == if e.Ok? then old(sems)[id := SemSet(Filled(nsems, 0), now)] else old(sems)
    {
      if id in sems {
        e := EEXIST;
      } else if nsems == 0 {
        e := EINVAL;
      } else {
        sems := sems[id := SemSet(Filled(nsems, 0), now)];
        e := Ok;
      }
    }

    /** semctl(SETALL). */
    method SetAll(id: nat, values: seq<int>) returns (e: Errno)
      modifies this`sems
      ensures e == if id !in old(sems) then EINVAL
                   else if exists i :: 0 <= i < |values| && !(0 <= values[i] <= SEMVMX) then ERANGE else Ok
      ensures sems == if e.Ok? then old(sems)[id := SemSet(values, now)] else old(sems)
    {
      if id !in sems {
        e := EINVAL;
      } else if exists i :: 0 <= i < |values| && !(0 <= values[i] <= SEMVMX) {
        e := ERANGE;
      } else {
        sems := sems[id := SemSet(values, now)];
        e := Ok;
      }
    }

    /** semop() with one operation. */
    method SemOp(id: nat, index: nat, op: int, nowait: bool) returns (e: Errno)
      modifies this`sems
      ensures e == SemOpErrno(old(sems), id, index, op, nowait)
      ensures sems == if e.Ok? then Adjusted(old(sems), id, index, op) else old(sems)
    {
      e := SemOpErrno(sems, id, index, op, nowait);
      if e.Ok? {
        sems := Adjusted(sems, id, index, op);
      }
    }

    /** semctl(GETVAL). */
    method GetVal(id: nat, index: nat) returns (value: int)
      ensures value == if HasSem(id, index) then sems[id].values[index] else -1
    {
      value := if id in sems && index < |sems[id].values| then sems[id].values[index] else -1;
    }

    /** semctl(IPC_RMID). */
    method SemRemove(id: nat) returns (e: Errno)
      modifies this`sems
      ensures e == if id in old(sems) then Ok else EINVAL
      ensures sems == old(sems) - {id}
    {
      e := if id in sems then Ok else EINVAL;
      sems := sems - {id};
    }

    /** shmget() with IPC_CREAT and IPC_EXCL; a new segment is zeroed. */
    method ShmCreate(id: nat, size: nat) returns (e: Errno)
      modifies this`segs
      ensures e == if id in old(segs) then EEXIST else if size == 0 then EINVAL else Ok
      ensures segs == if e.Ok? then old(segs)[id := seq(size, i => 0)] else old(segs)
    {
      if id in segs {
        e := EEXIST;
      } else if size == 0 {
        e := EINVAL;
      } else {
        segs := segs[id := seq(size, i => 0)];
        e := Ok;
      }
    }

    /** shmctl(IPC_RMID). */
    method ShmRemove(id: nat) returns (e: Errno)
      modifies this`segs
      ensures e == if id in old(segs) then Ok else EINVAL
      ensures segs == old(segs) - {id}
    {
      e := if id in segs then Ok else EINVAL;
      segs := segs - {id};
    }

    /** sleep(1). */
    method Sleep()
      modifies this`now, this`sems
      ensures now == old(now) + 1
      ensures sems == DriftAll(old(sems), others, old(now))
    {
      sems := DriftAll(sems, others, now);
      now := now + 1;
    }
  }

  /** How semop() with one operation ends.  `Blocked` is a call that goes to sleep in the kernel. */
  function SemOpErrno(sems: map<nat, SemSet>, id: nat, index: nat, op: int, nowait: bool): (e: Errno)
    ensures e.Ok? ==> id in sems && index < |sems[id].values|
  {
    if id !in sems || index >= |sems[id].values| then EINVAL
    else if sems[id].values[index] + op < 0 then (if nowait then EAGAIN else Blocked)
    else if sems[id].values[index] + op > SEMVMX then ERANGE
    else Ok
  }

  function Adjusted(sems: map<nat, SemSet>, id: nat, index: nat, op: int): map<nat, SemSet>
    requires id in sems && index < |sems[id].values|
  {
    sems[id := sems[id].(values := sems[id].values[index := sems[id].values[index] + op])]
  }

  lemma AdjustedBack(sems: map<nat, SemSet>, id: nat, index: nat)
    requires id in sems && index < |sems[id].values|
    ensures Adjusted(Adjusted(sems, id, index, -1), id, index, 1) == sems
  {
    var s := sems[id];
    assert s.values[index := s.values[index] - 1][index := s.values[index]] == s.values;
  }
}
