/** The semaphore object of Semaphore.c: a handle on a kernel semaphore set together with the
    size that its user has told it. */
module Semaphores {
  import opened IpcKernel

  const LOCK_NONBLOCK := -1
  const LOCK_BLOCKING := 0

  type UShort = n: int | 0 <= n < 0x1_0000

  /** `Asleep` is a call that has gone to sleep in the kernel and not returned. */
  datatype Outcome = Returned(e: int) | Asleep

  /** No unit is free at the beginning of any of the first `seconds` seconds. */
  ghost predicate NoneFree(value: int, others: Others, id: nat, index: nat, time: int, seconds: nat) {
    forall i :: 0 <= i < seconds ==> Drifted(value, others, id, index, time, i) <= 0
  }

  /** The first of the given number of seconds at which a unit is free, or that number. */
  function FirstFree(value: int, others: Others, id: nat, index: nat, time: int, seconds: nat): (j: nat)
    ensures j <= seconds
    ensures NoneFree(value, others, id, index, time, j)
    ensures j < seconds ==> Drifted(value, others, id, index, time, j) > 0
  {
    if seconds == 0 then 0
    else
      var j := FirstFree(value, others, id, index, time, seconds - 1);
      if j < seconds - 1 || Drifted(value, others, id, index, time, j) > 0 then j else seconds
  }

  /** The outcome of trying once a second for up to `seconds` seconds: at the first second at
      which a unit is free it is taken; otherwise all the seconds pass. */
  ghost predicate Polled(sems: map<nat, SemSet>, others: Others, time: int, id: nat, index: nat, seconds: nat,
                         e: int, after: map<nat, SemSet>, end: int)
    requires id in sems && index < |sems[id].values|
  {
    var j := FirstFree(sems[id].values[index], others, id, index, time, seconds);
    end == time + j &&
    if j < seconds
    then e == 0 && after == Adjusted(Later(sems, others, time, j), id, index, -1)
    else e == 1 && after == Later(sems, others, time, j)
  }

  /** What that says of the units: one is taken at the first second at which there is one, or there was
      none at any of the seconds, all of which have passed. */
  lemma PolledTells(sems: map<nat, SemSet>, others: Others, time: int, id: nat, index: nat, seconds: nat,
                    e: int, after: map<nat, SemSet>, end: int)
    requires id in sems && index < |sems[id].values|
    requires Polled(sems, others, time, id, index, seconds, e, after, end)
    ensures e == 0 || e == 1
    ensures time <= end
    ensures NoneFree(sems[id].values[index], others, id, index, time, end - time)
    ensures e == 0 ==>
              && end < time + seconds && after == Adjusted(Later(sems, others, time, end - time), id, index, -1)
              && Drifted(sems[id].values[index], others, id, index, time, end - time) > 0
    ensures e == 1 ==> end == time + seconds && after == Later(sems, others, time, seconds)
  {
  }

  /** The outcome of the polled mode; with a timeout that is not positive there is no attempt at all. */
  ghost predicate PollOutcome(sems: map<nat, SemSet>, others: Others, time: int, id: nat, index: nat, timeout: int,
                              e: int, after: map<nat, SemSet>, end: int)
  {
    if timeout > 0 && id in sems && index < |sems[id].values|
    then Polled(sems, others, time, id, index, timeout, e, after, end)
    else e == (if timeout <= 0 then 1 else -1) && after == sems && end == time
  }

  /** The outcome of a lock, in any of the three modes, also when there is no such semaphore. */
  ghost predicate LockOutcome(sems: map<nat, SemSet>, others: Others, time: int, id: nat, index: nat, timeout: int,
                              r: Outcome, after: map<nat, SemSet>, end: int)
  {
    if timeout != LOCK_BLOCKING && timeout != LOCK_NONBLOCK then
      r.Returned? && PollOutcome(sems, others, time, id, index, timeout, r.e, after, end)
    else
      end == time &&
      if id !in sems || index >= |sems[id].values| then r == Returned(-1) && after == sems
      else if sems[id].values[index] > 0 then r == Returned(0) && after == Adjusted(sems, id, index, -1)
      else r == (if timeout == LOCK_BLOCKING then Asleep else Returned(1)) && after == sems
  }

  /** The state of a poll that has slept for t seconds and goes on. */
  ghost predicate Polling(sems: map<nat, SemSet>, others: Others, time: int, id: nat, index: nat, t: nat,
                          now: map<nat, SemSet>)
    requires id in sems && index < |sems[id].values|
  {
    now == Later(sems, others, time, t) && NoneFree(sems[id].values[index], others, id, index, time, t)
  }

  lemma PollAttempt(sems: map<nat, SemSet>, others: Others, time: int, id: nat, index: nat, t: nat,
                    now: map<nat, SemSet>, seconds: nat)
    requires id in sems && index < |sems[id].values| && 0 <= sems[id].values[index] <= SEMVMX
    requires Polling(sems, others, time, id, index, t, now) && t <= seconds
    ensures var e := SemOpErrno(now, id, index, -1, true);
            && (e == Ok || e == EAGAIN)
            && (t < seconds && e == Ok ==>
                  Polled(sems, others, time, id, index, seconds, 0, Adjusted(now, id, index, -1), time + t))
            && (t < seconds && e == EAGAIN ==>
                  Polling(sems, others, time, id, index, t + 1, DriftAll(now, others, time + t)))
    ensures t == seconds ==> Polled(sems, others, time, id, index, seconds, 1, now, time + t)
  {
    ValueLater(sems, others, time, t, id, index);
    assert FirstFree(sems[id].values[index], others, id, index, time, seconds) >= t;
  }

  /** The same with or without the semaphore: before the first attempt, or after some that failed. */
  ghost predicate StillPolling(sems: map<nat, SemSet>, others: Others, time: int, id: nat, index: nat, t: nat,
                               now: map<nat, SemSet>)
  {
    if id in sems && index < |sems[id].values|
    then Polling(sems, others, time, id, index, t, now)
    else now == sems && t == 0
  }

  /** The sets after one attempt, and after the second of sleep that follows if it fails. */
  function AfterTurn(sems: map<nat, SemSet>, others: Others, time: int, id: nat, index: nat): map<nat, SemSet> {
    var err := SemOpErrno(sems, id, index, -1, true);
    if err == Ok then Adjusted(sems, id, index, -1)
    else if err == EAGAIN then DriftAll(sems, others, time)
    else sems
  }

  lemma PollTurn(sems: map<nat, SemSet>, others: Others, time: int, id: nat, index: nat, t: nat,
                 now: map<nat, SemSet>, timeout: int, err: Errno, after: map<nat, SemSet>)
    requires id in sems && index < |sems[id].values| ==> 0 <= sems[id].values[index] <= SEMVMX
    requires StillPolling(sems, others, time, id, index, t, now) && t < timeout
    requires err == SemOpErrno(now, id, index, -1, true) && after == AfterTurn(now, others, time + t, id, index)
    ensures err == Ok ==> PollOutcome(sems, others, time, id, index, timeout, 0, after, time + t)
    ensures err == EAGAIN ==> StillPolling(sems, others, time, id, index, t + 1, after)
    ensures err != Ok && err != EAGAIN ==> PollOutcome(sems, others, time, id, index, timeout, -1, after, time + t)
  {
    if id in sems && index < |sems[id].values| {
      PollAttempt(sems, others, time, id, index, t, now, timeout);
    }
  }

  lemma PollEnd(sems: map<nat, SemSet>, others: Others, time: int, id: nat, index: nat, t: nat,
                now: map<nat, SemSet>, timeout: int)
    requires id in sems && index < |sems[id].values| ==> 0 <= sems[id].values[index] <= SEMVMX
    requires StillPolling(sems, others, time, id, index, t, now) && t >= timeout && (t == 0 || t <= timeout)
    ensures PollOutcome(sems, others, time, id, index, timeout, 1, now, time + t)
  {
    if id in sems && index < |sems[id].values| && timeout > 0 {
      PollAttempt(sems, others, time, id, index, t, now, timeout);
    }
  }

  class Semaphore {
    var key: nat
    var id: nat
    var count: int
    var size: UShort

    constructor (key: nat, id: nat, count: int, size: UShort)
      ensures this.key == key && this.id == id && this.count == count && this.size == size
    {
      this.key := key;
      this.id := id;
      this.count := count;
      this.size := size;
    }

    /** Makes a set of `count` semaphores of size `size`, or attaches to an existing one when
        that is allowed.  When the system refuses the size, the call fails but the set stays. */
    static method New(k: Kernel, key: nat, count: nat, size: UShort, attach: bool) returns (s: Semaphore?)
      modifies k`sems
      ensures s != null ==> fresh(s) && s.key == key && s.id == Ftok(key) && s.count == count && s.size == size
      ensures s != null <==> if Ftok(key) in old(k.sems) then attach else count > 0 && size <= SEMVMX
      ensures k.sems == if Ftok(key) in old(k.sems) || count == 0 then old(k.sems)
                        else old(k.sems)[Ftok(key) := SemSet(Filled(count, if size <= SEMVMX then size else 0), k.now)]
    {
      var sem := new Semaphore(key, Ftok(key), count, size);
      var success := false;
      var e := k.SemCreate(sem.id, count);
      if e == Ok {
        success := sem.Init(k, size);
      } else if attach {
        if e == EEXIST {
          success := sem.id in k.sems;
        }
      }
      s := if success then sem else null;
    }

    /** Sets every semaphore of the set to the given size. */
    method Init(k: Kernel, size: UShort) returns (success: bool)
      requires id in k.sems && |k.sems[id].values| == count > 0
      modifies k`sems
      ensures success == (size <= SEMVMX)
      ensures k.sems == if success then old(k.sems)[id := SemSet(Filled(count, size), k.now)] else old(k.sems)
    {
      var sarray := new int[count];
      var i := 0;
      while i < count
        invariant 0 <= i <= count && k.sems == old(k.sems)
        invariant forall j :: 0 <= j < i ==> sarray[j] == size
      {
        sarray[i] := size;
        i := i + 1;
      }
      var values := sarray[..];
      assert values == Filled(count, size);
      assert values[0] == size;
      var e := k.SetAll(id, values);
      assert forall j :: 0 <= j < |values| ==> values[j] == size;
      success := e == Ok;
    }

    static method Attach(k: Kernel, key: nat) returns (s: Semaphore?)
      ensures s != null <==> Ftok(key) in k.sems
      ensures s != null ==> fresh(s) && s.key == key && s.id == Ftok(key) && s.size == 1
      ensures s != null ==> s.count == |k.sems[s.id].values|
    {
      if Ftok(key) in k.sems {
        s := new Semaphore(key, Ftok(key), |k.sems[Ftok(key)].values|, 1);
      } else {
        s := null;
      }
    }

    /** Removes the set from the kernel, when told to; the handle is gone in either case. */
    method Delete(k: Kernel, removeSet: bool)
      modifies k`sems
      ensures k.sems == if removeSet then old(k.sems) - {id} else old(k.sems)
    {
      if removeSet {
        var e := k.SemRemove(id);
      }
    }

    method SetSize(size: UShort)
      modifies this`size
      ensures this.size == size
    {
      this.size := size;
    }

    method Used(k: Kernel, index: nat) returns (used: int)
      ensures k.HasSem(id, index) ==> used == size - k.sems[id].values[index]
      ensures !k.HasSem(id, index) ==> used == size + 1
    {
      var value := k.GetVal(id, index);
      used := size - value;
    }

    /** Takes one unit.  `timeout` is 0 to wait in the kernel, -1 not to wait, and otherwise the
        number of seconds for which an attempt is made once a second; for other negative numbers
        that is no attempt at all.  Without the semaphore an attempt gives -1. */
    method Lock(k: Kernel, index: nat, timeout: int) returns (r: Outcome)
      requires k.HasSem(id, index) ==> 0 <= k.sems[id].values[index] <= SEMVMX
      modifies k`sems, k`now
      ensures LockOutcome(old(k.sems), k.others, old(k.now), id, index, timeout, r, k.sems, k.now)
    {
      var e := 0;
      if timeout == LOCK_BLOCKING {
        var err := k.SemOp(id, index, -1, false);
        if err == Blocked {
          return Asleep;
        }
        if err != Ok {
          e := -1;
        }
      } else if timeout == LOCK_NONBLOCK {
        var err := k.SemOp(id, index, -1, true);
        if err != Ok {
          e := if err == EAGAIN then 1 else -1;
        }
      } else {
        e := Poll(k, index, timeout);
      }
      r := Returned(e);
    }

    /** The third mode of `Lock`: an attempt, and after a failure a second of sleep, until the
        time is up. */
    method Poll(k: Kernel, index: nat, timeout: int) returns (e: int)
      requires k.HasSem(id, index) ==> 0 <= k.sems[id].values[index] <= SEMVMX
      requires timeout != LOCK_BLOCKING && timeout != LOCK_NONBLOCK
      modifies k`sems, k`now
      ensures PollOutcome(old(k.sems), k.others, old(k.now), id, index, timeout, e, k.sems, k.now)
    {
      e := 1;
      var t := 0;
      ghost var start, sems0 := k.now, k.sems;
      while t < timeout
        invariant 0 <= t && (t == 0 || t <= timeout)
        invariant k.now == start + t && e == 1
        invariant StillPolling(sems0, k.others, start, id, index, t, k.sems)
      {
        ghost var now := k.sems;
        var err := PollOnce(k, index);
        PollTurn(sems0, k.others, start, id, index, t, now, timeout, err, k.sems);
        if err == Ok {
          return 0;
        } else if err != EAGAIN {
          return -1;
        }
        t := t + 1;
      }
      PollEnd(sems0, k.others, start, id, index, t, k.sems, timeout);
    }

    /** One turn of `Poll`. */
    method PollOnce(k: Kernel, index: nat) returns (err: Errno)
      modifies k`sems, k`now
      ensures err == SemOpErrno(old(k.sems), id, index, -1, true)
      ensures k.now == old(k.now) + if err == EAGAIN then 1 else 0
      ensures k.sems == AfterTurn(old(k.sems), k.others, old(k.now), id, index)
    {
      err := k.SemOp(id, index, -1, true);
      if err == EAGAIN {
        k.Sleep();
      }
    }

    /** Gives one unit back, unless none is used. */
    method Unlock(k: Kernel, index: nat) returns (e: int)
      requires k.HasSem(id, index)
      modifies k`sems
      ensures e == if old(k.sems[id].values[index]) < size && -1 <= old(k.sems[id].values[index]) < SEMVMX
                   then 0 else -1
      ensures k.sems == if e == 0 then Adjusted(old(k.sems), id, index, 1) else old(k.sems)
    {
      e := -1;
      var used := Used(k, index);
      if used > 0 {
        var err := k.SemOp(id, index, 1, false);
        if err == Ok {
          e := 0;
        }
      }
    }
  }
}
