/** The commands of lock.c over kernel objects.  Every command is a process of its own; nothing
    but the kernel survives it, so the values of `delta` and `expiry` left by the one before, or
    set by its options, mean nothing to it. */
module LockTool {
  import opened IpcKernel
  import opened Semaphores
  import opened SharedSegments
  import opened LockObjects
  import T = LockTable

  const SHSEM_INDEX := 0
  const SHSEM_COUNT := 1

  type Int = n: int | -UINT_RANGE / 2 <= n < UINT_RANGE / 2

  /** A key whose objects, those of them that exist, are as the tool makes them. */
  ghost predicate Usual(k: Kernel, key: nat)
    reads k
  {
    WellFormed(k.sems, k.segs, key)
  }

  lemma RemovingNothing<V>(m: map<nat, V>, key: nat)
    ensures key !in m ==> m - {key} == m
  {
  }

  class Tool {
    const k: Kernel
    var delta: int
    var expiry: int

    /** The `-x` option sets `expiry`, whatever the command. */
    constructor (k: Kernel)
      ensures this.k == k && delta == 0
    {
      this.k := k;
      delta := 0;
      expiry := *;
    }

    /** The deadline that the static variables stand for. */
    function Given(): T.Option<int>
      reads this, k
    {
      if expiry == 0 then T.None else T.Some(k.now + delta)
    }

    /** Reads size, expiry and remaining time back from the segment.  Without a segment or without
        its guard, nothing changes. */
    method Init(shsem: Semaphore) returns (e: int)
      requires Usual(k, shsem.key) && shsem.id == shsem.key && shsem.key in k.sems
      modifies this`delta, this`expiry, shsem`size, k`sems, k`segs, k`now
      ensures k.sems == old(k.sems) && k.segs == old(k.segs) && k.now == old(k.now)
      ensures e == if Readable(k.sems, k.segs, shsem.key) then 0 else -1
      ensures shsem.size == if e == 0 then SizeOf(k.sems, k.segs, shsem.key) else old(shsem.size)
      ensures Given() == LifeOf(k.sems, k.segs, shsem.key, old(Given()))
    {
      e := -1;
      var shmem := SharedMemory.Attach(k, shsem.key);
      if shmem != null {
        if shmem.shsem != null {
          var size := shmem.ReadUInt(k, 0);
          shsem.SetSize(size % 0x1_0000);
          expiry := shmem.ReadUInt(k, 1);
          if expiry != 0 {
            var now := k.now;
            var life := shmem.ReadUInt(k, 2);
            var expire := k.sems[shsem.id].ctime + life;
            delta := expire - now;
          }
          shmem.Delete(k, false);
          e := 0;
        }
      }
    }

    method Create(key: nat, semaphores: UShort, expire: Int) returns (e: int)
      requires Usual(k, key)
      modifies k`sems, k`segs, k`now
      ensures k.now == old(k.now)
      ensures (k.sems, k.segs, e) == CreateObjects(old(k.sems), old(k.segs), old(k.now), key, semaphores, expire)
    {
      e := -1;
      var shsem := Semaphore.New(k, key, SHSEM_COUNT, semaphores, false);
      assert forall v :: Filled(SHSEM_COUNT, v) == [v];
      if shsem != null {
        assert k.sems == old(k.sems)[key := NewSet(semaphores, k.now)];
        e := MakeSegment(key, semaphores, expire);
        shsem.Delete(k, false);
      }
    }

    /** The part of `create` that makes the segment of a key whose set has just been made. */
    method MakeSegment(key: nat, semaphores: UShort, expire: Int) returns (e: int)
      requires key < KEYS
      modifies k`sems, k`segs, k`now
      ensures e == (if key in old(k.segs) || key + GUARD in old(k.sems) then -1 else 0) && k.now == old(k.now)
      ensures k.sems == if e == 0 then old(k.sems)[key + GUARD := SemSet([1], k.now)] else old(k.sems)
      ensures k.segs == if key in old(k.segs) then old(k.segs)
                        else old(k.segs)[key := if e == 0 then Header(semaphores, expire) else Blank()]
    {
      e := -1;
      var shmem := SharedMemory.New(k, key, 4 * 4, false);
      if shmem != null {
        e := 0;
        FillIn(shmem, semaphores, expire);
        shmem.Delete(k, false);
      }
    }

    /** The four words of a new lock. */
    method FillIn(shmem: SharedMemory, semaphores: UShort, expire: Int)
      requires Usable(k, shmem) && k.segs[shmem.id] == Blank()
      modifies k`sems, k`segs, k`now
      ensures k.sems == old(k.sems) && k.now == old(k.now)
      ensures k.segs == old(k.segs)[shmem.id := Header(semaphores, expire)]
    {
      shmem.WriteUInt(k, 0, semaphores);
      shmem.WriteUInt(k, 1, if expire != 0 then 1 else 0);
      shmem.WriteUInt(k, 2, expire);
      shmem.WriteUInt(k, 3, 0);
    }

    /** The result counts the objects that were not there. */
    method Delete(key: nat) returns (e: int)
      requires Usual(k, key)
      modifies k`sems, k`segs
      ensures (k.sems, k.segs, e) == DeleteObjects(old(k.sems), old(k.segs), key)
    {
      e := 0;

      e := e + 1;
      var shsem := Semaphore.Attach(k, key);
      if shsem != null {
        shsem.Delete(k, true);
        e := e - 1;
      }

      e := e + 1;
      var shmem := SharedMemory.Attach(k, key);
      if shmem != null {
        shmem.Delete(k, true);
        e := e - 1;
      }
      RemovingNothing(old(k.sems), key);
      RemovingNothing(old(k.sems) - {key}, key + GUARD);
      RemovingNothing(old(k.segs), key);
    }

    method Status(key: nat) returns (u: int, s: int, d: int, e: int)
      requires Usual(k, key)
      modifies this`delta, this`expiry, k`sems, k`segs, k`now
      ensures k.sems == old(k.sems) && k.segs == old(k.segs) && k.now == old(k.now)
      ensures T.Report(u, s, d, e) == StatusReport(k.sems, k.segs, k.now, key, old(Given()))
    {
      e, d, u, s := -1, -1, -1, -1;
      var shsem := Semaphore.Attach(k, key);
      if shsem != null {
        var ignored := Init(shsem);
        if expiry != 0 {
          if delta > 0 {
            d := T.ToInt(delta);
            e := 0;
          }
        } else {
          e := 0;
        }
        if e == 0 {
          u := shsem.Used(k, SHSEM_INDEX);
          s := shsem.size;
        }
      }
    }

    method Unlock(key: nat) returns (e: int)
      requires Usual(k, key)
      modifies this`delta, this`expiry, k`sems, k`segs, k`now
      ensures k.segs == old(k.segs) && k.now == old(k.now)
      ensures (k.sems, e) == OffObjects(old(k.sems), k.segs, key)
    {
      e := -1;
      var shsem := Semaphore.Attach(k, key);
      if shsem != null {
        var ignored := Init(shsem);
        e := shsem.Unlock(k, SHSEM_INDEX);
        shsem.Delete(k, false);
      }
    }

    method Lock(key: nat, timeout: Int) returns (r: Outcome)
      requires Usual(k, key)
      modifies this`delta, this`expiry, k`sems, k`segs, k`now
      ensures OnOutcome(old(k.sems), old(k.segs), k.others, old(k.now), key, old(Given()), timeout,
                        r, k.sems, k.segs, k.now)
    {
      r := Returned(-1);
      if Ftok(key) in k.sems {
        var shsem := Semaphore.Attach(k, key);
        if shsem != null {
          var ignored := Init(shsem);
          ghost var sems0, segs0, now0 := k.sems, k.segs, k.now;
          ghost var deadline := LifeOf(sems0, segs0, key, old(Given()));
          if expiry != 0 {
            if delta > 0 {
              var t := T.ToInt(if timeout == 0 then delta else if delta < timeout then delta else timeout);
              assert t == T.Limit(deadline, now0, timeout);
              r := shsem.Lock(k, SHSEM_INDEX, t);
            } else {
              var ignoredToo := Delete(key);
            }
          } else {
            assert timeout == T.Limit(deadline, now0, timeout);
            r := shsem.Lock(k, SHSEM_INDEX, timeout);
          }
          assert OnOutcome(sems0, segs0, k.others, now0, key, old(Given()), timeout, r, k.sems, k.segs, k.now);
          shsem.Delete(k, false);
        }
      }
    }
  }
}
