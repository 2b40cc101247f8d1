/** The shared memory object of SharedMemory.c: a handle on a kernel segment together with the
    guard semaphore that every access locks and unlocks.  Here one process runs at a time; what
    the guard does for processes that run together is the subject of the protocol modules. */
module SharedSegments {
  import opened IpcKernel
  import opened CStrings
  import opened Semaphores

  const UINT_RANGE := 0x1_0000_0000

  type UInt = n: int | 0 <= n < UINT_RANGE

  function ToUInt(n: int): UInt {
    n % UINT_RANGE
  }

  // ---------------------------------------------------------------- words in bytes

  function Pow256(k: nat): (p: nat)
    ensures p > 0
  {
    if k == 0 then 1 else 256 * Pow256(k - 1)
  }

  /** A number in k bytes, least significant first. */
  function ToBytes(n: nat, k: nat): (b: seq<Byte>)
    ensures |b| == k
  {
    if k == 0 then [] else [n % 256] + ToBytes(n / 256, k - 1)
  }

  function FromBytes(b: seq<Byte>): (n: nat)
    ensures n < Pow256(|b|)
  {
    if b == [] then 0 else FromBytes(b[1..]) * 256 + b[0]
  }

  lemma {:induction false} BytesRoundTrip(n: nat, k: nat)
    requires n < Pow256(k)
    ensures FromBytes(ToBytes(n, k)) == n
  {
    if k > 0 {
      BytesRoundTrip(n / 256, k - 1);
      assert ToBytes(n, k)[1..] == ToBytes(n / 256, k - 1);
    }
  }

  lemma FourBytes()
    ensures Pow256(4) == UINT_RANGE
  {
    assert Pow256(2) == 256 * Pow256(1);
    assert Pow256(4) == 256 * Pow256(3);
  }

  function WordAt(mem: seq<Byte>, i: nat): UInt
    requires 4 * i + 4 <= |mem|
  {
    FourBytes();
    FromBytes(mem[4 * i..4 * i + 4])
  }

  function SetWord(mem: seq<Byte>, i: nat, n: UInt): (r: seq<Byte>)
    requires 4 * i + 4 <= |mem|
    ensures |r| == |mem|
  {
    Put(mem, 4 * i, ToBytes(n, 4))
  }

  /** Storing a word and loading it back, or loading any other one. */
  lemma WordAfterSetWord(mem: seq<Byte>, i: nat, n: UInt, j: nat)
    requires 4 * i + 4 <= |mem| && 4 * j + 4 <= |mem|
    ensures WordAt(SetWord(mem, i, n), j) == if j == i then n else WordAt(mem, j)
  {
    var r := SetWord(mem, i, n);
    if j == i {
      FourBytes();
      BytesRoundTrip(n, 4);
      assert r[4 * i..4 * i + 4] == ToBytes(n, 4);
    } else {
      assert r[4 * j..4 * j + 4] == mem[4 * j..4 * j + 4];
    }
  }

  // ---------------------------------------------------------------- the object

  /** A handle whose segment exists and whose guard exists and is free. */
  ghost predicate Usable(k: Kernel, m: SharedMemory)
    reads k, m, m.shsem
  {
    && m.id in k.segs
    && m.shsem != null
    && m.shsem.size == 1
    && k.HasSem(m.shsem.id, 0) && k.sems[m.shsem.id].values[0] == 1
  }

  class SharedMemory {
    var key: nat
    var id: nat
    var shsem: Semaphore?

    constructor (key: nat, id: nat, shsem: Semaphore?)
      ensures this.key == key && this.id == id && this.shsem == shsem
    {
      this.key := key;
      this.id := id;
      this.shsem := shsem;
    }

    /** Makes a segment and its guard, or attaches to existing ones when that is allowed.  When
        the segment is new and its guard cannot be had, the call fails but the segment stays. */
    static method New(k: Kernel, key: nat, size: nat, attach: bool) returns (m: SharedMemory?)
      modifies k`sems, k`segs
      ensures var id, gid := Ftok(key), Ftok(key + 128);
              var segmentOk := if id in old(k.segs) then attach else size > 0;
              && k.segs == (if id in old(k.segs) || size == 0 then old(k.segs)
                            else old(k.segs)[id := seq(size, i => 0)])
              && k.sems == (if !segmentOk || gid in old(k.sems) then old(k.sems)
                            else old(k.sems)[gid := SemSet([1], k.now)])
              && (m != null <==> segmentOk && (gid in old(k.sems) ==> attach))
              && (m != null ==> fresh(m) && m.key == key && m.id == id && m.shsem != null && fresh(m.shsem) &&
                                m.shsem.id == gid && m.shsem.size == 1)
    {
      var success := false;
      var e := k.ShmCreate(Ftok(key), size);
      if e == Ok {
        success := true;
      } else if e == EEXIST {
        if attach {
          success := Ftok(key) in k.segs;
        }
      }
      m := null;
      if success {
        var shsem := Semaphore.New(k, key + 128, 1, 1, attach);
        if shsem != null {
          m := new SharedMemory(key, Ftok(key), shsem);
        }
        assert Filled(1, 1) == [1];
      }
    }

    /** The handle is given also when the guard does not exist. */
    static method Attach(k: Kernel, key: nat) returns (m: SharedMemory?)
      ensures m != null <==> Ftok(key) in k.segs
      ensures m != null ==>
                && fresh(m) && m.key == key && m.id == Ftok(key)
                && (m.shsem != null <==> Ftok(key + 128) in k.sems)
                && (m.shsem != null ==> fresh(m.shsem) && m.shsem.id == Ftok(key + 128) && m.shsem.size == 1)
    {
      m := null;
      if Ftok(key) in k.segs {
        var shsem := Semaphore.Attach(k, key + 128);
        m := new SharedMemory(key, Ftok(key), shsem);
      }
    }

    /** Removes the guard set and the segment, when told to. */
    method Delete(k: Kernel, removeSegment: bool)
      modifies k`sems, k`segs
      ensures k.segs == if removeSegment then old(k.segs) - {id} else old(k.segs)
      ensures k.sems == if removeSegment && shsem != null then old(k.sems) - {shsem.id} else old(k.sems)
    {
      if shsem != null {
        shsem.Delete(k, removeSegment);
      }
      if removeSegment {
        var e := k.ShmRemove(id);
      }
    }

    method WriteUInt(k: Kernel, offset: nat, n: int)
      requires Usable(k, this) && 4 * offset + 4 <= |k.segs[id]|
      modifies k`sems, k`segs, k`now
      ensures k.sems == old(k.sems) && k.now == old(k.now) && Usable(k, this)
      ensures k.segs == old(k.segs)[id := SetWord(old(k.segs[id]), offset, ToUInt(n))]
    {
      AdjustedBack(k.sems, shsem.id, 0);
      var r := shsem.Lock(k, 0, LOCK_BLOCKING);
      assert r == Returned(0);
      k.segs := k.segs[id := SetWord(k.segs[id], offset, ToUInt(n))];
      var e := shsem.Unlock(k, 0);
      assert e == 0;
    }

    /** The word is loaded after the guard has been given back. */
    method ReadUInt(k: Kernel, offset: nat) returns (n: UInt)
      requires Usable(k, this) && 4 * offset + 4 <= |k.segs[id]|
      modifies k`sems, k`now
      ensures k.sems == old(k.sems) && k.now == old(k.now) && Usable(k, this)
      ensures n == WordAt(k.segs[id], offset)
    {
      AdjustedBack(k.sems, shsem.id, 0);
      var r := shsem.Lock(k, 0, LOCK_BLOCKING);
      assert r == Returned(0);
      var e := shsem.Unlock(k, 0);
      assert e == 0;
      n := WordAt(k.segs[id], offset);
    }

    method Write(k: Kernel, offset: nat, text: seq<Byte>)
      requires Usable(k, this) && offset <= |k.segs[id]|
      modifies k`sems, k`segs, k`now
      ensures k.sems == old(k.sems) && k.now == old(k.now) && Usable(k, this)
      ensures k.segs == old(k.segs)[id := VsnPrintf(old(k.segs[id]), offset, text)]
    {
      AdjustedBack(k.sems, shsem.id, 0);
      var r := shsem.Lock(k, 0, LOCK_BLOCKING);
      assert r == Returned(0);
      k.segs := k.segs[id := VsnPrintf(k.segs[id], offset, text)];
      var e := shsem.Unlock(k, 0);
      assert e == 0;
    }

    method Read(k: Kernel, offset: nat) returns (buffer: seq<Byte>)
      requires Usable(k, this) && offset <= |k.segs[id]|
      modifies k`sems, k`now
      ensures k.sems == old(k.sems) && k.now == old(k.now) && Usable(k, this)
      ensures buffer == StrNCpy(k.segs[id][offset..])
    {
      AdjustedBack(k.sems, shsem.id, 0);
      var r := shsem.Lock(k, 0, LOCK_BLOCKING);
      assert r == Returned(0);
      buffer := StrNCpy(k.segs[id][offset..]);
      var e := shsem.Unlock(k, 0);
      assert e == 0;
    }
  }

  /** Writing a text with no NUL in it and reading back at the same place: as much of it as fits
      in front of the terminator, padded with NULs, and nothing else in the segment has changed. */
  method RoundTrip(k: Kernel, m: SharedMemory, offset: nat, text: seq<Byte>) returns (buffer: seq<Byte>)
    requires Usable(k, m) && offset < |k.segs[m.id]| && NUL !in text
    modifies k`sems, k`segs, k`now
    ensures var room := old(|k.segs[m.id]|) - offset;
            var kept := Min(|text|, room - 1);
            && buffer == text[..kept] + Padding(room - kept)
            && k.segs.Keys == old(k.segs.Keys) && |k.segs[m.id]| == old(|k.segs[m.id]|)
            && (forall i :: 0 <= i < |k.segs[m.id]| && !(offset <= i <= offset + kept) ==>
                  k.segs[m.id][i] == old(k.segs[m.id])[i])
            && (forall id :: id in k.segs && id != m.id ==> k.segs[id] == old(k.segs)[id])
  {
    WriteThenRead(k.segs[m.id], offset, text);
    m.Write(k, offset, text);
    buffer := m.Read(k, offset);
  }
}
