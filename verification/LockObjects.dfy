/** How the `lock` tool lays its table out in kernel objects.  Key k has a semaphore set k, a
    segment k of four words (size, whether it expires, seconds to live, unused) whose guard is
    semaphore set k + 128.  The lifetime counts from the time the set was initialised. */
module LockObjects {
  import opened IpcKernel
  import opened CStrings
  import opened Semaphores
  import opened SharedSegments
  import T = LockTable

  const KEYS := T.KEYS
  const GUARD := 128
  const SEGMENT_SIZE := 16

  type Sets = map<nat, SemSet>
  type Segments = map<nat, seq<Byte>>

  /** The three objects of a key exist and make sense together. */
  ghost predicate Complete(sems: Sets, segs: Segments, now: int, key: nat) {
    && key in segs && key in sems && key + GUARD in sems
    && |segs[key]| == SEGMENT_SIZE
    && |sems[key].values| == 1
    && sems[key + GUARD].values == [1]
    && WordAt(segs[key], 0) <= SEMVMX
    && 0 <= sems[key].values[0] <= WordAt(segs[key], 0)
    && sems[key].ctime <= now
  }

  predicate Absent(sems: Sets, segs: Segments, key: nat) {
    key !in segs && key !in sems && key + GUARD !in sems
  }

  /** Any of the three objects of a key may be missing; those that exist are as the tool makes them. */
  ghost predicate WellFormed(sems: Sets, segs: Segments, key: nat) {
    && key < KEYS
    && (key in sems ==> |sems[key].values| == 1 && 0 <= sems[key].values[0] <= SEMVMX)
    && (key in segs ==> |segs[key]| == SEGMENT_SIZE && WordAt(segs[key], 0) <= SEMVMX)
    && (key + GUARD in sems ==> sems[key + GUARD].values == [1])
  }

  /** Every key has all of its objects or none, and there are no others. */
  ghost predicate AllOrNone(sems: Sets, segs: Segments, now: int) {
    && (forall key: nat :: key < KEYS ==> Complete(sems, segs, now, key) || Absent(sems, segs, key))
    && (forall id :: id in sems ==> id < KEYS + GUARD)
    && (forall id :: id in segs ==> id < KEYS)
  }

  function Deadline(s: SemSet, seg: seq<Byte>): T.Option<int>
    requires |seg| == SEGMENT_SIZE
  {
    if WordAt(seg, 1) == 0 then T.None else T.Some(s.ctime + WordAt(seg, 2))
  }

  function EntryOf(s: SemSet, seg: seq<Byte>): T.Entry
    requires |seg| == SEGMENT_SIZE && |s.values| == 1
  {
    T.Entry(WordAt(seg, 0), WordAt(seg, 0) - s.values[0], Deadline(s, seg))
  }

  /** The table that the objects stand for. */
  function Table(sems: Sets, segs: Segments): map<nat, T.Entry> {
    map key | key in segs && key in sems && |segs[key]| == SEGMENT_SIZE && |sems[key].values| == 1
      :: EntryOf(sems[key], segs[key])
  }

  function NewSet(size: int, now: int): SemSet {
    SemSet([size], now)
  }

  function Blank(): (seg: seq<Byte>)
    ensures |seg| == SEGMENT_SIZE
  {
    seq(SEGMENT_SIZE, i => 0)
  }

  /** The segment that `create` fills in. */
  function Header(size: int, expire: int): (seg: seq<Byte>)
    ensures |seg| == SEGMENT_SIZE
  {
    SetWord(SetWord(SetWord(SetWord(Blank(), 0, ToUInt(size)), 1, if expire != 0 then 1 else 0),
                    2, ToUInt(expire)), 3, 0)
  }

  lemma HeaderWords(size: int, expire: int)
    requires 0 <= size <= SEMVMX
    ensures var seg := Header(size, expire);
            && WordAt(seg, 0) == size && WordAt(seg, 1) == (if expire != 0 then 1 else 0)
            && WordAt(seg, 2) == ToUInt(expire) && WordAt(seg, 3) == 0
  {
    var seg := FourWords(Blank(), ToUInt(size), if expire != 0 then 1 else 0, ToUInt(expire), 0);
    WordsOf(seg, ToUInt(size), if expire != 0 then 1 else 0, ToUInt(expire), 0);
  }

  lemma WordsOf(seg: seq<Byte>, w0: UInt, w1: UInt, w2: UInt, w3: UInt)
    requires StartsWith(seg, [w0, w1, w2, w3])
    ensures WordAt(seg, 0) == w0 && WordAt(seg, 1) == w1 && WordAt(seg, 2) == w2 && WordAt(seg, 3) == w3
  {
    var words := [w0, w1, w2, w3];
    assert words[0] == w0 && words[1] == w1 && words[2] == w2 && words[3] == w3;
  }

  lemma FourWords(blank: seq<Byte>, w0: UInt, w1: UInt, w2: UInt, w3: UInt) returns (seg: seq<Byte>)
    requires |blank| == SEGMENT_SIZE
    ensures seg == SetWord(SetWord(SetWord(SetWord(blank, 0, w0), 1, w1), 2, w2), 3, w3)
    ensures StartsWith(seg, [w0, w1, w2, w3])
  {
    seg := FirstWords(blank, 0, w0, []);
    seg := FirstWords(seg, 1, w1, [w0]);
    seg := FirstWords(seg, 2, w2, [w0, w1]);
    seg := FirstWords(seg, 3, w3, [w0, w1, w2]);
  }

  ghost predicate StartsWith(seg: seq<Byte>, words: seq<UInt>) {
    |words| <= 4 && |seg| == SEGMENT_SIZE && forall j :: 0 <= j < |words| ==> WordAt(seg, j) == words[j]
  }

  /** Filling in words from the first on. */
  lemma FirstWords(seg: seq<Byte>, i: nat, n: UInt, before: seq<UInt>) returns (r: seq<Byte>)
    requires |seg| == SEGMENT_SIZE && |before| == i < 4 && StartsWith(seg, before)
    ensures r == SetWord(seg, i, n) && StartsWith(r, before + [n])
  {
    r := SetWord(seg, i, n);
    forall j | 0 <= j <= i ensures WordAt(r, j) == (before + [n])[j] {
      WordAfterSetWord(seg, i, n, j);
    }
  }

  function WithKey(sems: Sets, segs: Segments, now: int, key: nat, size: int, expire: int): (Sets, Segments) {
    (sems[key := NewSet(size, now)][key + GUARD := SemSet([1], now)], segs[key := Header(size, expire)])
  }

  lemma KeyAddedComplete(sems: Sets, segs: Segments, now: int, key: nat, size: int, expire: int)
    requires AllOrNone(sems, segs, now) && key < KEYS && key !in sems && 0 <= size <= SEMVMX
    ensures var (sems', segs') := WithKey(sems, segs, now, key, size, expire); AllOrNone(sems', segs', now)
  {
    HeaderWords(size, expire);
    var (sems', segs') := WithKey(sems, segs, now, key, size, expire);
    forall other: nat | other < KEYS
      ensures Complete(sems', segs', now, other) || Absent(sems', segs', other)
    {
      if other != key {
        SameObjects(sems, segs, sems', segs', now, other);
      }
    }
  }

  /** Only its own objects matter to a key. */
  lemma SameObjects(sems: Sets, segs: Segments, sems': Sets, segs': Segments, now: int, key: nat)
    requires Complete(sems, segs, now, key) || Absent(sems, segs, key)
    requires key in segs <==> key in segs'
    requires key in segs ==> segs[key] == segs'[key]
    requires forall id :: id == key || id == key + GUARD ==>
               (id in sems <==> id in sems') && (id in sems ==> sems[id] == sems'[id])
    ensures Complete(sems', segs', now, key) || Absent(sems', segs', key)
  {
  }

  lemma TableOneMore(sems: Sets, segs: Segments, key: nat, s: SemSet, guard: SemSet, seg: seq<Byte>)
    requires |s.values| == 1 && |seg| == SEGMENT_SIZE && key + GUARD !in segs
    ensures Table(sems[key := s][key + GUARD := guard], segs[key := seg]) ==
            Table(sems, segs)[key := EntryOf(s, seg)]
  {
    SameElsewhere(sems, segs, sems[key := s][key + GUARD := guard], segs[key := seg], key);
  }

  lemma NewEntry(size: int, expire: int, now: int)
    requires 0 <= size <= SEMVMX
    ensures EntryOf(NewSet(size, now), Header(size, expire)) ==
            T.Entry(size, 0, if expire == 0 then T.None else T.Some(now + T.ToUInt(expire)))
  {
    HeaderWords(size, expire);
    EntryFromWords(Header(size, expire), size, expire, now);
  }

  lemma EntryFromWords(seg: seq<Byte>, size: int, expire: int, now: int)
    requires |seg| == SEGMENT_SIZE && WordAt(seg, 0) == size
    requires WordAt(seg, 1) == (if expire != 0 then 1 else 0) && WordAt(seg, 2) == ToUInt(expire)
    ensures EntryOf(NewSet(size, now), seg) ==
            T.Entry(size, 0, if expire == 0 then T.None else T.Some(now + T.ToUInt(expire)))
  {
  }

  /** What a complete `create` makes. */
  lemma KeyAdded(sems: Sets, segs: Segments, now: int, key: nat, size: int, expire: int)
    requires AllOrNone(sems, segs, now) && key < KEYS && key !in sems && 0 <= size <= SEMVMX
    ensures var (sems', segs') := WithKey(sems, segs, now, key, size, expire);
            && AllOrNone(sems', segs', now)
            && (T.World(Table(sems', segs'), now), T.Code(0)) ==
               T.Next(T.World(Table(sems, segs), now), T.Create(key, size, expire))
  {
    KeyAddedComplete(sems, segs, now, key, size, expire);
    TableOneMore(sems, segs, key, NewSet(size, now), SemSet([1], now), Header(size, expire));
    NewEntry(size, expire, now);
  }

  /** Tables agree where the objects do. */
  lemma SameElsewhere(sems: Sets, segs: Segments, sems': Sets, segs': Segments, key: nat)
    requires forall id :: id != key ==> (id in segs <==> id in segs') && (id in segs ==> segs[id] == segs'[id])
    requires forall id :: id != key && id in segs ==> (id in sems <==> id in sems')
    requires forall id :: id != key && id in segs && id in sems ==> sems[id] == sems'[id]
    ensures forall id :: id != key ==> (id in Table(sems, segs) <==> id in Table(sems', segs'))
    ensures forall id :: id != key && id in Table(sems, segs) ==> Table(sems, segs)[id] == Table(sems', segs')[id]
  {
  }

  lemma KeyRemoved(sems: Sets, segs: Segments, now: int, key: nat)
    requires AllOrNone(sems, segs, now) && key < KEYS
    ensures var sems', segs' := sems - {key} - {key + GUARD}, segs - {key};
            && AllOrNone(sems', segs', now)
            && Table(sems', segs') == Table(sems, segs) - {key}
            && Absent(sems', segs', key)
  {
    var sems', segs' := sems - {key} - {key + GUARD}, segs - {key};
    forall other: nat | other < KEYS
      ensures Complete(sems', segs', now, other) || Absent(sems', segs', other)
    {
      assert Complete(sems, segs, now, other) || Absent(sems, segs, other);
    }
  }

  lemma UnitMoved(sems: Sets, segs: Segments, now: int, key: nat, op: int)
    requires AllOrNone(sems, segs, now) && Complete(sems, segs, now, key) && key < KEYS
    requires 0 <= sems[key].values[0] + op <= WordAt(segs[key], 0)
    ensures AllOrNone(Adjusted(sems, key, 0, op), segs, now)
    ensures var t := Table(sems, segs);
            key in t && Table(Adjusted(sems, key, 0, op), segs) == t[key := t[key].(used := t[key].used - op)]
  {
    var sems' := Adjusted(sems, key, 0, op);
    var t := Table(sems, segs);
    AdjustedComplete(sems, segs, now, key, op);
    SameElsewhere(sems, segs, sems', segs, key);
    assert Table(sems', segs)[key] == t[key].(used := t[key].used - op);
    assert Table(sems', segs) == t[key := t[key].(used := t[key].used - op)];
  }

  lemma AdjustedComplete(sems: Sets, segs: Segments, now: int, key: nat, op: int)
    requires AllOrNone(sems, segs, now) && Complete(sems, segs, now, key) && key < KEYS
    requires 0 <= sems[key].values[0] + op <= WordAt(segs[key], 0)
    ensures AllOrNone(Adjusted(sems, key, 0, op), segs, now)
  {
    var sems' := Adjusted(sems, key, 0, op);
    forall other: nat | other < KEYS
      ensures Complete(sems', segs, now, other) || Absent(sems', segs, other)
    {
      assert Complete(sems, segs, now, other) || Absent(sems, segs, other);
    }
  }

  lemma TimePasses(sems: Sets, segs: Segments, now: int, later: int)
    requires AllOrNone(sems, segs, now) && now <= later
    ensures AllOrNone(sems, segs, later)
  {
    forall key: nat | key < KEYS ensures Complete(sems, segs, later, key) || Absent(sems, segs, key) {
      assert Complete(sems, segs, now, key) || Absent(sems, segs, key);
    }
  }

  /** A key is in the table exactly when its objects exist, and then they tell its entry. */
  lemma InTable(sems: Sets, segs: Segments, now: int, key: nat)
    requires AllOrNone(sems, segs, now) && key < KEYS
    ensures key in Table(sems, segs) <==> key in sems
    ensures key in sems <==> key in segs
    ensures key in sems <==> Complete(sems, segs, now, key)
    ensures key in sems ==> Table(sems, segs)[key] == EntryOf(sems[key], segs[key])
  {
    assert Complete(sems, segs, now, key) || Absent(sems, segs, key);
  }

  // ---------------------------------------------------------------- what each command does to the objects

  // They hold also when some of the objects of the key are missing.  A segment without its guard
  // is not read; then the size is the one of a fresh handle, and the lifetime is the one that the
  // static variables of the process, set by its options, stand for (`given`).

  predicate Readable(sems: Sets, segs: Segments, key: nat) {
    key in segs && |segs[key]| == SEGMENT_SIZE && key + GUARD in sems
  }

  function SizeOf(sems: Sets, segs: Segments, key: nat): int {
    if Readable(sems, segs, key) then WordAt(segs[key], 0) else 1
  }

  function LifeOf(sems: Sets, segs: Segments, key: nat, given: T.Option<int>): T.Option<int>
    requires key in sems
  {
    if Readable(sems, segs, key) then Deadline(sems[key], segs[key]) else given
  }

  predicate HasSet(sems: Sets, key: nat) {
    key in sems && |sems[key].values| == 1
  }

  function OffObjects(sems: Sets, segs: Segments, key: nat): (Sets, int) {
    if HasSet(sems, key) && sems[key].values[0] < SizeOf(sems, segs, key)
    then (Adjusted(sems, key, 0, 1), 0) else (sems, -1)
  }

  lemma OffRefines(sems: Sets, segs: Segments, now: int, key: nat)
    requires AllOrNone(sems, segs, now) && key < KEYS
    ensures var (sems', e) := OffObjects(sems, segs, key);
            && AllOrNone(sems', segs, now)
            && (T.World(Table(sems', segs), now), T.Code(e)) == T.Next(T.World(Table(sems, segs), now), T.Off(key))
  {
    InTable(sems, segs, now, key);
    if key in sems && sems[key].values[0] < WordAt(segs[key], 0) {
      UnitMoved(sems, segs, now, key, 1);
    }
  }

  function StatusReport(sems: Sets, segs: Segments, now: int, key: nat, given: T.Option<int>): T.Reply {
    if !HasSet(sems, key) then T.Report(-1, -1, -1, -1)
    else
      var size := SizeOf(sems, segs, key);
      var used := size - sems[key].values[0];
      match LifeOf(sems, segs, key, given)
      case None => T.Report(used, size, -1, 0)
      case Some(d) => if d - now > 0 then T.Report(used, size, T.ToInt(d - now), 0) else T.Report(-1, -1, -1, -1)
  }

  lemma StatusRefines(sems: Sets, segs: Segments, now: int, key: nat, given: T.Option<int>)
    requires AllOrNone(sems, segs, now) && key < KEYS
    ensures (T.World(Table(sems, segs), now), StatusReport(sems, segs, now, key, given)) ==
            T.Next(T.World(Table(sems, segs), now), T.Status(key))
  {
    InTable(sems, segs, now, key);
  }

  /** `delete`: the guard goes with the segment; the result counts the missing ones of set and segment. */
  function DeleteObjects(sems: Sets, segs: Segments, key: nat): (Sets, Segments, int) {
    (if key in segs then sems - {key} - {key + GUARD} else sems - {key},
     segs - {key},
     (if key in sems then 0 else 1) + (if key in segs then 0 else 1))
  }

  /** Whatever objects of a key exist, `delete` leaves none of them, unless there is a guard without
      its segment; it counts the missing ones of set and segment, and touches no other key. */
  lemma DeleteClears(sems: Sets, segs: Segments, key: nat)
    ensures var (sems', segs', e) := DeleteObjects(sems, segs, key);
            && (Absent(sems', segs', key) <==> key in segs || key + GUARD !in sems)
            && (e == 0 <==> key in sems && key in segs)
            && (e == 1 <==> (key in sems) != (key in segs))
            && (e == 2 <==> key !in sems && key !in segs)
            && (forall id :: id != key && id != key + GUARD ==>
                  (id in sems' <==> id in sems) && (id in sems ==> sems'[id] == sems[id]))
            && (forall id :: id != key ==> (id in segs' <==> id in segs) && (id in segs ==> segs'[id] == segs[id]))
  {
  }

  lemma DeleteRefines(sems: Sets, segs: Segments, now: int, key: nat)
    requires AllOrNone(sems, segs, now) && key < KEYS
    ensures var (sems', segs', e) := DeleteObjects(sems, segs, key);
            && AllOrNone(sems', segs', now) && Absent(sems', segs', key)
            && (T.World(Table(sems', segs'), now), T.Code(e)) ==
               T.Next(T.World(Table(sems, segs), now), T.Delete(key))
  {
    InTable(sems, segs, now, key);
    KeyRemoved(sems, segs, now, key);
    assert key !in segs ==> sems - {key} == sems - {key} - {key + GUARD};
    assert key !in Table(sems, segs) ==> Table(sems, segs) - {key} == Table(sems, segs);
  }

  /** `create`: a taken key is refused.  A size that the system refuses leaves a semaphore set without
      a segment; a segment or a guard that is already there leaves what was made before it. */
  function CreateObjects(sems: Sets, segs: Segments, now: int, key: nat, size: int, expire: int)
    : (Sets, Segments, int)
  {
    if key in sems then (sems, segs, -1)
    else if size > SEMVMX then (sems[key := NewSet(0, now)], segs, -1)
    else if key in segs then (sems[key := NewSet(size, now)], segs, -1)
    else if key + GUARD in sems then (sems[key := NewSet(size, now)], segs[key := Blank()], -1)
    else
      var (sems', segs') := WithKey(sems, segs, now, key, size, expire);
      (sems', segs', 0)
  }

  lemma CreateRefines(sems: Sets, segs: Segments, now: int, key: nat, size: int, expire: int)
    requires AllOrNone(sems, segs, now) && key < KEYS && 0 <= size
    ensures var (sems', segs', e) := CreateObjects(sems, segs, now, key, size, expire);
            && (AllOrNone(sems', segs', now) <==> key in sems || size <= 32767)
            && (AllOrNone(sems', segs', now) ==>
                  (T.World(Table(sems', segs'), now), T.Code(e)) ==
                  T.Next(T.World(Table(sems, segs), now), T.Create(key, size, expire)))
  {
    InTable(sems, segs, now, key);
    if key !in sems && size <= SEMVMX {
      KeyAdded(sems, segs, now, key, size, expire);
    } else if key !in sems {
      var (sems', segs', e) := CreateObjects(sems, segs, now, key, size, expire);
      assert !Complete(sems', segs', now, key) && !Absent(sems', segs', key);
    }
  }

  /** From any subset of a key's objects, `create` succeeds if and only if there is none and the system
      accepts the size; then it makes them all.  It changes nothing that exists. */
  lemma CreateSucceedsExactly(sems: Sets, segs: Segments, now: int, key: nat, size: int, expire: int)
    requires key < KEYS && 0 <= size
    ensures var (sems', segs', e) := CreateObjects(sems, segs, now, key, size, expire);
            && e == (if Absent(sems, segs, key) && size <= 32767 then 0 else -1)
            && (e == 0 ==> Complete(sems', segs', now, key))
            && (forall id :: id in sems ==> id in sems' && sems'[id] == sems[id])
            && (forall id :: id in segs ==> id in segs' && segs'[id] == segs[id])
            && (forall id :: id in sems' && id !in sems ==> id == key || id == key + GUARD)
            && (forall id :: id in segs' && id !in segs ==> id == key)
  {
    if 0 <= size <= SEMVMX {
      HeaderWords(size, expire);
    }
  }

  /** A set whose segment cannot be read counts as a lock of size 1 that never expires; but with the
      option `-x`, an `on` takes it for expired and removes the set. */
  lemma WithoutSegment(sems: Sets, segs: Segments, others: Others, now: int, key: nat, timeout: int,
                       r: Outcome, sems': Sets, segs': Segments, end: int)
    requires HasSet(sems, key) && !Readable(sems, segs, key)
    ensures StatusReport(sems, segs, now, key, T.None) == T.Report(1 - sems[key].values[0], 1, -1, 0)
    ensures OffObjects(sems, segs, key) ==
            if sems[key].values[0] < 1 then (Adjusted(sems, key, 0, 1), 0) else (sems, -1)
    ensures OnOutcome(sems, segs, others, now, key, T.None, timeout, r, sems', segs', end) <==>
            segs' == segs && LockOutcome(sems, others, now, key, 0, timeout, r, sems', end)
    ensures OnOutcome(sems, segs, others, now, key, T.Some(now), timeout, r, sems', segs', end) ==>
            r == Returned(-1) && key !in sems' && key !in segs'
  {
  }

  /** So after a `create` that was refused for its size, `status` tells one unit used of one, `off`
      succeeds once, and then none is used. */
  lemma RefusedCreateLeavesALock(sems: Sets, segs: Segments, now: int, key: nat, size: int, expire: int)
    requires AllOrNone(sems, segs, now) && key < KEYS && key !in sems && size > 32767
    ensures var (sems', segs', e) := CreateObjects(sems, segs, now, key, size, expire);
            && e == -1
            && StatusReport(sems', segs', now, key, T.None) == T.Report(1, 1, -1, 0)
            && var (sems'', e') := OffObjects(sems', segs', key);
               && e' == 0
               && StatusReport(sems'', segs', now, key, T.None) == T.Report(0, 1, -1, 0)
               && OffObjects(sems'', segs', key).1 == -1
  {
    InTable(sems, segs, now, key);
  }

  /** After a `create` that was refused for its size, `delete` gives exactly the objects of before. */
  lemma DeleteUndoesRefusedCreate(sems: Sets, segs: Segments, now: int, key: nat, size: int, expire: int)
    requires AllOrNone(sems, segs, now) && key < KEYS && key !in sems && size > 32767
    ensures var (sems', segs', e) := CreateObjects(sems, segs, now, key, size, expire);
            e == -1 && DeleteObjects(sems', segs', key) == (sems, segs, 1)
  {
    InTable(sems, segs, now, key);
    assert sems[key := NewSet(0, now)] - {key} == sems;
    assert segs - {key} == segs;
  }

  /** `on`: an expired lock is removed; otherwise a unit is tried for, as long as is allowed. */
  ghost predicate OnOutcome(sems: Sets, segs: Segments, others: Others, now: int, key: nat, given: T.Option<int>,
                            timeout: int, r: Outcome, sems': Sets, segs': Segments, end: int)
  {
    if !HasSet(sems, key) then
      r == Returned(-1) && sems' == sems && segs' == segs && end == now
    else
      var d := LifeOf(sems, segs, key, given);
      if d.Some? && d.value - now <= 0
      then r == Returned(-1) && (sems', segs') == ObjectsLeft(sems, segs, key) && end == now
      else segs' == segs && LockOutcome(sems, others, now, key, 0, T.Limit(d, now, timeout), r, sems', end)
  }

  function ObjectsLeft(sems: Sets, segs: Segments, key: nat): (Sets, Segments) {
    (DeleteObjects(sems, segs, key).0, DeleteObjects(sems, segs, key).1)
  }

  function ReplyOf(r: Outcome): T.Reply {
    if r.Asleep? then T.Never else T.Code(r.e)
  }

  /** Polling when nobody else acts: a unit is free at once or never. */
  lemma PolledAlone(sems: Sets, time: int, id: nat, seconds: nat, e: int, after: Sets, end: int)
    requires id in sems && 0 < |sems[id].values| && seconds > 0
    requires Polled(sems, NOBODY, time, id, 0, seconds, e, after, end)
    ensures if sems[id].values[0] > 0
            then e == 0 && after == Adjusted(sems, id, 0, -1) && end == time
            else e == 1 && after == sems && end == time + seconds
  {
    var value := sems[id].values[0];
    var j := FirstFree(value, NOBODY, id, 0, time, seconds);
    NothingDrifts(sems, time, j);
    ValueLater(sems, NOBODY, time, j, id, 0);
    assert j > 0 ==> Drifted(value, NOBODY, id, 0, time, 0) <= 0;
  }

  lemma LockAlone(sems: Sets, segs: Segments, now: int, key: nat, timeout: int, r: Outcome, sems': Sets, end: int)
    requires AllOrNone(sems, segs, now) && key < KEYS && key in sems && 0 < |sems[key].values|
    requires LockOutcome(sems, NOBODY, now, key, 0, timeout, r, sems', end)
    ensures AllOrNone(sems', segs, end)
    ensures key in Table(sems, segs)
    ensures (T.World(Table(sems', segs), end), ReplyOf(r)) ==
            T.Attempt(T.World(Table(sems, segs), now), key, timeout)
  {
    InTable(sems, segs, now, key);
    if sems[key].values[0] > 0 {
      UnitMoved(sems, segs, now, key, -1);
    }
    if timeout > 0 {
      PolledAlone(sems, now, key, timeout, r.e, sems', end);
    }
    TimePasses(sems', segs, now, end);
  }

  lemma OnRefines(sems: Sets, segs: Segments, now: int, key: nat, given: T.Option<int>, timeout: int,
                  r: Outcome, sems': Sets, segs': Segments, end: int)
    requires AllOrNone(sems, segs, now) && key < KEYS
    requires OnOutcome(sems, segs, NOBODY, now, key, given, timeout, r, sems', segs', end)
    ensures AllOrNone(sems', segs', end)
    ensures (T.World(Table(sems', segs'), end), ReplyOf(r)) ==
            T.Next(T.World(Table(sems, segs), now), T.On(key, timeout))
  {
    InTable(sems, segs, now, key);
    if key in sems {
      var d := Deadline(sems[key], segs[key]);
      if d.Some? && d.value - now <= 0 {
        DeleteRefines(sems, segs, now, key);
      } else {
        LockAlone(sems, segs, now, key, T.Limit(d, now, timeout), r, sems', end);
      }
    }
  }

  /** Whatever other processes do to the semaphores meanwhile: `on` for a lock whose deadline has
      not passed never waits without bound, returns by the deadline, and what it takes it takes
      strictly before the deadline, at the first second at which a unit was free.  When it gives up,
      it has spent its whole limit and no unit was free at any second of it. */
  lemma OnWithinDeadline(sems: Sets, segs: Segments, others: Others, now: int, key: nat, given: T.Option<int>,
                         timeout: int, r: Outcome, sems': Sets, segs': Segments, end: int)
    requires Complete(sems, segs, now, key) && -UINT_RANGE / 2 <= timeout < UINT_RANGE / 2
    requires Deadline(sems[key], segs[key]).Some? && Deadline(sems[key], segs[key]).value > now
    requires OnOutcome(sems, segs, others, now, key, given, timeout, r, sems', segs', end)
    ensures var deadline := Deadline(sems[key], segs[key]).value;
            && (r == Returned(0) || r == Returned(1))
            && now <= end <= deadline
            && (r.e == 0 ==>
                  && end < deadline
                  && Drifted(sems[key].values[0], others, key, 0, now, end - now) > 0
                  && NoneFree(sems[key].values[0], others, key, 0, now, end - now)
                  && sems' == Adjusted(Later(sems, others, now, end - now), key, 0, -1))
            && (r.e == 1 ==> sems' == Later(sems, others, now, end - now))
            && (r.e == 1 ==>
                  var left := deadline - now;
                  var limit := T.ToInt(if timeout == 0 || left < timeout then left else timeout);
                  && end == (if limit > 0 then now + limit else now)
                  && (limit >= -1 ==>
                        NoneFree(sems[key].values[0], others, key, 0, now, if limit > 0 then limit else 1)))
  {
    var delta := Deadline(sems[key], segs[key]).value - now;
    T.BudgetWithinDelta(timeout, delta);
    OnTries(sems, segs, others, now, key, given, timeout, delta, r, sems', segs', end);
    LimitedLock(sems, others, now, key, T.Budget(timeout, delta), r, sems', end);
  }

  lemma OnTries(sems: Sets, segs: Segments, others: Others, now: int, key: nat, given: T.Option<int>,
                timeout: int, delta: int, r: Outcome, sems': Sets, segs': Segments, end: int)
    requires Complete(sems, segs, now, key) && delta > 0
    requires Deadline(sems[key], segs[key]) == T.Some(now + delta)
    requires OnOutcome(sems, segs, others, now, key, given, timeout, r, sems', segs', end)
    ensures LockOutcome(sems, others, now, key, 0, T.Budget(timeout, delta), r, sems', end)
  {
  }

  /** An attempt that may not wait without bound: the first second at which a unit is free, or none. */
  lemma LimitedLock(sems: Sets, others: Others, now: int, key: nat, limit: int, r: Outcome, sems': Sets, end: int)
    requires key in sems && |sems[key].values| == 1 && limit != 0
    requires LockOutcome(sems, others, now, key, 0, limit, r, sems', end)
    ensures r == Returned(0) || r == Returned(1)
    ensures r.e == 0 ==>
              && now <= end && (end < now + limit || end == now)
              && sems' == Adjusted(Later(sems, others, now, end - now), key, 0, -1)
              && Drifted(sems[key].values[0], others, key, 0, now, end - now) > 0
              && NoneFree(sems[key].values[0], others, key, 0, now, end - now)
    ensures r.e == 1 ==>
              && end == (if limit > 0 then now + limit else now)
              && sems' == Later(sems, others, now, end - now)
              && (limit >= -1 ==>
                    NoneFree(sems[key].values[0], others, key, 0, now, if limit > 0 then limit else 1))
  {
    if limit > 0 {
      PolledTells(sems, others, now, key, 0, limit, r.e, sems', end);
    }
  }

  /** The kernel slots of a key: its own, and the one of its guard. */
  function Slots(key: nat): set<nat> {
    {Ftok(key), Ftok(key + GUARD)}
  }

  lemma Residue(h: nat, r: nat)
    requires r < 256
    ensures (256 * h + r) % 256 == r
  {
  }

  lemma SlotsAre(key: nat)
    ensures Slots(key) == {key % KEYS, key % KEYS + GUARD}
  {
    var q, r := key / 128, key % 128;
    var h, odd := q / 2, q % 2;
    assert key == 256 * h + 128 * odd + r;
    Residue(h, 128 * odd + r);
    Residue(if odd == 0 then h else h + 1, (if odd == 0 then 128 else 0) + r);
  }

  /** Two keys keep out of each other's way exactly when they differ modulo 128: the documented
      range of keys is the largest in which all do. */
  lemma SlotsDisjoint(a: nat, b: nat)
    ensures Slots(a) !! Slots(b) <==> a % 128 != b % 128
  {
    SlotsAre(a);
    SlotsAre(b);
    if a % KEYS == b % KEYS {
      assert a % KEYS in Slots(a) && a % KEYS in Slots(b);
    }
  }
}
