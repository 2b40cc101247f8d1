/** What the `lock` tool is for, without kernel objects: a table from key to size, units used and
    deadline, and one step of it for every command. */
module LockTable {

  const UINT_RANGE := 0x1_0000_0000
  const SIZE_LIMIT := 32767
  const KEYS := 128

  datatype Option<T> = None | Some(value: T)

  datatype Entry = Entry(size: int, used: int, deadline: Option<int>)

  datatype World = World(table: map<nat, Entry>, now: int)

  datatype Command =
    | Create(key: nat, size: nat, expire: int)
    | On(key: nat, timeout: int)
    | Off(key: nat)
    | Status(key: nat)
    | Delete(key: nat)
    | Wait(seconds: nat)

  /** `Never` is a command that waits for a unit that nobody can give back. */
  datatype Reply =
    | Code(e: int)
    | Report(used: int, size: int, remaining: int, e: int)
    | Never

  function ToUInt(n: int): int {
    n % UINT_RANGE
  }

  function ToInt(n: int): int {
    (n + UINT_RANGE / 2) % UINT_RANGE - UINT_RANGE / 2
  }

  /** How long an `on` command may try, when `delta` seconds remain. */
  function Budget(timeout: int, delta: int): int {
    ToInt(if timeout == 0 || delta < timeout then delta else timeout)
  }

  /** The timeout of an attempt on a lock with the given deadline. */
  function Limit(deadline: Option<int>, now: int, timeout: int): int {
    match deadline
    case None => timeout
    case Some(d) => Budget(timeout, d - now)
  }

  function Take(w: World, key: nat): World
    requires key in w.table
  {
    w.(table := w.table[key := w.table[key].(used := w.table[key].used + 1)])
  }

  /** An attempt with the given timeout, when nobody else acts: a unit is free now or will not be. */
  function Attempt(w: World, key: nat, timeout: int): (World, Reply)
    requires key in w.table
  {
    var free := w.table[key].used < w.table[key].size;
    if timeout < -1 then (w, Code(1))
    else if free then (Take(w, key), Code(0))
    else if timeout == 0 then (w, Never)
    else if timeout == -1 then (w, Code(1))
    else (w.(now := w.now + timeout), Code(1))
  }

  function Remaining(w: World, key: nat): int
    requires key in w.table && w.table[key].deadline.Some?
  {
    w.table[key].deadline.value - w.now
  }

  predicate Expired(w: World, key: nat) {
    key in w.table && w.table[key].deadline.Some? && Remaining(w, key) <= 0
  }

  function Next(w: World, c: Command): (World, Reply) {
    match c
    case Create(key, size, expire) =>
      if key in w.table then (w, Code(-1))
      else
        var deadline := if expire == 0 then None else Some(w.now + ToUInt(expire));
        (w.(table := w.table[key := Entry(size, 0, deadline)]), Code(0))
    case On(key, timeout) =>
      if key !in w.table then (w, Code(-1))
      else if Expired(w, key) then (w.(table := w.table - {key}), Code(-1))
      else Attempt(w, key, Limit(w.table[key].deadline, w.now, timeout))
    case Off(key) =>
      if key in w.table && w.table[key].used > 0
      then (w.(table := w.table[key := w.table[key].(used := w.table[key].used - 1)]), Code(0))
      else (w, Code(-1))
    case Status(key) =>
      if key !in w.table || Expired(w, key) then (w, Report(-1, -1, -1, -1))
      else
        var entry := w.table[key];
        (w, Report(entry.used, entry.size, if entry.deadline.Some? then ToInt(Remaining(w, key)) else -1, 0))
    case Delete(key) =>
      if key in w.table then (w.(table := w.table - {key}), Code(0)) else (w, Code(2))
    case Wait(seconds) => (w.(now := w.now + seconds), Code(0))
  }

  /** A serial run: the commands one after the other, up to one that never returns. */
  function Run(w: World, cmds: seq<Command>): (World, seq<Reply>)
    decreases |cmds|
  {
    if cmds == [] then (w, [])
    else
      var (w1, r) := Next(w, cmds[0]);
      if r.Never? then (w1, [r])
      else
        var (w2, rs) := Run(w1, cmds[1..]);
        (w2, [r] + rs)
  }

  /** The outcome of a run that has already given some replies. */
  function After(replies: seq<Reply>, rest: (World, seq<Reply>)): (World, seq<Reply>) {
    (rest.0, replies + rest.1)
  }

  lemma RunOneMore(w: World, cmds: seq<Command>, replies: seq<Reply>)
    requires cmds != []
    ensures var (w1, r) := Next(w, cmds[0]);
            After(replies, Run(w, cmds)) ==
            if r.Never? then (w1, replies + [r]) else After(replies + [r], Run(w1, cmds[1..]))
  {
    var (w1, r) := Next(w, cmds[0]);
    assert replies + ([r] + Run(w1, cmds[1..]).1) == replies + [r] + Run(w1, cmds[1..]).1;
  }

  // ---------------------------------------------------------------- properties of the table

  predicate Sane(w: World) {
    forall key :: key in w.table ==> 0 <= w.table[key].used <= w.table[key].size
  }

  predicate Concerns(c: Command, key: nat) {
    !c.Wait? && c.key == key
  }

  lemma SaneStep(w: World, c: Command)
    requires Sane(w)
    ensures Sane(Next(w, c).0)
  {
  }

  /** Over any run that starts sane, the units used of every lock stay between 0 and its size. */
  lemma {:induction false} SaneRun(w: World, cmds: seq<Command>)
    requires Sane(w)
    ensures Sane(Run(w, cmds).0)
    decreases |cmds|
  {
    if cmds != [] {
      SaneStep(w, cmds[0]);
      SaneRun(Next(w, cmds[0]).0, cmds[1..]);
    }
  }

  /** A run of commands on other keys leaves a key's entry alone. */
  lemma {:induction false} Isolation(w: World, cmds: seq<Command>, key: nat)
    requires forall i :: 0 <= i < |cmds| ==> !Concerns(cmds[i], key)
    ensures key in Run(w, cmds).0.table <==> key in w.table
    ensures key in w.table ==> Run(w, cmds).0.table[key] == w.table[key]
    decreases |cmds|
  {
    if cmds != [] {
      assert !Concerns(cmds[0], key);
      Isolation(Next(w, cmds[0]).0, cmds[1..], key);
    }
  }

  /** Successful `on` commands on a key less successful `off` commands. */
  function NetTaken(w: World, cmds: seq<Command>, key: nat): int
    decreases |cmds|
  {
    if cmds == [] then 0
    else
      var (w1, r) := Next(w, cmds[0]);
      (if r == Code(0) && Concerns(cmds[0], key)
       then (if cmds[0].On? then 1 else if cmds[0].Off? then -1 else 0) else 0) +
      if r.Never? then 0 else NetTaken(w1, cmds[1..], key)
  }

  /** Never deleted, by command or by expiry, along the run. */
  predicate Kept(w: World, cmds: seq<Command>, key: nat)
    decreases |cmds|
  {
    key in w.table &&
    (cmds != [] ==> Kept(Next(w, cmds[0]).0, if Next(w, cmds[0]).1.Never? then [] else cmds[1..], key))
  }

  /** The units used are exactly those taken and not given back, and there are never more of them
      than the size. */
  lemma {:induction false} UnitsConserved(w: World, cmds: seq<Command>, key: nat)
    requires Sane(w) && Kept(w, cmds, key)
    ensures var t := Run(w, cmds).0.table;
            && key in t && t[key].size == w.table[key].size && t[key].deadline == w.table[key].deadline
            && t[key].used == w.table[key].used + NetTaken(w, cmds, key)
            && 0 <= w.table[key].used + NetTaken(w, cmds, key) <= w.table[key].size
    decreases |cmds|
  {
    if cmds != [] {
      SaneStep(w, cmds[0]);
      if Next(w, cmds[0]).1.Never? {
        assert Kept(Next(w, cmds[0]).0, [], key);
      } else {
        UnitsConserved(Next(w, cmds[0]).0, cmds[1..], key);
      }
    }
  }

  /** After a delete, and after an `on` that finds the lock expired, the key is free and a create
      succeeds, whatever runs on other keys in between. */
  lemma CreateAfterRemoval(w: World, key: nat, timeout: int, cmds: seq<Command>, size: nat, expire: int)
    requires forall i :: 0 <= i < |cmds| ==> !Concerns(cmds[i], key)
    ensures var w1 := Run(Next(w, Delete(key)).0, cmds).0;
            Next(w1, Create(key, size, expire)).1 == Code(0)
    ensures Expired(w, key) ==>
              var w1 := Run(Next(w, On(key, timeout)).0, cmds).0;
              Next(w, On(key, timeout)).1 == Code(-1) && Next(w1, Create(key, size, expire)).1 == Code(0)
  {
    Isolation(Next(w, Delete(key)).0, cmds, key);
    if Expired(w, key) {
      Isolation(Next(w, On(key, timeout)).0, cmds, key);
    }
  }

  /** An expiring lock that has not expired never makes `on` wait without bound, and never beyond
      its deadline; whatever it takes it takes before the deadline. */
  lemma BudgetWithinDelta(timeout: int, delta: int)
    requires 0 < delta < UINT_RANGE && -UINT_RANGE / 2 <= timeout < UINT_RANGE / 2
    ensures Budget(timeout, delta) != 0
    ensures Budget(timeout, delta) <= delta
    ensures delta < UINT_RANGE / 2 ==>
              Budget(timeout, delta) == if timeout == 0 || delta < timeout then delta else timeout
  {
    var t := if timeout == 0 || delta < timeout then delta else timeout;
    if t < UINT_RANGE / 2 {
      assert ToInt(t) == t;
    } else {
      assert ToInt(t) == t - UINT_RANGE;
    }
  }

  lemma ExpiringOnReturnsInTime(w: World, key: nat, timeout: int)
    requires key in w.table && w.table[key].deadline.Some? && -UINT_RANGE / 2 <= timeout < UINT_RANGE / 2
    requires 0 < Remaining(w, key) < UINT_RANGE
    ensures var (w1, r) := Next(w, On(key, timeout));
            && (r == Code(0) || r == Code(1))
            && w1.now <= w.table[key].deadline.value
            && (r == Code(0) ==> w1.now < w.table[key].deadline.value)
  {
    BudgetWithinDelta(timeout, Remaining(w, key));
  }

  // ---------------------------------------------------------------- the replies, told by the history alone

  /** A lock is created with n units and a lifetime of x seconds, 0 for ever; some commands follow that
      never delete it.  m units are then used: those taken by successful `on` commands, less those given
      back by successful `off` commands; and `elapsed` seconds have gone by, in waits and in `on` commands
      that gave up. */
  ghost predicate Story(w0: World, key: nat, n: nat, x: nat, cmds: seq<Command>, m: int, elapsed: int, w: World) {
    var w1 := Next(w0, Create(key, n, x)).0;
    && Sane(w0) && key !in w0.table && x < 0x8000_0000
    && Kept(w1, cmds, key)
    && m == NetTaken(w1, cmds, key)
    && w == Run(w1, cmds).0 && elapsed == TotalSeconds(w1, cmds)
  }

  lemma StoryEntry(w0: World, key: nat, n: nat, x: nat, cmds: seq<Command>, m: int, elapsed: int, w: World)
    requires Story(w0, key, n, x, cmds, m, elapsed, w)
    ensures Next(w0, Create(key, n, x)).1 == Code(0)
    ensures 0 <= m <= n && key in w.table
    ensures w.table[key] == Entry(n, m, if x == 0 then None else Some(w.now - elapsed + x)) && elapsed >= 0
  {
    ClockMoves(Next(w0, Create(key, n, x)).0, cmds);
    SaneStep(w0, Create(key, n, x));
    UnitsConserved(Next(w0, Create(key, n, x)).0, cmds, key);
  }

  /** `status` tells the units used, the size, and the remaining time if the lock expires at all. */
  lemma StatusTells(w0: World, key: nat, n: nat, x: nat, cmds: seq<Command>, m: int, elapsed: int, w: World)
    requires Story(w0, key, n, x, cmds, m, elapsed, w)
    ensures 0 <= m <= n
    ensures Next(w, Status(key)) ==
            (w, if x == 0 then Report(m, n, -1, 0)
                else if elapsed < x then Report(m, n, x - elapsed, 0)
                else Report(-1, -1, -1, -1))
  {
    StoryEntry(w0, key, n, x, cmds, m, elapsed, w);
  }

  /** `off` succeeds exactly when a unit is used, expired or not; the other commands on an existing lock
      that do not wait: a second `create` fails, `delete` succeeds. */
  lemma OffTells(w0: World, key: nat, n: nat, x: nat, cmds: seq<Command>, m: int, elapsed: int, w: World,
                 size: nat, expire: int)
    requires Story(w0, key, n, x, cmds, m, elapsed, w)
    ensures Next(w, Off(key)).1 == Code(if m > 0 then 0 else -1)
    ensures Next(w, Create(key, size, expire)) == (w, Code(-1))
    ensures Next(w, Delete(key)).1 == Code(0) && key !in Next(w, Delete(key)).0.table
  {
    StoryEntry(w0, key, n, x, cmds, m, elapsed, w);
  }

  /** `on` fails for an expired lock and removes it.  With a timeout below -1 it does not try.  Otherwise
      it succeeds at once exactly when a unit is left.  When none is left, it gives up at once if told not
      to wait; after the timeout, cut to the remaining time; or, for a lock without end and without a
      timeout, never. */
  lemma OnTells(w0: World, key: nat, n: nat, x: nat, cmds: seq<Command>, m: int, elapsed: int, w: World, timeout: int)
    requires Story(w0, key, n, x, cmds, m, elapsed, w) && -0x8000_0000 <= timeout < 0x8000_0000
    ensures var (w', reply) := Next(w, On(key, timeout));
            var limit := if x == 0 || (timeout != 0 && timeout < x - elapsed) then timeout else x - elapsed;
            if x != 0 && elapsed >= x then reply == Code(-1) && key !in w'.table && w'.now == w.now
            else if limit < -1 then reply == Code(1) && w' == w
            else if m < n then reply == Code(0) && w'.now == w.now
            else if limit == 0 then reply == Never
            else reply == Code(1) && w'.table == w.table && w'.now == w.now + if limit == -1 then 0 else limit
  {
    StoryEntry(w0, key, n, x, cmds, m, elapsed, w);
  }

  /** Without a lock, everything but `create` fails and changes nothing. */
  lemma MissingTells(w: World, key: nat, timeout: int)
    requires key !in w.table
    ensures Next(w, On(key, timeout)) == (w, Code(-1)) && Next(w, Off(key)) == (w, Code(-1))
    ensures Next(w, Status(key)) == (w, Report(-1, -1, -1, -1)) && Next(w, Delete(key)) == (w, Code(2))
  {
  }

  /** The seconds that a command takes: those of a wait, and those of an `on` that gives up. */
  function Seconds(w: World, c: Command): nat {
    match c
    case Wait(seconds) => seconds
    case On(key, timeout) =>
      if key in w.table && Next(w, c).1 == Code(1) && Limit(w.table[key].deadline, w.now, timeout) > 0
      then Limit(w.table[key].deadline, w.now, timeout) else 0
    case _ => 0
  }

  function TotalSeconds(w: World, cmds: seq<Command>): nat
    decreases |cmds|
  {
    if cmds == [] then 0
    else Seconds(w, cmds[0]) + if Next(w, cmds[0]).1.Never? then 0 else TotalSeconds(Next(w, cmds[0]).0, cmds[1..])
  }

  /** Nothing else moves the clock. */
  lemma {:induction false} ClockMoves(w: World, cmds: seq<Command>)
    ensures Run(w, cmds).0.now == w.now + TotalSeconds(w, cmds)
    decreases |cmds|
  {
    if cmds != [] && !Next(w, cmds[0]).1.Never? {
      ClockMoves(Next(w, cmds[0]).0, cmds[1..]);
    }
  }
}
