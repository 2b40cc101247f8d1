/** Serial runs of the `lock` tool: one command after the other, each a new process. */
module LockRuns {
  import opened IpcKernel
  import opened Semaphores
  import opened LockObjects
  import opened LockTool
  import T = LockTable

  ghost function WorldOf(k: Kernel): T.World
    reads k
  {
    T.World(Table(k.sems, k.segs), k.now)
  }

  ghost predicate Good(k: Kernel)
    reads k
  {
    AllOrNone(k.sems, k.segs, k.now)
  }

  /** Keys in the documented range, options that fit their C types, sizes that the system accepts. */
  predicate Documented(c: T.Command) {
    match c
    case Create(key, size, expire) => key < KEYS && 0 <= size <= SEMVMX && IsInt(expire)
    case On(key, timeout) => key < KEYS && IsInt(timeout)
    case Off(key) => key < KEYS
    case Status(key) => key < KEYS
    case Delete(key) => key < KEYS
    case Wait(_) => true
  }

  predicate IsInt(n: int) {
    -T.UINT_RANGE / 2 <= n < T.UINT_RANGE / 2
  }

  /** One command, while nobody else acts: the kernel objects and the reply are those of the table,
      and every key has again all of its objects or none. */
  method Command(k: Kernel, c: T.Command) returns (reply: T.Reply)
    requires Good(k) && k.others == NOBODY && Documented(c)
    modifies k`sems, k`segs, k`now
    ensures Good(k) && (WorldOf(k), reply) == T.Next(old(WorldOf(k)), c)
  {
    ghost var sems, segs, now := k.sems, k.segs, k.now;
    var tool := new Tool(k);
    ghost var given := tool.Given();
    if !c.Wait? {
      InTable(sems, segs, now, c.key);
    }
    match c
    case Create(key, size, expire) =>
      var e := tool.Create(key, size, expire);
      CreateRefines(sems, segs, now, key, size, expire);
      reply := T.Code(e);
    case On(key, timeout) =>
      var r := tool.Lock(key, timeout);
      OnRefines(sems, segs, now, key, given, timeout, r, k.sems, k.segs, k.now);
      reply := ReplyOf(r);
    case Off(key) =>
      var e := tool.Unlock(key);
      OffRefines(sems, segs, now, key);
      reply := T.Code(e);
    case Status(key) =>
      var u, s, d, e := tool.Status(key);
      StatusRefines(sems, segs, now, key, given);
      reply := T.Report(u, s, d, e);
    case Delete(key) =>
      var e := tool.Delete(key);
      DeleteRefines(sems, segs, now, key);
      reply := T.Code(e);
    case Wait(seconds) =>
      TimePasses(sems, segs, now, now + seconds);
      k.now := k.now + seconds;
      reply := T.Code(0);
  }

  /** Any finite serial run: the final objects stand for the table's final state, and the replies
      are the table's replies. */
  method Run(k: Kernel, cmds: seq<T.Command>) returns (replies: seq<T.Reply>)
    requires Good(k) && k.others == NOBODY && forall i :: 0 <= i < |cmds| ==> Documented(cmds[i])
    modifies k`sems, k`segs, k`now
    ensures Good(k) && (WorldOf(k), replies) == T.Run(old(WorldOf(k)), cmds)
  {
    replies := [];
    var i := 0;
    ghost var w0 := WorldOf(k);
    assert cmds[0..] == cmds && [] + T.Run(w0, cmds).1 == T.Run(w0, cmds).1;
    while i < |cmds|
      invariant 0 <= i <= |cmds| && Good(k)
      invariant T.Run(w0, cmds) == T.After(replies, T.Run(WorldOf(k), cmds[i..]))
    {
      ghost var w := WorldOf(k);
      var reply := Command(k, cmds[i]);
      T.RunOneMore(w, cmds[i..], replies);
      assert cmds[i..][1..] == cmds[i + 1..];
      replies := replies + [reply];
      if reply.Never? {
        return;
      }
      i := i + 1;
    }
    assert replies + [] == replies;
  }

  /** A fresh kernel holds an empty table. */
  method Boot(now: int) returns (k: Kernel)
    ensures fresh(k) && k.others == NOBODY && Good(k) && WorldOf(k) == T.World(map[], now)
  {
    k := new Kernel(now, NOBODY);
  }
}
