/** One XSI semaphore as the kernel keeps it: its value, and for every process the
    undo adjustment (semadj) that is added back when the process exits. */
module SemaphoreKernel {
  import opened Totals

  const SEMVMX := 32767

  datatype Sem = Sem(value: int, adj: seq<int>)

  datatype Outcome = Done(sem: Sem) | Again | Range

  /** semop() with a single operation: a decrement that would make the value negative
      has to wait, and a value or adjustment beyond the system limit is ERANGE. */
  function SemOp(s: Sem, p: nat, op: int, undo: bool): Outcome
    requires p < |s.adj|
  {
    if s.value + op < 0 then Again
    else if s.value + op > SEMVMX then Range
    else if undo && !(-SEMVMX <= s.adj[p] - op <= SEMVMX) then Range
    else Done(Sem(s.value + op, if undo then s.adj[p := s.adj[p] - op] else s.adj))
  }

  /** Process exit: the adjustment is added back, and the value is kept between 0 and the limit. */
  function Exit(s: Sem, p: nat): Sem
    requires p < |s.adj|
  {
    var sum := s.value + s.adj[p];
    Sem(if sum < 0 then 0 else if sum > SEMVMX then SEMVMX else sum, s.adj[p := 0])
  }

  /** What exit has to invent so that the value does not become negative. */
  function Shortfall(s: Sem, p: nat): nat
    requires p < |s.adj|
  {
    if s.value + s.adj[p] < 0 then -(s.value + s.adj[p]) else 0
  }

  /** What exit has to drop so that the value does not pass the limit. */
  function Excess(s: Sem, p: nat): nat
    requires p < |s.adj|
  {
    if s.value + s.adj[p] > SEMVMX then s.value + s.adj[p] - SEMVMX else 0
  }

  function NewProcess(s: Sem): Sem {
    Sem(s.value, s.adj + [0])
  }

  /** The value together with everything that exits would still add to it. */
  function Balance(s: Sem): int {
    s.value + Sum(s.adj)
  }

  lemma SemOpBalance(s: Sem, p: nat, op: int, undo: bool)
    requires p < |s.adj| && SemOp(s, p, op, undo).Done?
    ensures Balance(SemOp(s, p, op, undo).sem) == Balance(s) + if undo then 0 else op
  {
    SumUpdate(s.adj, p, s.adj[p] - op);
  }

  lemma ExitBalance(s: Sem, p: nat)
    requires p < |s.adj|
    ensures Balance(Exit(s, p)) == Balance(s) + Shortfall(s, p) - Excess(s, p)
  {
    SumUpdate(s.adj, p, 0);
  }

  lemma NewProcessBalance(s: Sem)
    ensures Balance(NewProcess(s)) == Balance(s)
  {
    SumAppend(s.adj, 0);
  }
}
