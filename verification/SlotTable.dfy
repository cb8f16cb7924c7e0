/** The table of operation slots shared between the server processes and the monitoring GUI. */
module SlotTable {

  const MAX_NBOP := 5
  const TWO_32 := 0x1_0000_0000

  datatype Flag = ENABLE | END | UPLOAD | DOWNLOAD | TIMEOUT

  datatype Operation = Operation(oflags: set<Flag>, block: nat, totalBlock: nat)

  /** What the GUI remembers about a slot: the block count it last saw change, when, and when to drop the slot (0 =
      no).
   */
  datatype Watch = Watch(seenBlock: nat, seenAt: int, endAt: int)

  /** `nb_operation` is an unsigned byte. */
  datatype Shared = Shared(nb: nat, ops: seq<Operation>)

  // ----- Server side

  /** The search loop of `woo_alloc_operation`: the first slot that is not enabled, from `x` on. */
  function FirstFree(ops: seq<Operation>, x: nat): (f: nat)
    requires x <= |ops|
    ensures x <= f <= |ops|
    ensures f < |ops| ==> ENABLE !in ops[f].oflags
    ensures forall y :: x <= y < f ==> ENABLE in ops[y].oflags
    decreases |ops| - x
  {
    if x == |ops| || ENABLE !in ops[x].oflags then x else FirstFree(ops, x + 1)
  }

  datatype Allocation = TooMany | Granted(opid: nat) | NoFreeId

  function Allocate(sh: Shared): (Shared, Allocation) {
    if sh.nb >= MAX_NBOP then (sh, TooMany)
    else
      var x := FirstFree(sh.ops, 0);
      if x == |sh.ops| then (sh, NoFreeId)
      else (Shared((sh.nb + 1) % 256, sh.ops[x := sh.ops[x].(oflags := {ENABLE}, block := 0)]), Granted(x))
  }

  function SetFlag(op: Operation, f: Flag): Operation {
    op.(oflags := op.oflags + {f})
  }

  function Increment(op: Operation, value: nat): Operation {
    op.(block := (op.block + value) % TWO_32)
  }

  /** `woo_end_operation` */
  function EndOperation(op: Operation): Operation {
    var op' := SetFlag(op, END);
    if UPLOAD in op'.oflags then op'.(block := 1, totalBlock := 1) else op'
  }

  // ----- GUI side: the three parts of the loop body of `monitor_operations`

  function CheckTimeout(op: Operation, w: Watch, now: int): (Operation, Watch) {
    if ENABLE in op.oflags && END !in op.oflags && TIMEOUT !in op.oflags then
      if w.seenBlock == op.block then
        if now >= w.seenAt then
          (if now - w.seenAt > 3 then SetFlag(SetFlag(op, END), TIMEOUT) else op, w)
        else (op, w.(seenAt := now))
      else (op, w.(seenBlock := op.block, seenAt := now))
    else (op, w)
  }

  function CheckEnd(op: Operation, w: Watch, now: int, endTime: int): Watch {
    if END in op.oflags && w.endAt == 0 then w.(endAt := now + endTime) else w
  }

  predicate Expired(w: Watch, now: int) {
    w.endAt != 0 && now > w.endAt
  }

  /** The counter goes down by one, as an unsigned byte. */
  function Decrement(nb: nat): nat {
    (nb + 255) % 256
  }

  /** The release of slot `x` under the semaphore. */
  function Release(sh: Shared, x: nat): Shared
    requires x < |sh.ops|
  {
    Shared(Decrement(sh.nb), sh.ops[x := sh.ops[x].(oflags := {})])
  }

  // ----- Counting

  function CountEnabled(ops: seq<Operation>): nat {
    if ops == [] then 0
    else CountEnabled(ops[..|ops| - 1]) + if ENABLE in ops[|ops| - 1].oflags then 1 else 0
  }

  lemma {:induction false} CountUpdate(ops: seq<Operation>, x: nat, op: Operation)
    requires x < |ops|
    ensures CountEnabled(ops[x := op])
         == CountEnabled(ops) - (if ENABLE in ops[x].oflags then 1 else 0) + if ENABLE in op.oflags then 1 else 0
  {
    var n := |ops| - 1;
    if x == n {
      assert ops[x := op][..n] == ops[..n];
    } else {
      CountUpdate(ops[..n], x, op);
      assert ops[x := op][..n] == ops[..n][x := op];
    }
  }

  /** The count is positive when some slot is enabled, and reaches the number of slots only when all are. */
  lemma {:induction false} CountBounds(ops: seq<Operation>, x: nat)
    requires x < |ops|
    ensures CountEnabled(ops) <= |ops|
    ensures ENABLE in ops[x].oflags ==> CountEnabled(ops) > 0
    ensures ENABLE !in ops[x].oflags ==> CountEnabled(ops) < |ops|
  {
    var n := |ops| - 1;
    if n > 0 {
      CountBounds(ops[..n], if x < n then x else 0);
    }
  }

  lemma {:induction false} AllEnabled(ops: seq<Operation>)
    requires forall y :: 0 <= y < |ops| ==> ENABLE in ops[y].oflags
    ensures CountEnabled(ops) == |ops|
  {
    if ops == [] {
    } else {
      AllEnabled(ops[..|ops| - 1]);
    }
  }
}
