/** The allocator and the monitor as the loops they are, over the arrays they change in place. */
module SlotPrograms {
  import opened SlotTable
  import opened SlotRuns

  // ----- One undisturbed pass of the monitor, as a function

  function SlotBody(sh: Shared, ws: seq<Watch>, x: nat, now: int, endTime: int): (r: (Shared, seq<Watch>))
    requires x < |sh.ops| == |ws|
    ensures |r.0.ops| == |sh.ops| && |r.1| == |ws|
  {
    var (op, w) := CheckTimeout(sh.ops[x], ws[x], now);
    var w' := CheckEnd(op, w, now, endTime);
    var sh' := sh.(ops := sh.ops[x := op]);
    if Expired(w', now) then (Release(sh', x), ws[x := w'.(endAt := 0)]) else (sh', ws[x := w'])
  }

  /** The loop bodies of slots 0 to k - 1, in order. */
  function PassUpTo(sh: Shared, ws: seq<Watch>, k: nat, now: int, endTime: int): (r: (Shared, seq<Watch>))
    requires k <= |sh.ops| == |ws|
    ensures |r.0.ops| == |sh.ops| && |r.1| == |ws|
  {
    if k == 0 then (sh, ws)
    else
      var (sh', ws') := PassUpTo(sh, ws, k - 1, now, endTime);
      SlotBody(sh', ws', k - 1, now, endTime)
  }

  /** The GUI leaves alone where the servers are and which slots they were given. */
  predicate SamePlaces(servers: map<nat, Server>, servers': map<nat, Server>) {
    forall p :: p in servers ==>
      p in servers' && servers'[p].phase == servers[p].phase && servers'[p].opid == servers[p].opid
  }

  lemma MonitorKeepsPlaces(st: State, endTime: int)
    ensures SamePlaces(st.servers, Step(st, Monitor, endTime).servers)
  {
    hide CheckTimeout, CheckEnd, Expired, Release;
  }

  /** Three steps of the interleaved GUI in a row are one loop body. */
  lemma BodySteps(st: State, endTime: int)
    requires Framed(st) && st.gui.Body? && st.gui.part == 0 && st.gui.x < MAX_NBOP
    ensures var st' := Step(Step(Step(st, Monitor, endTime), Monitor, endTime), Monitor, endTime);
      && (st'.sh, st'.watches) == SlotBody(st.sh, st.watches, st.gui.x, st.gui.now, endTime)
      && st'.gui == (if st.gui.x + 1 == MAX_NBOP then Ready else Body(st.gui.x + 1, 0, st.gui.now))
      && Framed(st') && SamePlaces(st.servers, st'.servers)
  {
    hide Dropped, SamePlaces;
    var st2 := Step(Step(st, Monitor, endTime), Monitor, endTime);
    assert SamePlaces(st.servers, Step(st2, Monitor, endTime).servers) by {
      assert st2.servers == st.servers;
      MonitorKeepsPlaces(st2, endTime);
    }
    var x, now := st.gui.x, st.gui.now;
    var (op, w) := CheckTimeout(st.sh.ops[x], st.watches[x], now);
    var w' := CheckEnd(op, w, now, endTime);
    assert st.watches[x := w][x := w'] == st.watches[x := w'];
    assert st.watches[x := w'][x := w'.(endAt := 0)] == st.watches[x := w'.(endAt := 0)];
  }

  function Monitors3(k: nat): seq<Action> {
    if k == 0 then [] else Monitors3(k - 1) + [Monitor] + [Monitor] + [Monitor]
  }

  lemma RunSnoc(st: State, run: seq<Action>, a: Action, endTime: int)
    ensures RunFrom(st, run + [a], endTime) == Step(RunFrom(st, run, endTime), a, endTime)
  {
    assert (run + [a])[..|run|] == run;
  }

  /** A pass that nobody disturbs does to the table and the watches exactly what the loop computes. */
  lemma {:induction false} UndisturbedPass(st: State, k: nat, now: int, endTime: int)
    requires Framed(st) && k <= MAX_NBOP && st.gui == Body(0, 0, now)
    ensures var st' := RunFrom(st, Monitors3(k), endTime);
      && (st'.sh, st'.watches) == PassUpTo(st.sh, st.watches, k, now, endTime)
      && st'.gui == (if k == MAX_NBOP then Ready else Body(k, 0, now))
      && Framed(st') && SamePlaces(st.servers, st'.servers)
  {
    hide Step, SlotBody, RunFrom;
    if k == 0 {
      RunNothing(st, endTime);
    } else {
      UndisturbedPass(st, k - 1, now, endTime);
      BodySteps(RunFrom(st, Monitors3(k - 1), endTime), endTime);
      RunThreeMore(st, Monitors3(k - 1), endTime);
    }
  }

  lemma RunNothing(st: State, endTime: int)
    ensures RunFrom(st, [], endTime) == st
  {
  }

  lemma RunThreeMore(st: State, run: seq<Action>, endTime: int)
    ensures RunFrom(st, run + [Monitor] + [Monitor] + [Monitor], endTime)
         == Step(Step(Step(RunFrom(st, run, endTime), Monitor, endTime), Monitor, endTime), Monitor, endTime)
  {
    hide Step;
    RunSnoc(st, run, Monitor, endTime);
    RunSnoc(st, run + [Monitor], Monitor, endTime);
    RunSnoc(st, run + [Monitor] + [Monitor], Monitor, endTime);
  }

  // ----- The programs

  class SharedData {
    var nbOperation: nat
    const operations: array<Operation>

    ghost predicate Valid()
      reads this
    {
      operations.Length == MAX_NBOP
    }

    ghost function View(): Shared
      reads this, operations
    {
      Shared(nbOperation, operations[..])
    }

    /** The reset in `data::initialize` */
    constructor ()
      ensures Valid() && fresh(operations) && View() == Initial().sh
    {
      nbOperation := 0;
      operations := new Operation[MAX_NBOP](_ => Operation({}, 0, 0));
    }

    /** `woo_alloc_operation`, between taking and giving back the semaphore */
    method AllocOperation() returns (code: nat, opid: int)
      requires Valid()
      modifies this, operations
      ensures Valid()
      ensures View() == Allocate(old(View())).0
      ensures match Allocate(old(View())).1
        case TooMany => code == 20
        case Granted(x) => code == 0 && opid == x
        case NoFreeId => code == 30 && opid == -1
    {
      opid := -1;
      if nbOperation >= MAX_NBOP {
        code := 20;
        return;
      }
      for x := 0 to MAX_NBOP
        invariant View() == old(View()) && opid == -1
        invariant FirstFree(old(operations[..]), 0) == FirstFree(old(operations[..]), x)
      {
        if ENABLE !in operations[x].oflags {
          opid := x;
          nbOperation := (nbOperation + 1) % 256;
          operations[x] := operations[x].(oflags := {ENABLE}, block := 0);
          break;
        }
      }
      code := if opid == -1 then 30 else 0;
    }
  }

  class Gui {
    const data: SharedData
    const endTime: int
    const endArray: array<int>
    const timeoutArray: array<(nat, int)>

    ghost predicate Valid()
      reads this, data
    {
      data.Valid() && endArray.Length == timeoutArray.Length == MAX_NBOP
    }

    function WatchAt(x: nat): Watch
      reads this, endArray, timeoutArray
      requires x < endArray.Length && x < timeoutArray.Length
    {
      Watch(timeoutArray[x].0, timeoutArray[x].1, endArray[x])
    }

    ghost function Watches(): (ws: seq<Watch>)
      reads this, endArray, timeoutArray
      requires endArray.Length == timeoutArray.Length
    {
      seq(endArray.Length,
          x requires 0 <= x < endArray.Length == timeoutArray.Length reads this, endArray, timeoutArray => WatchAt(x))
    }

    constructor (data: SharedData, endTime: int)
      requires data.Valid()
      ensures Valid() && this.data == data && this.endTime == endTime && fresh(endArray) && fresh(timeoutArray)
      ensures Watches() == Initial().watches
    {
      this.data := data;
      this.endTime := endTime;
      endArray := new int[MAX_NBOP](_ => 0);
      timeoutArray := new (nat, int)[MAX_NBOP](_ => (0, 0));
    }

    /** The loop body of `monitor_operations` */
    method MonitorSlot(x: nat, current: int)
      requires Valid() && x < MAX_NBOP
      modifies data, data.operations, endArray, timeoutArray
      ensures Valid()
      ensures (data.View(), Watches()) == SlotBody(old(data.View()), old(Watches()), x, current, endTime)
    {
      ghost var ops0, ws0 := data.operations[..], Watches();
      assert ws0[x] == WatchAt(x);
      var op := data.operations[x];
      if ENABLE in op.oflags && END !in op.oflags && TIMEOUT !in op.oflags {
        if timeoutArray[x].0 == op.block {
          if current >= timeoutArray[x].1 {
            if current - timeoutArray[x].1 > 3 {
              op := op.(oflags := op.oflags + {END});
              op := op.(oflags := op.oflags + {TIMEOUT});
              data.operations[x] := op;
            }
          } else {
            timeoutArray[x] := (timeoutArray[x].0, current);
          }
        } else {
          timeoutArray[x] := (op.block, current);
        }
      }
      if END in op.oflags && endArray[x] == 0 {
        endArray[x] := current + endTime;
      }
      if endArray[x] != 0 && current > endArray[x] {
        data.operations[x] := op.(oflags := {});
        data.nbOperation := Decrement(data.nbOperation);
        endArray[x] := 0;
      }
      assert data.operations[..] == ops0[x := data.operations[x]];
      assert ops0[x := op][x := op.(oflags := {})] == ops0[x := op.(oflags := {})];
      assert Watches() == ws0[x := WatchAt(x)];
    }

    /** `monitor_operations` */
    method MonitorOperations(current: int)
      requires Valid()
      modifies data, data.operations, endArray, timeoutArray
      ensures Valid()
      ensures (data.View(), Watches()) == PassUpTo(old(data.View()), old(Watches()), MAX_NBOP, current, endTime)
    {
      hide SlotBody;
      for x := 0 to MAX_NBOP
        invariant Valid()
        invariant (data.View(), Watches()) == PassUpTo(old(data.View()), old(Watches()), x, current, endTime)
      {
        MonitorSlot(x, current);
      }
    }
  }
}
