/** What becomes of the table when a server ends its operation after the GUI has dropped its slot. */
module SlotLateEnd {
  import opened SlotTable
  import opened SlotRuns
  import opened SlotPrograms

  const IDLE := Operation({}, 0, 0)
  const UNSEEN := Watch(0, 0, 0)

  // ----- A pass of the monitor over two slots in use

  /** Slot 0 as given, and slot 1 in use with `n` blocks done, of which the GUI has seen at most `seen`. */
  predicate TwoSlots(sh: Shared, ws: seq<Watch>, nb: nat, op: Operation, w: Watch, n: nat, seen: nat) {
    && sh == Shared(nb, [op, Operation({ENABLE}, n, 0), IDLE, IDLE, IDLE])
    && |ws| == MAX_NBOP && ws[0] == w && ws[1].seenBlock <= seen && ws[1].endAt == 0
    && ws[2] == ws[3] == ws[4] == UNSEEN
  }

  lemma IdleSlot(sh: Shared, ws: seq<Watch>, x: nat, now: int, endTime: int)
    requires x < |sh.ops| == |ws| && sh.ops[x] == IDLE && ws[x] == UNSEEN
    ensures SlotBody(sh, ws, x, now, endTime) == (sh, ws)
  {
    assert sh.ops[x := sh.ops[x]] == sh.ops && ws[x := ws[x]] == ws;
  }

  /** A slot whose owner made progress is only noted. */
  lemma BusySlot(sh: Shared, ws: seq<Watch>, x: nat, now: int, endTime: int)
    requires x < |sh.ops| == |ws| && sh.ops[x].oflags == {ENABLE}
    requires ws[x].endAt == 0 && ws[x].seenBlock != sh.ops[x].block
    ensures SlotBody(sh, ws, x, now, endTime) == (sh, ws[x := Watch(sh.ops[x].block, now, 0)])
  {
    assert sh.ops[x := sh.ops[x]] == sh.ops;
  }

  /** What the loop body does to slot 0 does not depend on the other slots. */
  function FirstSlot(nb: nat, op: Operation, w: Watch, now: int, endTime: int): (nat, Operation, Watch) {
    var (sh, ws) := SlotBody(Shared(nb, [op]), [w], 0, now, endTime);
    (sh.nb, sh.ops[0], ws[0])
  }

  lemma PassOverTwo(sh: Shared, ws: seq<Watch>, nb: nat, op: Operation, w: Watch, n: nat, now: int, endTime: int)
    requires TwoSlots(sh, ws, nb, op, w, n + 1, n)
    ensures var (sh', ws') := PassUpTo(sh, ws, MAX_NBOP, now, endTime);
      var (nb', op', w') := FirstSlot(nb, op, w, now, endTime);
      TwoSlots(sh', ws', nb', op', w', n + 1, n + 1)
  {
    var (sh1, ws1) := SlotBody(sh, ws, 0, now, endTime);
    var (nb', op', w') := FirstSlot(nb, op, w, now, endTime);
    assert sh1 == Shared(nb', sh.ops[0 := op']) && ws1 == ws[0 := w'];
    assert PassUpTo(sh, ws, 0, now, endTime) == (sh, ws);
    hide SlotBody, FirstSlot;
    BusySlot(sh1, ws1, 1, now, endTime);
    var ws2 := ws1[1 := Watch(n + 1, now, 0)];
    IdleSlot(sh1, ws2, 2, now, endTime);
    IdleSlot(sh1, ws2, 3, now, endTime);
    IdleSlot(sh1, ws2, 4, now, endTime);
    assert PassUpTo(sh, ws, 2, now, endTime) == (sh1, ws2);
    assert PassUpTo(sh, ws, 4, now, endTime) == (sh1, ws2);
  }

  // ----- The run

  /** Between two ticks; server 0 was given slot 0 and server 1 works in slot 1. */
  predicate TwoServers(st: State, nb: nat, op: Operation, w: Watch, n: nat, phase: ServerPhase) {
    && Framed(st) && st.gui == Ready && TwoSlots(st.sh, st.watches, nb, op, w, n, n)
    && 0 in st.servers && st.servers[0].phase == phase && st.servers[0].opid == 0
    && 1 in st.servers && st.servers[1].phase == Running && st.servers[1].opid == 1
  }

  lemma {:induction false} RunAppend(st: State, a: seq<Action>, b: seq<Action>, endTime: int)
    ensures RunFrom(st, a + b, endTime) == RunFrom(RunFrom(st, a, endTime), b, endTime)
  {
    hide Step;
    if b == [] {
      assert a + b == a;
    } else {
      RunAppend(st, a, b[..|b| - 1], endTime);
      assert (a + b)[..|a + b| - 1] == a + b[..|b| - 1];
    }
  }

  /** Server 1 makes progress, then the GUI makes an undisturbed pass. */
  function Round(now: int): seq<Action> {
    [Advance(1, 1)] + [Tick(now)] + Monitors3(MAX_NBOP)
  }

  lemma RoundOnTwo(st: State, nb: nat, op: Operation, w: Watch, n: nat, phase: ServerPhase, now: int, endTime: int)
    requires TwoServers(st, nb, op, w, n, phase) && nb > 0 && n + 1 < TWO_32
    ensures var (nb', op', w') := FirstSlot(nb, op, w, now, endTime);
      TwoServers(RunFrom(st, Round(now), endTime), nb', op', w', n + 1, phase)
  {
    var st1 := Step(st, Advance(1, 1), endTime);
    var st2 := Step(st1, Tick(now), endTime);
    assert st1.sh.ops == [op, Operation({ENABLE}, n + 1, 0), IDLE, IDLE, IDLE];
    assert TwoSlots(st2.sh, st2.watches, nb, op, w, n + 1, n);
    assert st2.gui == Body(0, 0, now) && st2.servers == st.servers;
    hide Step, PassUpTo, FirstSlot, RunFrom;
    RunSnoc(st, [], Advance(1, 1), endTime);
    RunSnoc(st, [] + [Advance(1, 1)], Tick(now), endTime);
    RunNothing(st, endTime);
    RunAppend(st, [] + [Advance(1, 1)] + [Tick(now)], Monitors3(MAX_NBOP), endTime);
    assert [] + [Advance(1, 1)] == [Advance(1, 1)];
    UndisturbedPass(st2, MAX_NBOP, now, endTime);
    PassOverTwo(st2.sh, st2.watches, nb, op, w, n, now, endTime);
  }

  function Arrival(p: nat): seq<Action> {
    [Spawn(p)] + [Alloc(p)] + [Signal(p)]
  }

  /** A new server gets the first free slot. */
  lemma ServerArrives(st: State, p: nat, x: nat, endTime: int)
    requires p !in st.servers && st.sh.nb < MAX_NBOP && x == FirstFree(st.sh.ops, 0) < |st.sh.ops|
    ensures RunFrom(st, Arrival(p), endTime) ==
      st.(sh := Shared(st.sh.nb + 1, st.sh.ops[x := st.sh.ops[x].(oflags := {ENABLE}, block := 0)]),
          servers := st.servers[p := Server(Running, x, false)], pending := true)
  {
    var st1 := Step(st, Spawn(p), endTime);
    var st2 := Step(st1, Alloc(p), endTime);
    var st3 := Step(st2, Signal(p), endTime);
    assert st3.servers == st.servers[p := Server(Running, x, false)];
    hide Step, RunFrom;
    assert [] + [Spawn(p)] == [Spawn(p)];
    RunNothing(st, endTime);
    RunSnoc(st, [], Spawn(p), endTime);
    RunSnoc(st, [Spawn(p)], Alloc(p), endTime);
    RunSnoc(st, [Spawn(p)] + [Alloc(p)], Signal(p), endTime);
  }

  lemma TwoArrive(endTime: int)
    ensures TwoServers(RunFrom(Initial(), Arrival(0) + Arrival(1), endTime), 2, Operation({ENABLE}, 0, 0), UNSEEN, 0,
                       Running)
  {
    hide RunFrom, Arrival;
    var st0 := Initial();
    ServerArrives(st0, 0, 0, endTime);
    var st1 := RunFrom(st0, Arrival(0), endTime);
    assert FirstFree(st1.sh.ops, 0) == FirstFree(st1.sh.ops, 1) == 1;
    ServerArrives(st1, 1, 1, endTime);
    RunAppend(st0, Arrival(0), Arrival(1), endTime);
  }

  // Slot 0 after the GUI found it silent, and after its former owner wrote END to it.
  const TIMED_OUT := Operation({ENABLE, END, TIMEOUT}, 0, 0)
  const LATE := Operation({END}, 0, 0)

  /** Slot 0 times out, is released, and after the late end is released again. */
  lemma FirstSlotStages(e: int)
    requires e >= 0
    ensures FirstSlot(2, Operation({ENABLE}, 0, 0), UNSEEN, 10, e) == (2, TIMED_OUT, Watch(0, 0, 10 + e))
    ensures FirstSlot(2, TIMED_OUT, Watch(0, 0, 10 + e), 11 + e, e) == (1, IDLE, UNSEEN)
    ensures EndOperation(IDLE) == LATE
    ensures FirstSlot(1, LATE, UNSEEN, 12 + e, e) == (1, LATE, Watch(0, 0, 12 + 2 * e))
    ensures FirstSlot(1, LATE, Watch(0, 0, 12 + 2 * e), 13 + 2 * e, e) == (0, IDLE, UNSEEN)
  {
    assert {ENABLE} + {END} + {TIMEOUT} == {ENABLE, END, TIMEOUT};
    assert {} + {END} == {END};
  }

  lemma LateFinish(st: State, endTime: int)
    requires TwoServers(st, 1, IDLE, UNSEEN, 2, Running)
    ensures !Obeys(st, Finish(0)) && TwoServers(Step(st, Finish(0), endTime), 1, LATE, UNSEEN, 2, Ended)
  {
    assert {} + {END} == {END};
    assert Step(st, Finish(0), endTime).sh.ops == st.sh.ops[0 := LATE];
  }

  /** Server 0 falls silent and loses its slot. */
  function SlotDropped(endTime: int): seq<Action> {
    Arrival(0) + Arrival(1) + Round(10) + Round(11 + endTime)
  }

  lemma DroppedState(endTime: int)
    requires endTime >= 0
    ensures TwoServers(RunFrom(Initial(), SlotDropped(endTime), endTime), 1, IDLE, UNSEEN, 2, Running)
  {
    hide RunFrom, FirstSlot, TwoServers, Arrival, Round;
    var st := Initial();
    var start, e := Arrival(0) + Arrival(1), endTime;
    FirstSlotStages(e);
    TwoArrive(e);
    RoundOnTwo(RunFrom(st, start, e), 2, Operation({ENABLE}, 0, 0), UNSEEN, 0, Running, 10, e);
    RunAppend(st, start, Round(10), e);
    RoundOnTwo(RunFrom(st, start + Round(10), e), 2, TIMED_OUT, Watch(0, 0, 10 + e), 1, Running, 11 + e, e);
    RunAppend(st, start + Round(10), Round(11 + e), e);
  }

  /** Server 0 was only slow, and ends its operation now; the GUI sees that and counts the slot down once more. */
  function EndedLate(endTime: int): seq<Action> {
    SlotDropped(endTime) + [Finish(0)] + Round(12 + endTime) + Round(13 + 2 * endTime)
  }

  lemma LateState(endTime: int)
    requires endTime >= 0
    ensures !Obeys(RunFrom(Initial(), SlotDropped(endTime), endTime), Finish(0))
    ensures TwoServers(RunFrom(Initial(), EndedLate(endTime), endTime), 0, IDLE, UNSEEN, 4, Ended)
  {
    hide RunFrom, FirstSlot, TwoServers, Round, SlotDropped, Step, Obeys;
    var st, run, e := Initial(), SlotDropped(endTime), endTime;
    FirstSlotStages(e);
    DroppedState(e);
    LateFinish(RunFrom(st, run, e), e);
    RunSnoc(st, run, Finish(0), e);
    var run1 := run + [Finish(0)];
    RoundOnTwo(RunFrom(st, run1, e), 1, LATE, UNSEEN, 2, Ended, 12 + e, e);
    RunAppend(st, run1, Round(12 + e), e);
    RoundOnTwo(RunFrom(st, run1 + Round(12 + e), e), 1, LATE, Watch(0, 0, 12 + 2 * e), 3, Ended, 13 + 2 * e, e);
    RunAppend(st, run1 + Round(12 + e), Round(13 + 2 * e), e);
  }

  /** The late end is reached from the start, and after it the table is wrong: one slot is in use but none is counted,
      so the next tick sends the GUI to sleep beside a running operation.
   */
  lemma LateEndMiscounts(endTime: int)
    requires endTime >= 0
    ensures !Obeys(RunFrom(Initial(), SlotDropped(endTime), endTime), Finish(0))
    ensures var st := RunFrom(Initial(), EndedLate(endTime), endTime);
      && CountEnabled(st.sh.ops) == 1 && st.sh.nb == 0
      && forall now :: Step(st, Tick(now), endTime).gui == Committed
  {
    hide RunFrom, SlotDropped, EndedLate, Obeys, CountEnabled;
    LateState(endTime);
    OneEnabled(RunFrom(Initial(), EndedLate(endTime), endTime).sh.ops);
  }

  lemma OneEnabled(ops: seq<Operation>)
    requires |ops| == MAX_NBOP && ENABLE in ops[1].oflags
    requires forall x :: 0 <= x < MAX_NBOP && x != 1 ==> ops[x].oflags == {}
    ensures CountEnabled(ops) == 1
  {
    CountUpdate(ops, 1, IDLE);
    NoneEnabled(ops[1 := IDLE]);
    hide CountEnabled;
  }
}
