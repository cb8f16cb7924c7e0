/** A slot whose owner has gone silent is released after three well-spaced passes of the GUI, and counted down once. */
module SlotReclaim {
  import opened SlotTable
  import opened SlotRuns

  /** Where the GUI stands in the loop body of slot `x`: 1 or 2 inside a pass over it, else 0. */
  function PartAt(st: State, x: nat): nat {
    if st.gui.Body? && st.gui.x == x then st.gui.part else 0
  }

  /** What holds of a slot that is silent and not yet released, where `log` lists the times of the passes completed
      over it and `part` says how far the current pass has come.
   */
  predicate Overdue(op: Operation, w: Watch, log: seq<int>, clock: int, part: nat, endTime: int) {
    && ENABLE in op.oflags
    && (forall j :: 0 <= j < |log| ==> log[0] <= log[j] <= clock)
    && (if END !in op.oflags then
          && (|log| > 0 || part > 0 ==>
                w.seenBlock == op.block && w.seenAt <= (if |log| > 0 then log[0] else clock))
          && (forall j :: 0 <= j < |log| ==> log[j] <= w.seenAt + 3)
          && (part > 0 ==> clock <= w.seenAt + 3)
        else if w.endAt == 0 then
          && (log == [] || part == 1) && part != 2
          && (forall j :: 0 <= j < |log| ==> log[j] <= log[0] + 3)
        else
          forall j :: 0 <= j < |log| ==> log[j] <= w.endAt && (log[j] <= log[0] + 3 || w.endAt <= log[j] + endTime))
  }

  /** Three passes at t1, t2 > t1 + 3 and t3 > t2 + endTime, in this order among the passes listed. */
  predicate ThreePasses(log: seq<int>, endTime: int) {
    exists i, j, k :: 0 <= i < j < k < |log| && log[j] > log[i] + 3 && log[k] > log[j] + endTime
  }

  lemma OverdueHasNoThreePasses(op: Operation, w: Watch, log: seq<int>, clock: int, part: nat, endTime: int)
    requires Overdue(op, w, log, clock, part, endTime) && endTime >= 0
    ensures !ThreePasses(log, endTime)
  {
  }

  /** What the table invariant says about one slot. */
  predicate SlotFacts(op: Operation, w: Watch, clock: int, endTime: int) {
    && (TIMEOUT in op.oflags ==> END in op.oflags)
    && (w.endAt != 0 ==> END in op.oflags && w.endAt <= clock + endTime)
    && clock > 0 && endTime >= 0
  }

  lemma TimeoutPartKeepsOverdue(op: Operation, w: Watch, log: seq<int>, clock: int, endTime: int)
    requires Overdue(op, w, log, clock, 0, endTime) && SlotFacts(op, w, clock, endTime)
    ensures var (op', w') := CheckTimeout(op, w, clock); Overdue(op', w', log, clock, 1, endTime)
  {
  }

  lemma EndPartKeepsOverdue(op: Operation, w: Watch, log: seq<int>, clock: int, endTime: int)
    requires Overdue(op, w, log, clock, 1, endTime) && SlotFacts(op, w, clock, endTime)
    ensures Overdue(op, CheckEnd(op, w, clock, endTime), log, clock, 2, endTime)
  {
  }

  lemma PassKeepsOverdue(op: Operation, w: Watch, log: seq<int>, clock: int, endTime: int)
    requires Overdue(op, w, log, clock, 2, endTime) && SlotFacts(op, w, clock, endTime) && !Expired(w, clock)
    ensures Overdue(op, w, log + [clock], clock, 0, endTime)
  {
  }

  // ----- A clock that does not run backwards

  /** A tick shows a time that is not before the last one. */
  predicate ClockAdvances(st: State, a: Action) {
    a.Tick? && st.gui == Ready ==> st.clock <= a.now
  }

  predicate Forward(st: State, run: seq<Action>, endTime: int) {
    run == [] ||
    (Forward(st, run[..|run| - 1], endTime) && ClockAdvances(RunFrom(st, run[..|run| - 1], endTime), run[|run| - 1]))
  }

  /** Then a pass works with the current time, and the end time of slot `x` lies no further ahead than the delay. */
  predicate ClockInv(st: State, x: nat, endTime: int) {
    && st.clock > 0
    && (x < |st.watches| && st.watches[x].endAt != 0 ==> st.watches[x].endAt <= st.clock + endTime)
    && (st.gui.Body? ==> st.gui.now == st.clock)
  }

  lemma StepKeepsClock(st: State, a: Action, x: nat, endTime: int)
    requires ClockInv(st, x, endTime) && ClockAdvances(st, a)
    ensures ClockInv(Step(st, a, endTime), x, endTime)
  {
    hide FirstFree, Written, Release, Dropped;
  }

  lemma {:induction false} RunKeepsClock(st: State, run: seq<Action>, x: nat, endTime: int)
    requires ClockInv(st, x, endTime) && Forward(st, run, endTime)
    ensures ClockInv(RunFrom(st, run, endTime), x, endTime)
  {
    if run == [] {
    } else {
      RunKeepsClock(st, run[..|run| - 1], x, endTime);
      StepKeepsClock(RunFrom(st, run[..|run| - 1], endTime), run[|run| - 1], x, endTime);
      hide Step, ClockInv;
    }
  }

  // ----- What is needed of the table

  /** The table has its size and the GUI works inside it. */
  predicate Sized(st: State) {
    && Framed(st)
    && (st.gui.Body? ==> st.gui.x < MAX_NBOP && st.gui.part < 3)
  }

  /** The flags and the end time of slot `x` agree. */
  predicate SlotSound(st: State, x: nat)
    requires x < |st.sh.ops| && x < |st.watches|
  {
    && (TIMEOUT in st.sh.ops[x].oflags ==> END in st.sh.ops[x].oflags)
    && (st.watches[x].endAt != 0 ==> END in st.sh.ops[x].oflags)
  }

  lemma StepKeepsSized(st: State, a: Action, endTime: int)
    requires Sized(st)
    ensures Sized(Step(st, a, endTime))
  {
    hide FirstFree, Written, Dropped, CheckTimeout, CheckEnd, Expired;
  }

  lemma MonitorKeepsSlotSound(st: State, x: nat, endTime: int)
    requires Sized(st) && x < MAX_NBOP && SlotSound(st, x) && st.gui.Body? && st.gui.x == x
    ensures Sized(Monitors(st, endTime)) && SlotSound(Monitors(st, endTime), x)
  {
    hide Dropped;
  }

  // ----- The slot within the whole system

  /** The step is a server writing to slot `x` or taking it. */
  predicate Touches(st: State, a: Action, x: nat) {
    || (IsWrite(a) && a.p in st.servers && st.servers[a.p].phase == Running && st.servers[a.p].opid == x)
    || (a.Alloc? && Allocate(st.sh).1 == Granted(x))
  }

  predicate Silent(st: State, run: seq<Action>, x: nat, endTime: int) {
    run == [] ||
    (Silent(st, run[..|run| - 1], x, endTime) && !Touches(RunFrom(st, run[..|run| - 1], endTime), run[|run| - 1], x))
  }

  /** Slot `x`, since its pass list was `k` and its release count `rel`: still overdue, or released once and idle. */
  predicate Reclaiming(st: State, x: nat, k: nat, rel: nat, endTime: int)
    requires x < |st.sh.ops| && x < |st.watches| && x < |st.passes| && x < |st.releases|
  {
    && k <= |st.passes[x]|
    && (|| (st.releases[x] == rel
            && Overdue(st.sh.ops[x], st.watches[x], st.passes[x][k..], st.clock, PartAt(st, x), endTime))
        || (st.releases[x] == rel + 1 && st.sh.ops[x].oflags == {} && st.watches[x].endAt == 0))
  }

  /** Nothing about slot `x` changed, and the clock moved only outside a pass over it. */
  predicate SlotUntouched(st: State, st': State, x: nat) {
    && Framed(st) && Framed(st') && x < MAX_NBOP
    && st'.sh.ops[x] == st.sh.ops[x] && st'.watches[x] == st.watches[x]
    && st'.passes[x] == st.passes[x] && st'.releases[x] == st.releases[x]
    && st.clock <= st'.clock && (st'.clock == st.clock || PartAt(st, x) == 0)
    && PartAt(st', x) == PartAt(st, x)
  }

  lemma OtherMonitorKeepsSlot(st: State, x: nat, endTime: int)
    requires Sized(st) && x < MAX_NBOP && st.gui.Body? && st.gui.x != x
    ensures SlotUntouched(st, Monitors(st, endTime), x)
  {
    hide CountEnabled, Dropped, CheckTimeout, CheckEnd, Expired;
  }

  /** Steps that are not the GUI working on slot `x` leave it alone. */
  lemma OtherStepsKeepSlot(st: State, a: Action, x: nat, endTime: int)
    requires Sized(st) && x < MAX_NBOP && !Touches(st, a, x) && ClockAdvances(st, a)
    requires a.Monitor? && st.gui.Body? ==> st.gui.x != x
    ensures SlotUntouched(st, Step(st, a, endTime), x)
  {
    if a.Monitor? && st.gui.Body? {
      OtherMonitorKeepsSlot(st, x, endTime);
    }
    hide CountEnabled, Monitors, FirstFree, Written;
  }

  lemma ClockKeepsOverdue(op: Operation, w: Watch, log: seq<int>, clock: int, clock': int, part: nat, endTime: int)
    requires Overdue(op, w, log, clock, part, endTime) && clock <= clock' && (clock' == clock || part == 0)
    ensures Overdue(op, w, log, clock', part, endTime)
  {
  }

  lemma MonitorKeepsReclaiming(st: State, x: nat, k: nat, rel: nat, endTime: int)
    requires Sized(st) && x < MAX_NBOP && SlotSound(st, x) && ClockInv(st, x, endTime) && endTime >= 0
    requires st.gui.Body? && st.gui.x == x
    requires Reclaiming(st, x, k, rel, endTime)
    ensures var st' := Monitors(st, endTime);
      && Framed(st')
      && Reclaiming(st', x, k, rel, endTime)
  {
    hide CountEnabled, Dropped;
    var op, w, log := st.sh.ops[x], st.watches[x], st.passes[x][k..];
    assert SlotFacts(op, w, st.clock, endTime);
    assert (st.passes[x] + [st.clock])[k..] == log + [st.clock];
    if st.releases[x] == rel {
      if st.gui.part == 0 {
        TimeoutPartKeepsOverdue(op, w, log, st.clock, endTime);
      } else if st.gui.part == 1 {
        EndPartKeepsOverdue(op, w, log, st.clock, endTime);
      } else if !Expired(w, st.clock) {
        PassKeepsOverdue(op, w, log, st.clock, endTime);
      }
    }
    hide Overdue;
  }

  lemma StepKeepsReclaiming(st: State, a: Action, x: nat, k: nat, rel: nat, endTime: int)
    requires Sized(st) && x < MAX_NBOP && SlotSound(st, x) && ClockInv(st, x, endTime) && endTime >= 0
    requires !Touches(st, a, x) && ClockAdvances(st, a)
    requires Reclaiming(st, x, k, rel, endTime)
    ensures var st' := Step(st, a, endTime);
      Sized(st') && SlotSound(st', x) && Reclaiming(st', x, k, rel, endTime)
  {
    if a.Monitor? && st.gui.Body? && st.gui.x == x {
      MonitorKeepsReclaiming(st, x, k, rel, endTime);
      MonitorKeepsSlotSound(st, x, endTime);
    } else {
      StepKeepsSized(st, a, endTime);
      OtherStepsKeepSlot(st, a, x, endTime);
      if st.releases[x] == rel {
        ClockKeepsOverdue(st.sh.ops[x], st.watches[x], st.passes[x][k..], st.clock, Step(st, a, endTime).clock,
                          PartAt(st, x), endTime);
      }
      hide Overdue, Step;
    }
  }

  lemma {:induction false} RunKeepsReclaiming(st: State, run: seq<Action>, x: nat, endTime: int)
    requires Sized(st) && x < MAX_NBOP && SlotSound(st, x)
    requires ClockInv(st, x, endTime) && Forward(st, run, endTime) && endTime >= 0
    requires ENABLE in st.sh.ops[x].oflags && st.gui == Ready && Silent(st, run, x, endTime)
    ensures var st' := RunFrom(st, run, endTime);
      Sized(st') && SlotSound(st', x) && Reclaiming(st', x, |st.passes[x]|, st.releases[x], endTime)
  {
    if run == [] {
      assert st.passes[x][|st.passes[x]|..] == [];
    } else {
      var before := run[..|run| - 1];
      RunKeepsReclaiming(st, before, x, endTime);
      RunKeepsClock(st, before, x, endTime);
      StepKeepsReclaiming(RunFrom(st, before, endTime), run[|run| - 1], x, |st.passes[x]|, st.releases[x], endTime);
      hide Reclaiming, Step, SlotSound, ClockInv, ClockAdvances;
    }
  }

  /** Bounded reclamation: start between two ticks with slot `x` enabled and let its owner stay silent, whatever the
      other servers do, while the clock does not run backwards. Once the GUI has passed over the slot at t1, then
      t2 > t1 + 3, then t3 > t2 + endTime, the slot is released and has been counted down exactly once. This does not
      depend on the rest of the table being in order; if it is, it stays so.
   */
  lemma SilentSlotReclaimed(st: State, run: seq<Action>, x: nat, endTime: int)
    requires Sized(st) && x < MAX_NBOP && SlotSound(st, x)
    requires ClockInv(st, x, endTime) && Forward(st, run, endTime) && endTime >= 0
    requires ENABLE in st.sh.ops[x].oflags && st.gui == Ready && Silent(st, run, x, endTime)
    ensures var st' := RunFrom(st, run, endTime);
      && Sized(st') && |st.passes[x]| <= |st'.passes[x]|
      && (ThreePasses(st'.passes[x][|st.passes[x]|..], endTime) ==>
            st'.releases[x] == st.releases[x] + 1 && st'.sh.ops[x].oflags == {})
      && (Inv(st) && Disciplined(st, run, endTime) ==> Inv(st'))
  {
    hide Overdue, RunFrom, Disciplined, Silent, Inv, Forward, ClockInv;
    RunKeepsReclaiming(st, run, x, endTime);
    var st' := RunFrom(st, run, endTime);
    if st'.releases[x] == st.releases[x] {
      OverdueHasNoThreePasses(st'.sh.ops[x], st'.watches[x], st'.passes[x][|st.passes[x]|..], st'.clock,
                              PartAt(st', x), endTime);
    }
    if Inv(st) && Disciplined(st, run, endTime) {
      RunKeepsInv(st, run, endTime);
    }
  }

  /** The table invariant provides what is needed. */
  lemma InvGivesSlot(st: State, x: nat)
    requires Inv(st) && x < MAX_NBOP
    ensures Sized(st) && SlotSound(st, x)
  {
    hide CountEnabled, OwnersInv, WakeUpInv;
  }

  /** The passes do come: while a slot is enabled, a timer tick starts the monitor rather than sending it to sleep. */
  lemma EnabledSlotKeepsMonitorRunning(st: State, x: nat, now: int, endTime: int)
    requires Inv(st) && x < MAX_NBOP && ENABLE in st.sh.ops[x].oflags && st.gui == Ready
    ensures Step(st, Tick(now), endTime).gui == Body(0, 0, now)
  {
    CountBounds(st.sh.ops, x);
  }
}
