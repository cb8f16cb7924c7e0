/** Exactly when ending an operation too late does harm: what the users of the table rely on, in all that may follow. */
module SlotLateLimits {
  import opened SlotTable
  import opened SlotRuns
  import opened SlotReclaim

  /** The pass that is under way still has to come to slot `z`, and will release it. */
  predicate AboutToGo(st: State, z: nat) {
    st.gui.Body? && st.gui.x <= z < |st.watches| && Expired(st.watches[z], st.gui.now)
  }

  /** END in slot `x`, which is not enabled, goes unnoticed: the slot is the one that the next operation gets, which
      clears its flags, and until then no pass looks at it. For that every slot in use must be about to go in the pass
      under way, and that pass must be past noting an end time for slot 0 (or compute the end time 0, which means none).
   */
  predicate Unnoticed(st: State, x: nat, endTime: int) {
    && x == 0
    && (forall z :: 0 <= z < |st.sh.ops| && ENABLE in st.sh.ops[z].oflags ==> AboutToGo(st, z))
    && (st.gui.Body? && st.gui.x == 0 && st.gui.part <= 1 ==> st.gui.now + endTime == 0)
  }

  // ----- The harmless case

  /** Everything but slot 0 is in order, slot 0 is free, and what its flags say goes unnoticed. */
  predicate Leftover(st: State, endTime: int) {
    && Framed(st) && st.sh.nb == CountEnabled(st.sh.ops) && !st.noFree
    && (st.gui.Body? ==> st.gui.x < MAX_NBOP && st.gui.part < 3)
    && ENABLE !in st.sh.ops[0].oflags && st.watches[0].endAt == 0
    && (forall z :: 0 < z < MAX_NBOP ==> END in st.sh.ops[z].oflags ==> ENABLE in st.sh.ops[z].oflags)
    && (forall z :: 0 <= z < MAX_NBOP ==> TIMEOUT in st.sh.ops[z].oflags ==> END in st.sh.ops[z].oflags)
    && (forall z :: 0 < z < MAX_NBOP ==> st.watches[z].endAt != 0 ==> END in st.sh.ops[z].oflags)
    && Unnoticed(st, 0, endTime)
    && OwnersInv(st) && WakeUpInv(st)
  }

  lemma LeftoverIsOrderly(st: State, endTime: int)
    requires Leftover(st, endTime)
    ensures Orderly(st)
  {
    CountBounds(st.sh.ops, 0);
    hide CountEnabled, Exclusive, HoldEnabled, WakeUpInv, Unnoticed;
  }

  /** The next operation gets slot 0 and puts it in order again. */
  lemma AllocRestoresInv(st: State, p: nat, endTime: int)
    requires Leftover(st, endTime) && p in st.servers && st.servers[p].phase == Starting
    ensures Inv(ServerAllocates(st, p))
  {
    var op := st.sh.ops[0].(oflags := {ENABLE}, block := 0);
    CountUpdate(st.sh.ops, 0, op);
    CountBounds(st.sh.ops, 0);
    AllocKeepsOwners(st, p);
    hide CountEnabled, OwnersInv, Unnoticed;
    var st' := ServerAllocates(st, p);
    assert FirstFree(st.sh.ops, 0) == 0;
    assert st'.sh.ops == st.sh.ops[0 := op];
    assert p in st'.servers && st'.servers[p].phase == Allocated;
  }

  lemma WriteKeepsLeftover(st: State, a: Action, endTime: int)
    requires Leftover(st, endTime) && IsWrite(a) && Obeys(st, a)
    ensures Leftover(ServerWrites(st, a), endTime)
  {
    hide OwnersInv, Written, CountEnabled;
    WriteKeepsOwners(st, a);
    WakeUpStaysDue(st, ServerWrites(st, a));
    hide WakeUpInv;
    if a.p in st.servers && st.servers[a.p].phase == Running && st.servers[a.p].opid < MAX_NBOP {
      var x := st.servers[a.p].opid;
      WrittenFlags(st.sh.ops[x], a);
      CountUpdate(st.sh.ops, x, Written(st.sh.ops[x], a));
    }
  }

  lemma MonitorKeepsLeftover(st: State, endTime: int)
    requires Leftover(st, endTime) && st.gui.Body?
    ensures Leftover(Monitors(st, endTime), endTime)
  {
    hide OwnersInv;
    MonitorKeepsOwners(st, endTime);
    var x := st.gui.x;
    CountUpdate(st.sh.ops, x, st.sh.ops[x].(oflags := {}));
    CountBounds(st.sh.ops, x);
    hide CountEnabled, Dropped;
    assert st.sh.ops[x := st.sh.ops[x]] == st.sh.ops && st.watches[x := st.watches[x]] == st.watches;
  }

  lemma OtherMovesKeepLeftover(st: State, a: Action, endTime: int)
    requires Leftover(st, endTime) && !IsWrite(a) && !a.Alloc? && !(a.Monitor? && st.gui.Body?)
    ensures Leftover(Step(st, a, endTime), endTime)
  {
    if a.Spawn? || a.Signal? || a.Exit? {
      ServerMovesKeepOwners(st, a, endTime);
      WakeUpStaysDue(st, Step(st, a, endTime));
    }
    if !st.gui.Body? {
      NoneEnabled(st.sh.ops);
    }
    hide CountEnabled, OwnersInv;
  }

  /** A disciplined step keeps the leftover unnoticed or puts the table in order. */
  lemma StepKeepsLeftover(st: State, a: Action, endTime: int)
    requires Leftover(st, endTime) && Obeys(st, a)
    ensures Leftover(Step(st, a, endTime), endTime) || Inv(Step(st, a, endTime))
  {
    hide Leftover, Inv, Obeys;
    if IsWrite(a) {
      WriteKeepsLeftover(st, a, endTime);
    } else if a.Monitor? && st.gui.Body? {
      MonitorKeepsLeftover(st, endTime);
    } else if !a.Alloc? {
      OtherMovesKeepLeftover(st, a, endTime);
    } else if a.p in st.servers && st.servers[a.p].phase == Starting {
      AllocRestoresInv(st, a.p, endTime);
    }
  }

  lemma {:induction false} RunKeepsOrder(st: State, run: seq<Action>, endTime: int)
    requires Leftover(st, endTime) && Disciplined(st, run, endTime)
    ensures var st' := RunFrom(st, run, endTime); (Leftover(st', endTime) || Inv(st')) && Orderly(st')
  {
    hide Leftover, Inv, Obeys, Step, Orderly;
    var st' := RunFrom(st, run, endTime);
    if run == [] {
    } else {
      var before, a := run[..|run| - 1], run[|run| - 1];
      RunKeepsOrder(st, before, endTime);
      if Leftover(RunFrom(st, before, endTime), endTime) {
        StepKeepsLeftover(RunFrom(st, before, endTime), a, endTime);
      } else {
        StepKeepsInv(RunFrom(st, before, endTime), a, endTime);
      }
    }
    if Inv(st') {
      InvIsOrderly(st');
    } else {
      LeftoverIsOrderly(st', endTime);
    }
  }

  // ----- The harmful case

  /** Some disciplined continuation, with a clock that does not run backwards, gets the table out of order. */
  ghost predicate CanGoWrong(st: State, endTime: int) {
    exists run :: Disciplined(st, run, endTime) && Forward(st, run, endTime) && !Orderly(RunFrom(st, run, endTime))
  }

  lemma {:induction false} DisciplinedFirst(st: State, a: Action, run: seq<Action>, endTime: int)
    requires Obeys(st, a) && ClockAdvances(st, a)
    requires Disciplined(Step(st, a, endTime), run, endTime) && Forward(Step(st, a, endTime), run, endTime)
    ensures RunFrom(st, [a] + run, endTime) == RunFrom(Step(st, a, endTime), run, endTime)
    ensures Disciplined(st, [a] + run, endTime) && Forward(st, [a] + run, endTime)
  {
    hide Step, Obeys, ClockAdvances;
    if run == [] {
      assert [a] + run == [a] && [a][..0] == [];
    } else {
      DisciplinedFirst(st, a, run[..|run| - 1], endTime);
      assert ([a] + run)[..|run|] == [a] + run[..|run| - 1];
    }
  }

  lemma WrongAfter(st: State, a: Action, endTime: int)
    requires Obeys(st, a) && ClockAdvances(st, a) && CanGoWrong(Step(st, a, endTime), endTime)
    ensures CanGoWrong(st, endTime)
  {
    hide Step, Obeys, ClockAdvances, Disciplined, Forward, Orderly, RunFrom;
    var st' := Step(st, a, endTime);
    var run :| Disciplined(st', run, endTime) && Forward(st', run, endTime) && !Orderly(RunFrom(st', run, endTime));
    DisciplinedFirst(st, a, run, endTime);
  }

  lemma WrongNow(st: State, endTime: int)
    requires !Orderly(st)
    ensures CanGoWrong(st, endTime)
  {
    hide Orderly;
    assert Disciplined(st, [], endTime) && Forward(st, [], endTime) && RunFrom(st, [], endTime) == st;
  }

  /** A slot in order, or one in which END stands although it is not enabled and the GUI has not noted it. */
  predicate SlotFine(op: Operation, w: Watch, stale: bool) {
    if stale then END in op.oflags && ENABLE !in op.oflags && w.endAt == 0
    else (END in op.oflags ==> ENABLE in op.oflags) && (w.endAt != 0 ==> END in op.oflags)
  }

  /** END stands in slot `x`, which is not enabled; everything else is in order. */
  predicate Stale(st: State, x: nat) {
    && Framed(st) && st.sh.nb == CountEnabled(st.sh.ops) && x < MAX_NBOP
    && (st.gui.Body? ==> st.gui.x < MAX_NBOP && st.gui.part < 3)
    && (forall z :: 0 <= z < MAX_NBOP ==> SlotFine(st.sh.ops[z], st.watches[z], z == x))
  }

  /** The GUI is just about to note an end time for slot `x`. */
  predicate NotesNext(st: State, x: nat, endTime: int) {
    st.gui.Body? && st.gui.x == x && st.gui.part == 1 && st.gui.now + endTime != 0
  }

  lemma NotingIsWrong(st: State, x: nat, endTime: int)
    requires Stale(st, x) && NotesNext(st, x, endTime)
    ensures CanGoWrong(st, endTime)
  {
    var st' := Step(st, Monitor, endTime);
    assert st'.watches[x].endAt != 0 && ENABLE !in st'.sh.ops[x].oflags;
    WrongNow(st', endTime);
    WrongAfter(st, Monitor, endTime);
  }

  function After(gui: GuiPoint): GuiPoint
    requires gui.Body?
  {
    if gui.part < 2 then Body(gui.x, gui.part + 1, gui.now)
    else if gui.x + 1 == MAX_NBOP then Ready
    else Body(gui.x + 1, 0, gui.now)
  }

  lemma TimeoutPartKeepsFine(op: Operation, w: Watch, stale: bool, now: int)
    requires SlotFine(op, w, stale)
    ensures var (op', w') := CheckTimeout(op, w, now);
      SlotFine(op', w', stale) && (ENABLE in op'.oflags <==> ENABLE in op.oflags)
  {
  }

  lemma EndPartKeepsFine(op: Operation, w: Watch, stale: bool, now: int, endTime: int)
    requires SlotFine(op, w, stale) && (stale ==> now + endTime == 0)
    ensures SlotFine(op, CheckEnd(op, w, now, endTime), stale)
  {
  }

  lemma ReleasePartKeepsFine(op: Operation, w: Watch, stale: bool, now: int)
    requires SlotFine(op, w, stale) && Expired(w, now)
    ensures !stale && ENABLE in op.oflags && SlotFine(op.(oflags := {}), w.(endAt := 0), stale)
  {
  }

  lemma MonitorKeepsStale(st: State, x: nat, endTime: int)
    requires Stale(st, x) && st.gui.Body? && !NotesNext(st, x, endTime)
    ensures var st' := Step(st, Monitor, endTime); Stale(st', x) && st'.gui == After(st.gui)
  {
    hide CountEnabled, Dropped, CheckTimeout, CheckEnd, Expired, SlotFine;
    var Body(y, part, now) := st.gui;
    var op, w := st.sh.ops[y], st.watches[y];
    if part == 0 {
      TimeoutPartKeepsFine(op, w, y == x, now);
      CountUpdate(st.sh.ops, y, CheckTimeout(op, w, now).0);
    } else if part == 1 {
      EndPartKeepsFine(op, w, y == x, now, endTime);
    } else if Expired(w, now) {
      ReleasePartKeepsFine(op, w, y == x, now);
      CountUpdate(st.sh.ops, y, op.(oflags := {}));
      CountBounds(st.sh.ops, y);
    }
  }

  function StepsLeft(gui: GuiPoint): int {
    if gui.Body? then 3 * (MAX_NBOP - gui.x) - gui.part else 0
  }

  /** A pass that has yet to come to slot `x` notes an end time for it, unless that comes out as 0. */
  lemma {:induction false} PassNotes(st: State, x: nat, endTime: int)
    requires Stale(st, x) && st.gui.Body? && st.gui.now + endTime != 0
    requires st.gui.x < x || (st.gui.x == x && st.gui.part <= 1)
    ensures CanGoWrong(st, endTime)
    decreases StepsLeft(st.gui)
  {
    hide Stale, CanGoWrong, Step;
    if NotesNext(st, x, endTime) {
      NotingIsWrong(st, x, endTime);
    } else {
      MonitorKeepsStale(st, x, endTime);
      StaleBounds(st, x);
      PassNotes(Step(st, Monitor, endTime), x, endTime);
      WrongAfter(st, Monitor, endTime);
    }
  }

  lemma StaleBounds(st: State, x: nat)
    requires Stale(st, x)
    ensures x < MAX_NBOP && (st.gui.Body? ==> st.gui.x < MAX_NBOP && st.gui.part < 3)
  {
    hide CountEnabled;
  }

  // ----- Getting to such a pass

  /** A number above all numbers in a set. */
  ghost function Above(s: set<nat>): (n: nat)
    ensures forall p :: p in s ==> p < n
  {
    if s == {} then 0
    else
      var p :| p in s;
      var n := Above(s - {p});
      assert forall q :: q in s ==> q == p || q in s - {p};
      if p < n then n else p + 1
  }

  /** With an operation counted, the next tick starts such a pass; the clock need not run backwards for that. */
  lemma TickGoesWrong(st: State, x: nat, endTime: int)
    requires Stale(st, x) && st.gui == Ready && st.sh.nb > 0
    ensures CanGoWrong(st, endTime)
  {
    hide CountEnabled, CanGoWrong;
    var now := if st.clock + endTime == 0 then st.clock + 1 else st.clock;
    PassNotes(Step(st, Tick(now), endTime), x, endTime);
    WrongAfter(st, Tick(now), endTime);
  }

  /** A new server gets slot 0 while nothing is counted, which leaves a stale slot behind it alone. */
  lemma AllocBeforeStale(st: State, x: nat, p: nat, endTime: int)
    requires Stale(st, x) && x != 0 && st.sh.nb == 0 && p in st.servers && st.servers[p].phase == Starting
    ensures var st' := Step(st, Alloc(p), endTime);
      && Stale(st', x) && st'.sh.nb == 1 && st'.gui == st.gui
      && p in st'.servers && st'.servers[p].phase == Allocated
  {
    CountBounds(st.sh.ops, 0);
    CountUpdate(st.sh.ops, 0, st.sh.ops[0].(oflags := {ENABLE}, block := 0));
    assert FirstFree(st.sh.ops, 0) == 0;
    hide CountEnabled;
  }

  lemma ReadyGoesWrong(st: State, x: nat, endTime: int)
    requires Stale(st, x) && st.gui == Ready && (x != 0 || st.sh.nb > 0)
    ensures CanGoWrong(st, endTime)
  {
    hide CanGoWrong, CountEnabled, Allocate, SlotFine;
    if st.sh.nb > 0 {
      TickGoesWrong(st, x, endTime);
    } else {
      var p := Above(st.servers.Keys);
      var st1 := Step(st, Spawn(p), endTime);
      AllocBeforeStale(st1, x, p, endTime);
      TickGoesWrong(Step(st1, Alloc(p), endTime), x, endTime);
      WrongAfter(st1, Alloc(p), endTime);
      WrongAfter(st, Spawn(p), endTime);
    }
  }

  /** A sleeping GUI with a signal pending wakes up. */
  lemma WakeGoesWrong(st: State, x: nat, endTime: int)
    requires Stale(st, x) && st.gui == Sleeping && st.pending && (x != 0 || st.sh.nb > 0)
    ensures CanGoWrong(st, endTime)
  {
    hide CanGoWrong, CountEnabled, SlotFine;
    ReadyGoesWrong(Step(st, WakeUp, endTime), x, endTime);
    WrongAfter(st, WakeUp, endTime);
  }

  lemma SignalGoesWrong(st: State, x: nat, p: nat, endTime: int)
    requires Stale(st, x) && st.gui == Sleeping && st.sh.nb > 0
    requires p in st.servers && st.servers[p].phase == Allocated
    ensures CanGoWrong(st, endTime)
  {
    hide CanGoWrong, CountEnabled, SlotFine;
    WakeGoesWrong(Step(st, Signal(p), endTime), x, endTime);
    WrongAfter(st, Signal(p), endTime);
  }

  lemma SleepGoesWrong(st: State, x: nat, endTime: int)
    requires Stale(st, x) && WakeUpInv(st) && st.gui == Sleeping && (x != 0 || st.sh.nb > 0)
    ensures CanGoWrong(st, endTime)
  {
    hide CanGoWrong, CountEnabled, Allocate, SlotFine;
    if st.pending {
      WakeGoesWrong(st, x, endTime);
    } else if st.sh.nb > 0 {
      var p :| p in st.servers && st.servers[p].phase == Allocated;
      SignalGoesWrong(st, x, p, endTime);
    } else {
      var p := Above(st.servers.Keys);
      var st1 := Step(st, Spawn(p), endTime);
      AllocBeforeStale(st1, x, p, endTime);
      SignalGoesWrong(Step(st1, Alloc(p), endTime), x, p, endTime);
      WrongAfter(st1, Alloc(p), endTime);
      WrongAfter(st, Spawn(p), endTime);
    }
  }

  /** Slot `z` is in use and the pass under way leaves it so. */
  predicate Survives(st: State, z: nat) {
    z < |st.sh.ops| && ENABLE in st.sh.ops[z].oflags && !AboutToGo(st, z)
  }

  lemma MonitorKeepsSurvivor(st: State, z: nat, endTime: int)
    requires Framed(st) && st.gui.Body? && st.gui.x < MAX_NBOP && st.gui.part < 3 && Survives(st, z) && endTime >= 0
    ensures Survives(Step(st, Monitor, endTime), z)
  {
    hide Dropped;
  }

  /** A pass under way that leaves slot `x` alone comes to its end. */
  lemma {:induction false} PassGoesWrong(st: State, x: nat, z: nat, endTime: int)
    requires Stale(st, x) && st.gui.Body? && endTime >= 0 && (x != 0 || Survives(st, z))
    ensures CanGoWrong(st, endTime)
    decreases StepsLeft(st.gui)
  {
    hide CanGoWrong, Step, CountEnabled, SlotFine, AboutToGo;
    if NotesNext(st, x, endTime) {
      NotingIsWrong(st, x, endTime);
    } else {
      MonitorKeepsStale(st, x, endTime);
      var st' := Step(st, Monitor, endTime);
      if x == 0 {
        MonitorKeepsSurvivor(st, z, endTime);
      }
      if st'.gui.Body? {
        PassGoesWrong(st', x, z, endTime);
      } else {
        if x == 0 {
          CountBounds(st'.sh.ops, z);
        }
        ReadyGoesWrong(st', x, endTime);
      }
      WrongAfter(st, Monitor, endTime);
    }
  }

  lemma StaleGoesWrong(st: State, x: nat, endTime: int)
    requires Stale(st, x) && WakeUpInv(st) && !Unnoticed(st, x, endTime) && (st.gui.Body? ==> endTime >= 0)
    ensures CanGoWrong(st, endTime)
  {
    hide CanGoWrong, Step, CountEnabled, SlotFine;
    if st.gui.Body? {
      if x == 0 && st.gui.x == 0 && st.gui.part <= 1 && st.gui.now + endTime != 0 {
        PassNotes(st, x, endTime);
      } else if x == 0 {
        var z :| 0 <= z < |st.sh.ops| && ENABLE in st.sh.ops[z].oflags && !AboutToGo(st, z);
        PassGoesWrong(st, x, z, endTime);
      } else {
        PassGoesWrong(st, x, 0, endTime);
      }
    } else {
      if x == 0 {
        var z :| 0 <= z < |st.sh.ops| && ENABLE in st.sh.ops[z].oflags && !AboutToGo(st, z);
        CountBounds(st.sh.ops, z);
      }
      OutsidePassGoesWrong(st, x, endTime);
    }
  }

  lemma OutsidePassGoesWrong(st: State, x: nat, endTime: int)
    requires Stale(st, x) && WakeUpInv(st) && !st.gui.Body? && (x != 0 || st.sh.nb > 0)
    ensures CanGoWrong(st, endTime)
  {
    hide CanGoWrong, CountEnabled, SlotFine;
    if st.gui == Ready {
      ReadyGoesWrong(st, x, endTime);
    } else if st.gui == Sleeping {
      SleepGoesWrong(st, x, endTime);
    } else {
      SleepGoesWrong(Step(st, FallAsleep, endTime), x, endTime);
      WrongAfter(st, FallAsleep, endTime);
    }
  }

  // ----- The exact condition

  /** Everything that may follow leaves the table in order: always, or only with a clock that does not run backwards. */
  ghost predicate StaysOrderly(st: State, endTime: int) {
    forall run :: Disciplined(st, run, endTime) ==> Orderly(RunFrom(st, run, endTime))
  }

  ghost predicate StaysOrderlyForward(st: State, endTime: int) {
    forall run :: Disciplined(st, run, endTime) && Forward(st, run, endTime) ==> Orderly(RunFrom(st, run, endTime))
  }

  lemma LateEndState(st: State, p: nat, endTime: int)
    requires Inv(st) && !Obeys(st, Finish(p))
    ensures p in st.servers && Step(st, Finish(p), endTime).gui == st.gui
    ensures var st' := Step(st, Finish(p), endTime); var x := st.servers[p].opid;
      && Stale(st', x) && WakeUpInv(st') && (Unnoticed(st', x, endTime) <==> Unnoticed(st, x, endTime))
      && (Unnoticed(st, x, endTime) ==> Leftover(st', endTime))
  {
    var x := st.servers[p].opid;
    hide Written, CountEnabled, OwnersInv;
    WriteKeepsOwners(st, Finish(p));
    WakeUpStaysDue(st, ServerWrites(st, Finish(p)));
    hide WakeUpInv;
    WrittenFlags(st.sh.ops[x], Finish(p));
    CountUpdate(st.sh.ops, x, Written(st.sh.ops[x], Finish(p)));
  }

  /** Ending an operation leaves the table in order for all that may follow if and only if the slot is still enabled, or
      nobody will notice.
   */
  lemma LateEndHarmlessExactlyWhen(st: State, p: nat, endTime: int)
    requires Inv(st) && (st.gui.Body? ==> endTime >= 0)
    ensures var st' := Step(st, Finish(p), endTime);
      var harmless := Obeys(st, Finish(p)) || Unnoticed(st, st.servers[p].opid, endTime);
      (StaysOrderly(st', endTime) <==> harmless) && (StaysOrderlyForward(st', endTime) <==> harmless)
  {
    hide Inv, Obeys, Unnoticed, Leftover, Stale, Orderly, Step, Disciplined, Forward, RunFrom;
    var st' := Step(st, Finish(p), endTime);
    StepKeepsInv(st, Finish(p), endTime);
    if Obeys(st, Finish(p)) {
      forall run | Disciplined(st', run, endTime) ensures Orderly(RunFrom(st', run, endTime)) {
        RunKeepsInv(st', run, endTime);
        InvIsOrderly(RunFrom(st', run, endTime));
      }
    } else {
      LateEndState(st, p, endTime);
      if Unnoticed(st', st.servers[p].opid, endTime) {
        forall run | Disciplined(st', run, endTime) ensures Orderly(RunFrom(st', run, endTime)) {
          RunKeepsOrder(st', run, endTime);
        }
      } else {
        StaleGoesWrong(st', st.servers[p].opid, endTime);
      }
    }
  }

  /** Outside a pass that means: slot 0, and no operation counted. */
  lemma UnnoticedOutsidePass(st: State, x: nat, endTime: int)
    requires Inv(st) && !st.gui.Body? && x < MAX_NBOP
    ensures Unnoticed(st, x, endTime) <==> x == 0 && st.sh.nb == 0
  {
    if st.sh.nb == 0 {
      forall z | 0 <= z < |st.sh.ops| ensures ENABLE !in st.sh.ops[z].oflags {
        CountBounds(st.sh.ops, z);
      }
    } else if Unnoticed(st, x, endTime) {
      NoneEnabled(st.sh.ops);
    }
    hide CountEnabled;
  }
}
