/** What the entries of the slot table tell the user of the GUI: progress, kind and end of each operation. */
module SlotMeaning {
  import opened SlotTable
  import opened SlotRuns

  // ----- A new operation

  /** A new server gets the first slot that is not in use, reset but for its total; every other slot stays as it is.
      With five operations counted it gets none and goes on without a slot.
   */
  lemma NewOperation(st: State, p: nat, endTime: int)
    requires Inv(st) && p in st.servers && st.servers[p].phase == Starting
    ensures var st' := Step(st, Alloc(p), endTime);
      if st.sh.nb >= 5 then st'.sh == st.sh && st'.servers[p].phase == Gone
      else
        var x := st'.servers[p].opid;
        && st'.servers[p].phase == Allocated && x < 5 && st'.sh.nb == st.sh.nb + 1
        && ENABLE !in st.sh.ops[x].oflags && (forall y :: 0 <= y < x ==> ENABLE in st.sh.ops[y].oflags)
        && st'.sh.ops == st.sh.ops[x := Operation({ENABLE}, 0, st.sh.ops[x].totalBlock)]
  {
    AllocationSucceeds(st.sh);
    hide CountEnabled, OwnersInv, WakeUpInv;
  }

  /** Its signal wakes a sleeping GUI, once. */
  lemma SignalWakes(st: State, p: nat, endTime: int)
    requires st.gui == Sleeping && p in st.servers && st.servers[p].phase == Allocated
    ensures var st' := Step(Step(st, Signal(p), endTime), WakeUp, endTime);
      && st'.gui == Ready && !st'.pending && st'.sh == st.sh && st'.servers[p].phase == Running
      && Step(st'.(gui := Sleeping), WakeUp, endTime).gui == Sleeping
  {
  }

  // ----- Progress and kind

  /** The action is a write to slot `x`. */
  predicate WritesTo(st: State, a: Action, x: nat) {
    IsWrite(a) && a.p in st.servers && st.servers[a.p].phase == Running && st.servers[a.p].opid == x
  }

  /** The operation in slot `x` is neither ended by its server, nor replaced, nor released. */
  predicate GoesOn(st: State, run: seq<Action>, x: nat, endTime: int)
    requires x < |st.releases|
  {
    run == [] ||
    (var before, a := RunFrom(st, run[..|run| - 1], endTime), run[|run| - 1];
     && GoesOn(st, run[..|run| - 1], x, endTime)
     && !(a.Finish? && WritesTo(before, a, x))
     && !(a.Alloc? && Allocate(before.sh).1 == Granted(x))
     && (x < |Step(before, a, endTime).releases| ==> Step(before, a, endTime).releases[x] == st.releases[x]))
  }

  /** The sum of all progress reported for slot `x` in a run. */
  function Reported(st: State, run: seq<Action>, x: nat, endTime: int): nat {
    if run == [] then 0
    else
      var before, a := RunFrom(st, run[..|run| - 1], endTime), run[|run| - 1];
      Reported(st, run[..|run| - 1], x, endTime) + if a.Advance? && WritesTo(before, a, x) then a.v else 0
  }

  /** Some action of the run marked slot `x` as an upload, or as a download. */
  predicate Marked(st: State, run: seq<Action>, x: nat, upload: bool, endTime: int) {
    run != [] &&
    (var before, a := RunFrom(st, run[..|run| - 1], endTime), run[|run| - 1];
     || Marked(st, run[..|run| - 1], x, upload, endTime)
     || ((if upload then a.MarkUpload? else a.MarkDownload?) && WritesTo(before, a, x)))
  }

  /** The entry of slot `x` after a step in which it goes on. */
  predicate Tells(st: State, a: Action, x: nat, st': State)
    requires x < |st.sh.ops|
  {
    && Framed(st') && (st'.gui.Body? ==> st'.gui.x < MAX_NBOP && st'.gui.part < 3)
    && (x < |st.releases| && x < |st'.releases| && st'.releases[x] == st.releases[x] && x < |st'.sh.ops| ==>
          var op, op' := st.sh.ops[x], st'.sh.ops[x];
          && op'.block == (if a.Advance? && WritesTo(st, a, x) then (op.block + a.v) % 0x1_0000_0000 else op.block)
          && (UPLOAD in op'.oflags <==> UPLOAD in op.oflags || (a.MarkUpload? && WritesTo(st, a, x)))
          && (DOWNLOAD in op'.oflags <==> DOWNLOAD in op.oflags || (a.MarkDownload? && WritesTo(st, a, x))))
  }

  lemma WriteTells(st: State, a: Action, x: nat)
    requires Framed(st) && x < MAX_NBOP && (st.gui.Body? ==> st.gui.x < MAX_NBOP && st.gui.part < 3)
    requires IsWrite(a) && !(a.Finish? && WritesTo(st, a, x))
    ensures Tells(st, a, x, ServerWrites(st, a))
  {
  }

  lemma MonitorTells(st: State, x: nat, endTime: int)
    requires Framed(st) && x < MAX_NBOP && st.gui.Body? && st.gui.x < MAX_NBOP && st.gui.part < 3
    ensures Tells(st, Monitor, x, Monitors(st, endTime))
  {
    hide Dropped, Expired, CheckEnd;
  }

  /** What one step does to the entry of an operation that goes on. */
  lemma StepTells(st: State, a: Action, x: nat, endTime: int)
    requires Framed(st) && x < MAX_NBOP && (st.gui.Body? ==> st.gui.x < MAX_NBOP && st.gui.part < 3)
    requires !(a.Finish? && WritesTo(st, a, x)) && !(a.Alloc? && Allocate(st.sh).1 == Granted(x))
    ensures Tells(st, a, x, Step(st, a, endTime))
  {
    hide ServerWrites, Monitors;
    if IsWrite(a) {
      WriteTells(st, a, x);
    } else if a.Monitor? && st.gui.Body? {
      MonitorTells(st, x, endTime);
    }
  }

  lemma AddModulo(a: nat, v: nat)
    ensures (a % 0x1_0000_0000 + v) % 0x1_0000_0000 == (a + v) % 0x1_0000_0000
  {
  }

  /** In any interleaving, the count of an operation that goes on is the sum of what was reported for it, in 32 bits,
      and it is marked as upload or download exactly if it was marked so.
   */
  lemma {:induction false} EntryTellsProgress(st: State, run: seq<Action>, x: nat, endTime: int)
    requires Framed(st) && x < MAX_NBOP && (st.gui.Body? ==> st.gui.x < MAX_NBOP && st.gui.part < 3)
    requires st.sh.ops[x].block < 0x1_0000_0000 && GoesOn(st, run, x, endTime)
    ensures var st' := RunFrom(st, run, endTime);
      && Framed(st') && (st'.gui.Body? ==> st'.gui.x < MAX_NBOP && st'.gui.part < 3)
      && st'.releases[x] == st.releases[x]
      && st'.sh.ops[x].block == (st.sh.ops[x].block + Reported(st, run, x, endTime)) % 0x1_0000_0000
      && (UPLOAD in st'.sh.ops[x].oflags <==> UPLOAD in st.sh.ops[x].oflags || Marked(st, run, x, true, endTime))
      && (DOWNLOAD in st'.sh.ops[x].oflags <==> DOWNLOAD in st.sh.ops[x].oflags || Marked(st, run, x, false, endTime))
  {
    hide Step, WritesTo;
    if run == [] {
    } else {
      var before, a := run[..|run| - 1], run[|run| - 1];
      EntryTellsProgress(st, before, x, endTime);
      var mid := RunFrom(st, before, endTime);
      StepTells(mid, a, x, endTime);
      if a.Advance? {
        AddModulo(st.sh.ops[x].block + Reported(st, before, x, endTime), a.v);
      }
    }
  }

  /** Ending an operation marks it as ended; an upload is then shown as complete, a download as far as it came. */
  lemma EndedShown(st: State, p: nat, x: nat, endTime: int)
    requires Framed(st) && x < MAX_NBOP && WritesTo(st, Finish(p), x)
    ensures var op, op' := st.sh.ops[x], Step(st, Finish(p), endTime).sh.ops[x];
      && op'.oflags == op.oflags + {END}
      && (UPLOAD in op.oflags ==> op'.block == op'.totalBlock == 1)
      && (UPLOAD !in op.oflags ==> op'.block == op.block && op'.totalBlock == op.totalBlock)
  {
  }

  // ----- When the GUI takes an operation for dead

  /** The watch of a slot after looks at the times and counts listed, as long as the operation is live. */
  function WatchAfter(w: Watch, looks: seq<(int, nat)>): Watch {
    if looks == [] then w
    else
      var (t, b) := looks[|looks| - 1];
      CheckTimeout(Operation({ENABLE}, b, 0), WatchAfter(w, looks[..|looks| - 1]), t).1
  }

  predicate NotBackwards(looks: seq<(int, nat)>) {
    forall i :: 0 < i < |looks| ==> looks[i - 1].0 <= looks[i].0
  }

  /** From look `j` on the count has been the same, and it was another one before. */
  predicate StuckSince(w: Watch, looks: seq<(int, nat)>, j: nat) {
    && j < |looks|
    && (forall i :: j <= i < |looks| ==> looks[i].1 == looks[j].1)
    && (if j == 0 then w.seenBlock else looks[j - 1].1) != looks[j].1
  }

  lemma {:induction false} WatchRemembers(w: Watch, looks: seq<(int, nat)>)
    ensures looks != [] ==> WatchAfter(w, looks).seenBlock == looks[|looks| - 1].1
    ensures WatchAfter(w, looks).endAt == w.endAt
  {
    if looks != [] {
      WatchRemembers(w, looks[..|looks| - 1]);
    }
  }

  lemma {:induction false} WatchKeepsTime(w: Watch, looks: seq<(int, nat)>, j: nat)
    requires NotBackwards(looks) && StuckSince(w, looks, j)
    ensures WatchAfter(w, looks).seenAt == looks[j].0 <= looks[|looks| - 1].0
    ensures WatchAfter(w, looks).seenBlock == looks[j].1
  {
    var n := |looks| - 1;
    WatchRemembers(w, looks);
    WatchRemembers(w, looks[..n]);
    if j < n {
      assert StuckSince(w, looks[..n], j);
      WatchKeepsTime(w, looks[..n], j);
    }
  }

  /** A live operation is marked as timed out at a look exactly if its count has not changed for more than three
      seconds of looks, and else left alone. A change of the count starts the time afresh.
   */
  lemma TimedOutExactlyWhen(op: Operation, w: Watch, looks: seq<(int, nat)>, j: nat, t: int)
    requires NotBackwards(looks) && StuckSince(w, looks, j) && looks[|looks| - 1].0 <= t
    requires ENABLE in op.oflags && END !in op.oflags && TIMEOUT !in op.oflags
    ensures CheckTimeout(op, WatchAfter(w, looks), t).0 ==
      if op.block == looks[j].1 && t - looks[j].0 > 3 then op.(oflags := op.oflags + {END, TIMEOUT}) else op
  {
    WatchKeepsTime(w, looks, j);
    assert op.oflags + {END} + {TIMEOUT} == op.oflags + {END, TIMEOUT};
  }

  /** A clock that was set back starts the time afresh, too. */
  lemma ClockSetBack(op: Operation, w: Watch, t: int, u: int)
    requires ENABLE in op.oflags && END !in op.oflags && TIMEOUT !in op.oflags
    requires w.seenBlock == op.block && t < w.seenAt && t <= u
    ensures var (op', w') := CheckTimeout(op, w, t);
      && op' == op
      && CheckTimeout(op, w', u).0 == if u - t > 3 then op.(oflags := op.oflags + {END, TIMEOUT}) else op
  {
    assert op.oflags + {END} + {TIMEOUT} == op.oflags + {END, TIMEOUT};
  }

  /** An ended operation stays on display for the delay: its slot is released in the first pass that is later. */
  lemma ReleasedExactlyWhen(op: Operation, w: Watch, t: int, u: int, endTime: int)
    requires w.endAt == 0 && t + endTime != 0
    ensures END !in op.oflags ==> CheckEnd(op, w, t, endTime) == w && !Expired(w, u)
    ensures END in op.oflags ==>
      var w' := CheckEnd(op, w, t, endTime);
      && CheckEnd(op, w', u, endTime) == w'
      && (Expired(w', u) <==> u > t + endTime)
  {
  }
}
