/** Many servers and one GUI, interleaved step by step around the slot table and a signal. */
module SlotRuns {
  import opened SlotTable

  /** A server before and after it got its slot; between `Allocated` and `Running` it signals the GUI. `released`
      records that the GUI has dropped the slot meanwhile.
   */
  datatype ServerPhase = Starting | Allocated | Running | Ended | Gone

  datatype Server = Server(phase: ServerPhase, opid: nat, released: bool)

  /** Where the GUI is: between two timer ticks, in part 0, 1 or 2 of the loop body for slot `x`, committed to sleep
      after it saw no operation, or inside `sigwait`.
   */
  datatype GuiPoint = Ready | Body(x: nat, part: nat, now: int) | Committed | Sleeping

  /** `pending` is the blocked SIGUSR1. `noFree` records that the exit "No free id found" was taken; `passes` and
      `releases` record, for each slot, when its loop body was completed and how often it was released.
   */
  datatype State = State(sh: Shared, servers: map<nat, Server>, gui: GuiPoint, watches: seq<Watch>, pending: bool,
                         clock: int, noFree: bool, passes: seq<seq<int>>, releases: seq<nat>)

  datatype Action =
    | Spawn(p: nat) | Alloc(p: nat) | Signal(p: nat) | Exit(p: nat)
    | MarkUpload(p: nat) | MarkDownload(p: nat) | SetTotal(p: nat, v: nat) | Advance(p: nat, v: nat) | Finish(p: nat)
    | Tick(now: int) | Monitor | FallAsleep | WakeUp

  function Initial(): State {
    var idle := Operation({}, 0, 0);
    State(Shared(0, [idle, idle, idle, idle, idle]), map[], Ready, [Watch(0, 0, 0), Watch(0, 0, 0), Watch(0, 0, 0),
          Watch(0, 0, 0), Watch(0, 0, 0)], false, 1, false, [[], [], [], [], []], [0, 0, 0, 0, 0])
  }

  /** The slot is still this server's own. */
  predicate Holds(s: Server) {
    (s.phase == Allocated || s.phase == Running || s.phase == Ended) && !s.released
  }

  predicate IsWrite(a: Action) {
    a.MarkUpload? || a.MarkDownload? || a.SetTotal? || a.Advance? || a.Finish?
  }

  /** What a write does to the writer's slot. */
  function Written(op: Operation, a: Action): Operation
    requires IsWrite(a)
  {
    match a
    case MarkUpload(_) => SetFlag(op, UPLOAD)
    case MarkDownload(_) => SetFlag(op, DOWNLOAD)
    case SetTotal(_, v) => op.(totalBlock := v % TWO_32)
    case Advance(_, v) => Increment(op, v)
    case Finish(_) => EndOperation(op)
  }

  function ServerWrites(st: State, a: Action): State
    requires IsWrite(a)
  {
    if a.p !in st.servers || st.servers[a.p].phase != Running then st
    else
      var s := st.servers[a.p];
      if s.opid >= |st.sh.ops| then st
      else st.(sh := st.sh.(ops := st.sh.ops[s.opid := Written(st.sh.ops[s.opid], a)]),
               servers := if a.Finish? then st.servers[a.p := s.(phase := Ended)] else st.servers)
  }

  function ServerAllocates(st: State, p: nat): State {
    if p !in st.servers || st.servers[p].phase != Starting then st
    else
      var (sh', result) := Allocate(st.sh);
      match result
      case TooMany => st.(servers := st.servers[p := Server(Gone, 0, false)])
      case NoFreeId => st.(servers := st.servers[p := Server(Gone, 0, false)], noFree := true)
      case Granted(x) => st.(sh := sh', servers := st.servers[p := Server(Allocated, x, false)])
  }

  /** Whoever holds slot `x` loses it. */
  function Dropped(servers: map<nat, Server>, x: nat): map<nat, Server> {
    map p | p in servers ::
      if Holds(servers[p]) && servers[p].opid == x then servers[p].(released := true) else servers[p]
  }

  function Monitors(st: State, endTime: int): State
    requires st.gui.Body?
  {
    var Body(x, part, now) := st.gui;
    if x >= |st.sh.ops| || x >= |st.watches| || x >= |st.passes| || x >= |st.releases| then st
    else if part == 0 then
      var (op, w) := CheckTimeout(st.sh.ops[x], st.watches[x], now);
      st.(sh := st.sh.(ops := st.sh.ops[x := op]), watches := st.watches[x := w], gui := Body(x, 1, now))
    else if part == 1 then
      st.(watches := st.watches[x := CheckEnd(st.sh.ops[x], st.watches[x], now, endTime)], gui := Body(x, 2, now))
    else
      var st' := st.(passes := st.passes[x := st.passes[x] + [now]],
                     gui := if x + 1 == MAX_NBOP then Ready else Body(x + 1, 0, now));
      if !Expired(st.watches[x], now) then st'
      else st'.(sh := Release(st.sh, x), watches := st.watches[x := st.watches[x].(endAt := 0)],
                servers := Dropped(st.servers, x), releases := st.releases[x := st.releases[x] + 1])
  }

  /** One step; an action that is not possible leaves the state alone. */
  function Step(st: State, a: Action, endTime: int): State {
    if IsWrite(a) then ServerWrites(st, a)
    else match a
      case Spawn(p) => if p in st.servers then st else st.(servers := st.servers[p := Server(Starting, 0, false)])
      case Alloc(p) => ServerAllocates(st, p)
      case Signal(p) =>
        if p in st.servers && st.servers[p].phase == Allocated
        then st.(servers := st.servers[p := st.servers[p].(phase := Running)], pending := true) else st
      case Exit(p) =>
        if p in st.servers && (st.servers[p].phase == Running || st.servers[p].phase == Ended)
        then st.(servers := st.servers[p := st.servers[p].(phase := Gone)]) else st
      case Tick(now) =>
        if st.gui == Ready
        then st.(clock := now, gui := if st.sh.nb == 0 then Committed else Body(0, 0, now)) else st
      case Monitor => if st.gui.Body? then Monitors(st, endTime) else st
      case FallAsleep => if st.gui == Committed then st.(gui := Sleeping) else st
      case WakeUp => if st.gui == Sleeping && st.pending then st.(gui := Ready, pending := false) else st
      case _ => st
  }

  /** No server ends its operation in a slot that is not enabled any more. */
  predicate Obeys(st: State, a: Action) {
    a.Finish? && a.p in st.servers && st.servers[a.p].phase == Running && st.servers[a.p].opid < |st.sh.ops| ==>
      ENABLE in st.sh.ops[st.servers[a.p].opid].oflags
  }

  function RunFrom(st: State, run: seq<Action>, endTime: int): State {
    if run == [] then st else Step(RunFrom(st, run[..|run| - 1], endTime), run[|run| - 1], endTime)
  }

  predicate Disciplined(st: State, run: seq<Action>, endTime: int) {
    run == [] ||
    (Disciplined(st, run[..|run| - 1], endTime) && Obeys(RunFrom(st, run[..|run| - 1], endTime), run[|run| - 1]))
  }

  // ----- The invariant

  /** The table and what the GUI keeps about it have their size. */
  predicate Framed(st: State) {
    |st.sh.ops| == |st.watches| == |st.passes| == |st.releases| == MAX_NBOP
  }

  predicate TableInv(st: State) {
    && Framed(st)
    && st.sh.nb == CountEnabled(st.sh.ops)
    && (forall x :: 0 <= x < MAX_NBOP ==> END in st.sh.ops[x].oflags ==> ENABLE in st.sh.ops[x].oflags)
    && (forall x :: 0 <= x < MAX_NBOP ==> TIMEOUT in st.sh.ops[x].oflags ==> END in st.sh.ops[x].oflags)
    && (forall x :: 0 <= x < MAX_NBOP ==> st.watches[x].endAt != 0 ==> END in st.sh.ops[x].oflags)
    && (st.gui.Body? ==> st.gui.x < MAX_NBOP && st.gui.part < 3)
    && !st.noFree
  }

  /** No two servers hold the same slot. */
  predicate Exclusive(servers: map<nat, Server>) {
    forall p, q :: p in servers && q in servers && p != q && Holds(servers[p]) && Holds(servers[q]) ==>
      servers[p].opid != servers[q].opid
  }

  /** Whoever holds a slot holds an enabled one. */
  predicate HoldEnabled(servers: map<nat, Server>, ops: seq<Operation>) {
    forall p :: p in servers && Holds(servers[p]) ==>
      servers[p].opid < |ops| && ENABLE in ops[servers[p].opid].oflags
  }

  predicate OwnersInv(st: State) {
    Exclusive(st.servers) && HoldEnabled(st.servers, st.sh.ops)
  }

  /** A server may change its state if it takes no slot that someone else holds. */
  lemma ReplaceServer(servers: map<nat, Server>, p: nat, s: Server)
    requires Exclusive(servers)
    requires Holds(s) ==> forall q :: q in servers && q != p && Holds(servers[q]) ==> servers[q].opid != s.opid
    ensures Exclusive(servers[p := s])
  {
  }

  /** A GUI that is going to sleep, or sleeps, while operations run is about to be woken. */
  predicate WakeUpInv(st: State) {
    (st.gui == Committed || st.gui == Sleeping) && st.sh.nb > 0 ==>
      st.pending || exists p :: p in st.servers && st.servers[p].phase == Allocated
  }

  predicate Inv(st: State) {
    TableInv(st) && OwnersInv(st) && WakeUpInv(st)
  }

  lemma InitialInv()
    ensures Inv(Initial())
  {
    var ops := Initial().sh.ops;
    assert forall x :: 0 <= x < |ops| ==> ops[x].oflags == {};
    NoneEnabled(ops);
  }

  lemma {:induction false} NoneEnabled(ops: seq<Operation>)
    requires forall x :: 0 <= x < |ops| ==> ENABLE !in ops[x].oflags
    ensures CountEnabled(ops) == 0
  {
    if ops == [] {
    } else {
      NoneEnabled(ops[..|ops| - 1]);
    }
  }

  /** Once the count test has passed, the search finds a slot: the exit "No free id found" is never taken. */
  lemma AllocationSucceeds(sh: Shared)
    requires |sh.ops| == MAX_NBOP && sh.nb == CountEnabled(sh.ops)
    ensures Allocate(sh).1 != NoFreeId
    ensures Allocate(sh).1 == TooMany <==> CountEnabled(sh.ops) == MAX_NBOP
  {
    CountBounds(sh.ops, 0);
    if FirstFree(sh.ops, 0) == |sh.ops| {
      AllEnabled(sh.ops);
    }
  }

  /** As long as nobody leaves the gap between allocation and signal unsignalled, the wake-up stays due. */
  lemma WakeUpStaysDue(st: State, st': State)
    requires WakeUpInv(st) && st'.gui == st.gui && (st'.sh.nb > 0 ==> st.sh.nb > 0) && (st.pending ==> st'.pending)
    requires forall q :: q in st.servers && st.servers[q].phase == Allocated ==>
               st'.pending || (q in st'.servers && st'.servers[q].phase == Allocated)
    ensures WakeUpInv(st')
  {
    if (st.gui == Committed || st.gui == Sleeping) && st'.sh.nb > 0 && !st'.pending {
      var q :| q in st.servers && st.servers[q].phase == Allocated;
      assert q in st'.servers && st'.servers[q].phase == Allocated;
    }
  }

  lemma AllocKeepsTable(st: State, p: nat)
    requires TableInv(st)
    ensures TableInv(ServerAllocates(st, p))
  {
    AllocationSucceeds(st.sh);
    if Allocate(st.sh).1.Granted? {
      var x := FirstFree(st.sh.ops, 0);
      CountUpdate(st.sh.ops, x, st.sh.ops[x].(oflags := {ENABLE}, block := 0));
      CountBounds(st.sh.ops, x);
    }
    hide CountEnabled;
  }

  /** Enabling a slot and giving it to a server leaves all other holders where they are. */
  lemma GrantKeepsOwners(servers: map<nat, Server>, ops: seq<Operation>, p: nat, x: nat, op: Operation)
    requires Exclusive(servers) && HoldEnabled(servers, ops)
    requires x < |ops| && ENABLE !in ops[x].oflags && ENABLE in op.oflags
    ensures Exclusive(servers[p := Server(Allocated, x, false)])
    ensures HoldEnabled(servers[p := Server(Allocated, x, false)], ops[x := op])
  {
    hide Exclusive;
    ReplaceServer(servers, p, Server(Allocated, x, false));
  }

  lemma AllocKeepsOwners(st: State, p: nat)
    requires |st.sh.ops| == MAX_NBOP && OwnersInv(st)
    ensures OwnersInv(ServerAllocates(st, p))
  {
    hide Exclusive, HoldEnabled;
    var x := FirstFree(st.sh.ops, 0);
    KeepOrLose(st.servers, st.sh.ops, p, Server(Gone, 0, false));
    if x < MAX_NBOP {
      GrantKeepsOwners(st.servers, st.sh.ops, p, x, st.sh.ops[x].(oflags := {ENABLE}, block := 0));
    }
  }

  lemma AllocKeepsInv(st: State, p: nat)
    requires Inv(st)
    ensures Inv(ServerAllocates(st, p))
  {
    AllocKeepsTable(st, p);
    AllocKeepsOwners(st, p);
    var st' := ServerAllocates(st, p);
    if p in st.servers && st.servers[p].phase == Starting && Allocate(st.sh).1.Granted? {
      assert p in st'.servers && st'.servers[p].phase == Allocated;
    } else {
      WakeUpStaysDue(st, st');
    }
    hide TableInv, OwnersInv;
  }

  /** A write adds flags: END if it ends the operation, never ENABLE or TIMEOUT. */
  lemma WrittenFlags(op: Operation, a: Action)
    requires IsWrite(a)
    ensures op.oflags <= Written(op, a).oflags
    ensures ENABLE in Written(op, a).oflags <==> ENABLE in op.oflags
    ensures TIMEOUT in Written(op, a).oflags <==> TIMEOUT in op.oflags
    ensures END in Written(op, a).oflags <==> END in op.oflags || a.Finish?
  {
  }

  lemma WriteKeepsTable(st: State, a: Action)
    requires TableInv(st) && IsWrite(a) && Obeys(st, a)
    ensures TableInv(ServerWrites(st, a)) && ServerWrites(st, a).sh.nb == st.sh.nb
  {
    hide CountEnabled, Written;
    if a.p in st.servers && st.servers[a.p].phase == Running && st.servers[a.p].opid < MAX_NBOP {
      var x := st.servers[a.p].opid;
      WrittenFlags(st.sh.ops[x], a);
      CountUpdate(st.sh.ops, x, Written(st.sh.ops[x], a));
    }
  }

  lemma EnabledStays(servers: map<nat, Server>, ops: seq<Operation>, x: nat, op: Operation)
    requires HoldEnabled(servers, ops) && x < |ops| && (ENABLE in ops[x].oflags ==> ENABLE in op.oflags)
    ensures HoldEnabled(servers, ops[x := op])
  {
  }

  /** No write takes a slot from its owner. */
  lemma WriteKeepsOwners(st: State, a: Action)
    requires OwnersInv(st) && IsWrite(a)
    ensures OwnersInv(ServerWrites(st, a))
  {
    hide Exclusive, HoldEnabled, Written;
    if a.p in st.servers && st.servers[a.p].phase == Running && st.servers[a.p].opid < |st.sh.ops| {
      var x := st.servers[a.p].opid;
      WrittenFlags(st.sh.ops[x], a);
      EnabledStays(st.servers, st.sh.ops, x, Written(st.sh.ops[x], a));
      KeepOrLose(st.servers, st.sh.ops[x := Written(st.sh.ops[x], a)], a.p, st.servers[a.p].(phase := Ended));
    }
  }

  lemma WriteKeepsInv(st: State, a: Action)
    requires Inv(st) && IsWrite(a) && Obeys(st, a)
    ensures Inv(ServerWrites(st, a))
  {
    WriteKeepsTable(st, a);
    WriteKeepsOwners(st, a);
    WakeUpStaysDue(st, ServerWrites(st, a));
    hide TableInv, OwnersInv;
  }

  lemma MonitorKeepsTable(st: State, endTime: int)
    requires TableInv(st) && st.gui.Body?
    ensures TableInv(Monitors(st, endTime))
  {
    var x := st.gui.x;
    if st.gui.part == 0 {
      CountUpdate(st.sh.ops, x, CheckTimeout(st.sh.ops[x], st.watches[x], st.gui.now).0);
    } else if st.gui.part == 2 && Expired(st.watches[x], st.gui.now) {
      CountUpdate(st.sh.ops, x, st.sh.ops[x].(oflags := {}));
      CountBounds(st.sh.ops, x);
    }
    hide CountEnabled;
  }

  lemma MonitorKeepsOwners(st: State, endTime: int)
    requires Framed(st) && OwnersInv(st) && st.gui.Body?
    ensures OwnersInv(Monitors(st, endTime))
  {
    hide Exclusive, HoldEnabled, Dropped;
    var Body(x, part, now) := st.gui;
    if x < MAX_NBOP {
      DropKeepsExclusive(st.servers, x);
      DropKeepsEnabled(st.servers, st.sh.ops, x, st.sh.ops[x].(oflags := {}));
      EnabledStays(st.servers, st.sh.ops, x, CheckTimeout(st.sh.ops[x], st.watches[x], now).0);
    }
    hide CheckEnd, Expired;
  }

  lemma DropKeepsEnabled(servers: map<nat, Server>, ops: seq<Operation>, x: nat, op: Operation)
    requires Exclusive(servers) && HoldEnabled(servers, ops) && x < |ops|
    ensures HoldEnabled(Dropped(servers, x), ops[x := op])
  {
    DropKeepsExclusive(servers, x);
    hide Exclusive;
  }

  lemma DropKeepsExclusive(servers: map<nat, Server>, x: nat)
    requires Exclusive(servers)
    ensures Exclusive(Dropped(servers, x))
    ensures forall p :: p in Dropped(servers, x) && Holds(Dropped(servers, x)[p]) ==>
              p in servers && Holds(servers[p]) && Dropped(servers, x)[p].opid == servers[p].opid != x
  {
  }

  lemma MonitorKeepsInv(st: State, endTime: int)
    requires Inv(st) && st.gui.Body?
    ensures Inv(Monitors(st, endTime))
  {
    MonitorKeepsTable(st, endTime);
    MonitorKeepsOwners(st, endTime);
    hide TableInv, OwnersInv;
  }

  /** END in a slot that is not enabled contradicts the table invariant. */
  lemma LateFinishBreaksInv(st: State, a: Action)
    requires IsWrite(a) && Inv(st) && !Obeys(st, a)
    ensures !Inv(ServerWrites(st, a))
  {
    hide CountEnabled;
    var x := st.servers[a.p].opid;
    var op := ServerWrites(st, a).sh.ops[x];
    assert END in op.oflags && ENABLE !in op.oflags;
  }

  /** A step keeps the invariant exactly when it does not end an operation in a slot that is not enabled any more. */
  lemma StepKeepsInv(st: State, a: Action, endTime: int)
    requires Inv(st)
    ensures Inv(Step(st, a, endTime)) <==> Obeys(st, a)
  {
    if IsWrite(a) {
      if Obeys(st, a) {
        WriteKeepsInv(st, a);
      } else {
        LateFinishBreaksInv(st, a);
      }
    } else if a.Alloc? {
      AllocKeepsInv(st, a.p);
    } else if a.Monitor? && st.gui.Body? {
      MonitorKeepsInv(st, endTime);
    } else if a.Spawn? || a.Signal? || a.Exit? {
      ServerMovesKeepInv(st, a, endTime);
    } else {
      GuiMovesKeepInv(st, a, endTime);
    }
    hide Inv;
  }

  /** In particular every step keeps it in which nobody writes to a slot that the GUI has taken away. */
  lemma OwnersObey(st: State, a: Action)
    requires Inv(st) && (a.Finish? && a.p in st.servers ==> !st.servers[a.p].released)
    ensures Obeys(st, a)
  {
    hide TableInv, WakeUpInv, Exclusive;
  }

  /** A server that at most gives up its slot disturbs nobody. */
  lemma KeepOrLose(servers: map<nat, Server>, ops: seq<Operation>, p: nat, s: Server)
    requires Exclusive(servers) && HoldEnabled(servers, ops)
    requires Holds(s) ==> p in servers && Holds(servers[p]) && s.opid == servers[p].opid
    ensures Exclusive(servers[p := s]) && HoldEnabled(servers[p := s], ops)
  {
    ReplaceServer(servers, p, s);
  }

  lemma ServerMovesKeepOwners(st: State, a: Action, endTime: int)
    requires OwnersInv(st) && (a.Spawn? || a.Signal? || a.Exit?)
    ensures var st' := Step(st, a, endTime);
      OwnersInv(st') && st' == st.(servers := st'.servers, pending := st'.pending)
  {
    hide Exclusive, HoldEnabled;
    KeepOrLose(st.servers, st.sh.ops, a.p, Server(Starting, 0, false));
    if a.p in st.servers {
      var s := st.servers[a.p];
      KeepOrLose(st.servers, st.sh.ops, a.p, if s.phase == Allocated then s.(phase := Running) else s);
      KeepOrLose(st.servers, st.sh.ops, a.p, s.(phase := Gone));
    }
  }

  lemma ServerMovesKeepInv(st: State, a: Action, endTime: int)
    requires Inv(st) && (a.Spawn? || a.Signal? || a.Exit?)
    ensures Inv(Step(st, a, endTime))
  {
    hide CountEnabled, OwnersInv;
    ServerMovesKeepOwners(st, a, endTime);
    WakeUpStaysDue(st, Step(st, a, endTime));
    hide WakeUpInv;
  }

  lemma GuiMovesKeepInv(st: State, a: Action, endTime: int)
    requires Inv(st) && (a.Tick? || a.FallAsleep? || a.WakeUp? || (a.Monitor? && !st.gui.Body?))
    ensures Inv(Step(st, a, endTime))
  {
    hide CountEnabled;
    assert Step(st, a, endTime).servers == st.servers;
  }

  /** In every interleaving in which no operation is ended too late, the table stays consistent. */
  lemma {:induction false} RunKeepsInv(st: State, run: seq<Action>, endTime: int)
    requires Inv(st) && Disciplined(st, run, endTime)
    ensures Inv(RunFrom(st, run, endTime))
  {
    if run == [] {
    } else {
      RunKeepsInv(st, run[..|run| - 1], endTime);
      StepKeepsInv(RunFrom(st, run[..|run| - 1], endTime), run[|run| - 1], endTime);
    }
  }

  /** All states of a run satisfy the invariant. */
  predicate AlwaysConsistent(st: State, run: seq<Action>, endTime: int) {
    Inv(RunFrom(st, run, endTime)) && (run == [] || AlwaysConsistent(st, run[..|run| - 1], endTime))
  }

  /** And only in these: a run is consistent throughout exactly when no step of it ends an operation too late. */
  lemma {:induction false} ConsistentExactlyWhen(st: State, run: seq<Action>, endTime: int)
    requires Inv(st)
    ensures AlwaysConsistent(st, run, endTime) <==> Disciplined(st, run, endTime)
  {
    hide Inv, Step, Obeys;
    if run == [] {
    } else {
      var before := run[..|run| - 1];
      ConsistentExactlyWhen(st, before, endTime);
      if Inv(RunFrom(st, before, endTime)) {
        StepKeepsInv(RunFrom(st, before, endTime), run[|run| - 1], endTime);
      }
    }
  }

  // ----- What the invariant means for the users of the table

  /** What the users of the table rely on: the counter is the number of enabled slots and at most 5, owners never share
      a slot, an end time is pending only for an enabled slot that has ended, and allocation has never run into a full
      table after the count test.
   */
  predicate Orderly(st: State) {
    && |st.sh.ops| == |st.watches| == MAX_NBOP
    && st.sh.nb == CountEnabled(st.sh.ops) <= MAX_NBOP
    && Exclusive(st.servers)
    && (forall x :: 0 <= x < MAX_NBOP && st.watches[x].endAt != 0 ==> {ENABLE, END} <= st.sh.ops[x].oflags)
    && !st.noFree
  }

  lemma InvIsOrderly(st: State)
    requires Inv(st)
    ensures Orderly(st)
  {
    CountBounds(st.sh.ops, 0);
    hide CountEnabled, Exclusive, HoldEnabled, WakeUpInv;
  }

  /** The table stays in order, for any clock. */
  lemma TableConsistent(run: seq<Action>, endTime: int)
    requires Disciplined(Initial(), run, endTime)
    ensures Orderly(RunFrom(Initial(), run, endTime))
  {
    InitialInv();
    RunKeepsInv(Initial(), run, endTime);
    InvIsOrderly(RunFrom(Initial(), run, endTime));
    hide Inv, Orderly;
  }

  /** The GUI never sleeps through an operation: while it is committed to or inside `sigwait` and operations run, the
      signal is pending or some server sits between its allocation and its signal.
   */
  lemma NoLostWakeUp(run: seq<Action>, endTime: int)
    requires Disciplined(Initial(), run, endTime)
    ensures var st := RunFrom(Initial(), run, endTime);
      (st.gui == Committed || st.gui == Sleeping) && CountEnabled(st.sh.ops) > 0 ==>
        st.pending || exists p :: p in st.servers && st.servers[p].phase == Allocated
  {
    InitialInv();
    RunKeepsInv(Initial(), run, endTime);
  }
}
