/** Exactly when a transfer can still be completed: from which states some course of events leads to the end. */
module Progress {
  import opened BlockNumbers
  import opened Chunks
  import opened Machines
  import opened MachineRuns
  import opened LossyLink
  import opened RolloverLimit

  /** The state after further actions. */
  function ActAll(c: Config, st: State, run: seq<Action>): State
    decreases |run|
  {
    if run == [] then st else ActAll(c, Act(c, st, run[0]), run[1..])
  }

  lemma {:induction false} ReachedOn(c: Config, before: seq<Action>, run: seq<Action>)
    ensures Reached(c, before + run) == ActAll(c, Reached(c, before), run)
    decreases |run|
  {
    hide Act;
    if run == [] {
      assert before + run == before;
    } else {
      ReachedSnoc(c, before, run[0]);
      ReachedOn(c, before + [run[0]], run[1..]);
      assert before + run == before + [run[0]] + run[1..];
    }
  }

  /** Some continuation makes the sender finish, and then the receiver has the whole file. */
  ghost predicate CanComplete(c: Config, st: State) {
    exists run :: ActAll(c, st, run).s.phase == Finished
  }

  /** A retransmission timer that may go off once more. */
  predicate TryLeft(c: Config, t: Timer) {
    !GivesUp(c, Expire(t))
  }

  /** What it takes. If the receiver lacks the block in flight: a copy of it on its way, or one the sender can still
      send. If the receiver has it: an acknowledgement on its way, one that the receiver can still send by itself, or a
      copy of the block, on its way or still to be sent, that makes it answer. The block numbered 65535 does not.
   */
  predicate Hope(c: Config, st: State) {
    var a, n := st.s.acked, |st.r.accepted|;
    match st.s.phase
    case Finished => true
    case AwaitOackReply => st.r.phase == AwaitData && (A(c, 0) in st.acks || TryLeft(c, st.r.timer))
    case AwaitAck =>
      if n == a then
        st.r.phase == AwaitData && (D(c, a) in st.data || TryLeft(c, st.s.timer))
      else match st.r.phase {
        case AwaitData =>
          || A(c, n) in st.acks || TryLeft(c, st.r.timer)
          || (Number(n, c.rollover) != MAX_BLOCK && (D(c, a) in st.data || TryLeft(c, st.s.timer)))
        case Dallying => A(c, n) in st.acks || st.data != [] || TryLeft(c, st.s.timer)
        case Closed => A(c, n) in st.acks
        case _ => false
      }
    case _ => false
  }

  // ----- Hope is justified

  lemma CompleteAfter(c: Config, st: State, a: Action)
    requires CanComplete(c, Act(c, st, a))
    ensures CanComplete(c, st)
  {
    hide Act;
    var run :| ActAll(c, Act(c, st, a), run).s.phase == Finished;
    assert ([a] + run)[1..] == run;
    assert ActAll(c, st, [a] + run).s.phase == Finished;
  }

  lemma CompleteNow(c: Config, st: State)
    requires st.s.phase == Finished
    ensures CanComplete(c, st)
  {
    assert ActAll(c, st, []) == st;
  }

  /** All packets but one may be lost, or all of them. */
  lemma {:induction false} KeepOneData(c: Config, st: State, i: nat)
    requires i < |st.data| && CanComplete(c, st.(data := [st.data[i]]))
    ensures CanComplete(c, st)
    decreases |st.data|
  {
    hide CanComplete;
    if |st.data| == 1 {
      assert st.data == [st.data[i]];
    } else {
      var j := if i == 0 then 1 else 0;
      var st' := Act(c, st, LoseData(j));
      KeepOneData(c, st', if i == 0 then 0 else i - 1);
      CompleteAfter(c, st, LoseData(j));
    }
  }

  lemma {:induction false} KeepOneAck(c: Config, st: State, i: nat)
    requires i < |st.acks| && CanComplete(c, st.(acks := [st.acks[i]]))
    ensures CanComplete(c, st)
    decreases |st.acks|
  {
    hide CanComplete;
    if |st.acks| == 1 {
      assert st.acks == [st.acks[i]];
    } else {
      var j := if i == 0 then 1 else 0;
      var st' := Act(c, st, LoseAck(j));
      KeepOneAck(c, st', if i == 0 then 0 else i - 1);
      CompleteAfter(c, st, LoseAck(j));
    }
  }

  lemma {:induction false} KeepNoData(c: Config, st: State)
    requires CanComplete(c, st.(data := []))
    ensures CanComplete(c, st)
    decreases |st.data|
  {
    hide CanComplete;
    if st.data == [] {
      assert st.(data := []) == st;
    } else {
      KeepNoData(c, Act(c, st, LoseData(0)));
      CompleteAfter(c, st, LoseData(0));
    }
  }

  lemma {:induction false} KeepNoAcks(c: Config, st: State)
    requires CanComplete(c, st.(acks := []))
    ensures CanComplete(c, st)
    decreases |st.acks|
  {
    hide CanComplete;
    if st.acks == [] {
      assert st.(acks := []) == st;
    } else {
      KeepNoAcks(c, Act(c, st, LoseAck(0)));
      CompleteAfter(c, st, LoseAck(0));
    }
  }

  /** From lock step the transfer completes without further losses. */
  lemma {:induction false} LockstepCompletes(c: Config, st: State, k: nat)
    requires c.Valid() && k < c.Count() && InLockstep(c, st, k)
    ensures CanComplete(c, st)
    decreases c.Count() - k
  {
    hide CanComplete, Act, ReceiverInStep, Chunk, BlockCount;
    var st1 := Act(c, st, DeliverData);
    var st2 := Act(c, st1, DeliverAck);
    if k + 1 == c.Count() {
      LastInLockstep(c, st, k);
      CompleteNow(c, st2);
    } else {
      DeliverInLockstep(c, st, k);
      AcknowledgeInLockstep(c, st1);
      LockstepCompletes(c, st2, k + 1);
    }
    CompleteAfter(c, st1, DeliverAck);
    CompleteAfter(c, st, DeliverData);
  }

  /** The receiver lacks the block in flight and a copy is on its way. */
  lemma BlockCompletes(c: Config, st: State)
    requires c.Valid() && EndsAgree(c, st.s, st.r) && st.s.phase == AwaitAck && st.r.phase == AwaitData
    requires |st.r.accepted| == st.s.acked && D(c, st.s.acked) in st.data
    ensures CanComplete(c, st)
  {
    hide CanComplete, ReceiverInStep, Number, Chunk, Blocks;
    var i :| 0 <= i < |st.data| && st.data[i] == D(c, st.s.acked);
    var st1 := st.(data := [st.data[i]]);
    LockstepCompletes(c, st1.(acks := []), st.s.acked);
    KeepNoAcks(c, st1);
    KeepOneData(c, st, i);
  }

  /** The receiver has the block in flight and its acknowledgement is on its way. */
  lemma AckCompletes(c: Config, st: State)
    requires c.Valid() && EndsAgree(c, st.s, st.r) && st.s.phase == AwaitAck
    requires st.r.phase == AwaitData || st.r.phase == Dallying || st.r.phase == Closed
    requires |st.r.accepted| == st.s.acked + 1 && A(c, st.s.acked + 1) in st.acks
    ensures CanComplete(c, st)
  {
    hide CanComplete, ReceiverInStep, Number, Chunk, Blocks;
    var i :| 0 <= i < |st.acks| && st.acks[i] == A(c, st.s.acked + 1);
    var st1 := st.(acks := [st.acks[i]]);
    var st2 := st1.(data := []);
    AckTakenUp(c, st2);
    var st3 := Act(c, st2, DeliverAck);
    if st3.s.phase == Finished {
      CompleteNow(c, st3);
    } else {
      LockstepCompletes(c, st3, st.s.acked + 1);
    }
    CompleteAfter(c, st2, DeliverAck);
    KeepNoData(c, st1);
    KeepOneAck(c, st, i);
  }

  lemma AckTakenUp(c: Config, st: State)
    requires c.Valid() && EndsAgree(c, st.s, st.r) && st.s.phase == AwaitAck
    requires st.r.phase == AwaitData || st.r.phase == Dallying || st.r.phase == Closed
    requires |st.r.accepted| == st.s.acked + 1 && st.acks == [A(c, st.s.acked + 1)] && st.data == []
    ensures var st' := Act(c, st, DeliverAck); st'.s.phase == Finished || InLockstep(c, st', st.s.acked + 1)
    ensures st.s.acked + 1 < c.Count() || Act(c, st, DeliverAck).s.phase == Finished
  {
    hide ReceiverInStep, Number, Chunk, Blocks;
    var a := st.s.acked;
    ChunkLength(c.stream, c.segsize, a);
    NumberNext(a + 1, c.rollover);
  }

  lemma NumberNext(n: nat, r: U16)
    ensures Number(n + 1, r) == Next(Number(n, r), r)
  {
  }

  /** The sender waits for its options to be acknowledged and the acknowledgement is on its way. */
  lemma OackReplyCompletes(c: Config, st: State)
    requires c.Valid() && EndsAgree(c, st.s, st.r) && st.s.phase == AwaitOackReply && st.r.phase == AwaitData
    requires A(c, 0) in st.acks
    ensures CanComplete(c, st)
  {
    assert Number(0, c.rollover) == 0;
    hide CanComplete, ReceiverInStep, Number, Chunk, Blocks;
    var i :| 0 <= i < |st.acks| && st.acks[i] == A(c, 0);
    var st1 := st.(acks := [st.acks[i]]);
    var st2 := st1.(data := []);
    var st3 := Act(c, st2, DeliverAck);
    assert InLockstep(c, st3, 0);
    LockstepCompletes(c, st3, 0);
    CompleteAfter(c, st2, DeliverAck);
    KeepNoData(c, st1);
    KeepOneAck(c, st, i);
  }

  /** What the sender's timer does while a block is in flight and a try is left. */
  lemma SenderTries(c: Config, st: State)
    requires c.Valid() && EndsAgree(c, st.s, st.r) && st.s.phase == AwaitAck && TryLeft(c, st.s.timer)
    ensures var st' := Act(c, st, SenderTimer);
      && st'.r == st.r && st'.acks == st.acks && st'.data == st.data + [D(c, st.s.acked)]
      && st'.s.phase == AwaitAck && st'.s.acked == st.s.acked && EndsAgree(c, st'.s, st'.r)
  {
    hide GivesUp, ReceiverInStep, Number, Chunk, Blocks;
  }

  /** What the receiver's timer does while a try is left. */
  lemma ReceiverTries(c: Config, st: State)
    requires c.Valid() && EndsAgree(c, st.s, st.r) && st.r.phase == AwaitData && TryLeft(c, st.r.timer)
    ensures var st' := Act(c, st, ReceiverTimer);
      && st'.s == st.s && st'.data == st.data && st'.acks == st.acks + [ReplyFor(c, |st.r.accepted|)]
      && st'.r.phase == AwaitData && st'.r.accepted == st.r.accepted && EndsAgree(c, st'.s, st'.r)
  {
    QuietReceiver(c, st.s, st.r, Timeout);
    hide GivesUp, Number, Chunk, Blocks;
  }

  /** How a receiver that has the block in flight takes a copy of it: it answers unless the number is 65535. */
  lemma RepeatTaken(c: Config, s: Sender, r: Receiver)
    requires c.Valid() && EndsAgree(c, s, r) && r.phase == AwaitData && |r.accepted| == s.acked + 1
    requires c.rollover < MAX_BLOCK || Number(|r.accepted|, c.rollover) != MAX_BLOCK
    ensures var (r', out) := ReceiverNext(c, r, Arrive(D(c, s.acked)));
      && out == (if Number(|r.accepted|, c.rollover) == MAX_BLOCK then [] else [A(c, |r.accepted|)])
      && r' == r.(heard := D(c, s.acked)) && EndsAgree(c, s, r')
  {
    NumberNext(|r.accepted|, c.rollover);
    hide Number, Chunk, Blocks;
  }

  lemma FinalTaken(c: Config, st: State)
    requires c.Valid() && EndsAgree(c, st.s, st.r) && st.r.phase == Dallying && st.data != []
    ensures var st' := Act(c, st, DeliverData);
      && st'.s == st.s && st'.acks == st.acks + [A(c, |st.r.accepted|)]
      && st'.r == st.r.(phase := Closed) && EndsAgree(c, st'.s, st'.r)
  {
    hide Number, Chunk, Blocks;
  }

  /** A copy of the block that the receiver already has is on its way, and will be answered. */
  lemma RepeatCompletes(c: Config, st: State)
    requires c.Valid() && EndsAgree(c, st.s, st.r) && st.s.phase == AwaitAck && st.r.phase == AwaitData
    requires |st.r.accepted| == st.s.acked + 1 && Number(|st.r.accepted|, c.rollover) != MAX_BLOCK
    requires D(c, st.s.acked) in st.data
    ensures CanComplete(c, st)
  {
    hide CanComplete, ReceiverInStep, Number, Chunk, Blocks, ReceiverNext;
    var i :| 0 <= i < |st.data| && st.data[i] == D(c, st.s.acked);
    var st1 := st.(data := [st.data[i]]);
    RepeatTaken(c, st.s, st.r);
    AckCompletes(c, Act(c, st1, DeliverData));
    CompleteAfter(c, st1, DeliverData);
    KeepOneData(c, st, i);
  }

  /** The receiver has the block in flight. */
  lemma AheadCompletes(c: Config, st: State)
    requires c.Valid() && EndsAgree(c, st.s, st.r) && Hope(c, st)
    requires st.s.phase == AwaitAck && |st.r.accepted| == st.s.acked + 1
    ensures CanComplete(c, st)
  {
    hide CanComplete, EndsAgree, Act, Number, TryLeft;
    var n := |st.r.accepted|;
    if A(c, n) in st.acks {
      AckCompletes(c, st);
    } else if st.r.phase == AwaitData && TryLeft(c, st.r.timer) {
      ReceiverTries(c, st);
      AckCompletes(c, Act(c, st, ReceiverTimer));
      CompleteAfter(c, st, ReceiverTimer);
    } else if st.r.phase == AwaitData && D(c, st.s.acked) in st.data {
      RepeatCompletes(c, st);
    } else if st.r.phase == AwaitData {
      SenderTries(c, st);
      RepeatCompletes(c, Act(c, st, SenderTimer));
      CompleteAfter(c, st, SenderTimer);
    } else {
      DallyingCompletes(c, st);
    }
  }

  lemma DallyingCompletes(c: Config, st: State)
    requires c.Valid() && EndsAgree(c, st.s, st.r) && st.s.phase == AwaitAck && |st.r.accepted| == st.s.acked + 1
    requires st.r.phase == Dallying && (st.data != [] || TryLeft(c, st.s.timer))
    ensures CanComplete(c, st)
  {
    hide CanComplete, EndsAgree, Act, TryLeft, Number;
    if st.data != [] {
      FinalTaken(c, st);
      AckCompletes(c, Act(c, st, DeliverData));
      CompleteAfter(c, st, DeliverData);
    } else {
      SenderTries(c, st);
      var st' := Act(c, st, SenderTimer);
      FinalTaken(c, st');
      AckCompletes(c, Act(c, st', DeliverData));
      CompleteAfter(c, st', DeliverData);
      CompleteAfter(c, st, SenderTimer);
    }
  }

  lemma HopeCompletes(c: Config, st: State)
    requires c.Valid() && EndsAgree(c, st.s, st.r) && Hope(c, st)
    ensures CanComplete(c, st)
  {
    hide CanComplete, Act, TryLeft, Number, ReceiverInStep, Blocks, Chunk;
    if st.s.phase == Finished {
      CompleteNow(c, st);
    } else if st.s.phase == AwaitOackReply {
      if A(c, 0) in st.acks {
        OackReplyCompletes(c, st);
      } else {
        ReceiverTries(c, st);
        OackReplyCompletes(c, Act(c, st, ReceiverTimer));
        CompleteAfter(c, st, ReceiverTimer);
      }
    } else if |st.r.accepted| == st.s.acked + 1 {
      AheadCompletes(c, st);
    } else if D(c, st.s.acked) in st.data {
      BlockCompletes(c, st);
    } else {
      SenderTries(c, st);
      BlockCompletes(c, Act(c, st, SenderTimer));
      CompleteAfter(c, st, SenderTimer);
    }
  }

  // ----- Nothing else helps

  lemma FewerPackets(ch: seq<Packet>, i: nat)
    ensures forall p :: p in Lose(ch, i) ==> p in ch
    ensures forall p :: p in Repeat(ch, i) ==> p in ch
    ensures (Lose(ch, i) != [] ==> ch != []) && (Repeat(ch, i) != [] ==> ch != [])
  {
  }

  lemma NetworkBringsNoHope(c: Config, st: State, a: Action)
    requires a.LoseData? || a.LoseAck? || a.RepeatData? || a.RepeatAck?
    ensures Hope(c, Act(c, st, a)) ==> Hope(c, st)
  {
    hide Lose, Repeat, TryLeft, Number, Chunk;
    FewerPackets(st.data, a.i);
    FewerPackets(st.acks, a.i);
  }

  lemma SenderTimerBringsNoHope(c: Config, st: State, a: Action)
    requires c.Valid() && EndsAgree(c, st.s, st.r)
    requires a == SenderTimer || a == SenderFails || a == SenderSendFails
    ensures Hope(c, Act(c, st, a)) ==> Hope(c, st)
  {
    hide GivesUp, Number, Chunk, ReceiverInStep, Blocks;
  }

  lemma ReceiverTimerBringsNoHope(c: Config, st: State, a: Action)
    requires c.Valid() && EndsAgree(c, st.s, st.r)
    requires a == ReceiverTimer || a == ReceiverFails || a == ReceiverSendFails
    ensures Hope(c, Act(c, st, a)) ==> Hope(c, st)
  {
    hide GivesUp, Number, Chunk, ReceiverInStep, Blocks;
  }

  lemma AckBringsNoHope(c: Config, st: State)
    requires c.Valid() && Inv(c, st) && Distinct(c) && st.acks != []
    ensures Hope(c, Act(c, st, DeliverAck)) ==> Hope(c, st)
  {
    var p, rest := st.acks[0], st.acks[1..];
    assert forall q :: q in rest ==> q in st.acks;
    assert Number(0, c.rollover) == 0;
    if !Unacknowledged(st.s, Arrive(p)) {
      ExpectedAck(c, st);
      ChunkLength(c.stream, c.segsize, st.s.acked);
    }
    assert p in st.acks;
    hide GivesUp, Number, Chunk, ReceiverInStep, Blocks, DataOrdered, AcksOrdered, NoData;
  }

  /** With distinct numbers a receiver that waits for more has not come to a number that stands still. */
  lemma WrapMovesOn(c: Config, n: nat)
    requires c.Valid() && Distinct(c) && n < c.Count()
    ensures c.rollover < MAX_BLOCK || Number(n, c.rollover) != MAX_BLOCK
  {
    NeighboursDiffer(n, c.rollover);
    NumberNext(n, c.rollover);
    hide Number;
  }

  /** A packet that the receiver does not wait for at most makes it answer a copy of the block in flight. */
  lemma QuietDataBringsNoHope(c: Config, st: State)
    requires c.Valid() && Inv(c, st) && Distinct(c) && st.data != [] && st.r.phase == AwaitData
    requires Quiet(st.r, Arrive(st.data[0]))
    ensures Hope(c, Act(c, st, DeliverData)) ==> Hope(c, st)
  {
    var p, rest, a, n := st.data[0], st.data[1..], st.s.acked, |st.r.accepted|;
    assert forall q :: q in rest ==> q in st.data;
    assert p.Data? && n == a + 1 ==> p == D(c, a);
    assert st.s.phase == AwaitOackReply ==> !p.Data?;
    hide ChannelsAgree, DataOrdered, AcksOrdered, NoData;
    WrapMovesOn(c, n);
    if n == a + 1 {
      RepeatTaken(c, st.s, st.r);
    }
    hide Number, Chunk, ReceiverInStep, Blocks;
  }

  lemma DataBringsNoHope(c: Config, st: State)
    requires c.Valid() && Inv(c, st) && Distinct(c) && st.data != []
    ensures Hope(c, Act(c, st, DeliverData)) ==> Hope(c, st)
  {
    if !Quiet(st.r, Arrive(st.data[0])) {
      ExpectedBlock(c, st);
      ExpectedHadHope(c, st);
    } else if st.r.phase == AwaitData {
      QuietDataBringsNoHope(c, st);
    } else {
      hide Number, Chunk, ReceiverInStep, Blocks, DataOrdered, AcksOrdered, NoData;
      var rest := st.data[1..];
      assert forall q :: q in rest ==> q in st.data;
    }
  }

  /** If the block that the receiver lacks is arriving there is hope, unless the sender has stopped. */
  lemma ExpectedHadHope(c: Config, st: State)
    requires c.Valid() && Inv(c, st) && st.r.phase == AwaitData && st.data != []
    requires |st.r.accepted| == st.s.acked && st.data[0] == D(c, st.s.acked)
    ensures Hope(c, Act(c, st, DeliverData)) ==> Hope(c, st)
  {
    assert D(c, st.s.acked) in st.data;
    assert st.s.phase != AwaitOackReply;
    hide Number, Chunk, ReceiverInStep, Blocks, DataOrdered, AcksOrdered, NoData, ReceiverNext;
  }

  lemma StepBringsNoHope(c: Config, st: State, a: Action)
    requires c.Valid() && Inv(c, st) && Distinct(c)
    ensures Hope(c, Act(c, st, a)) ==> Hope(c, st)
  {
    hide Hope, EndsAgree, ChannelsAgree, Distinct;
    match a {
      case DeliverData => if st.data != [] { DataBringsNoHope(c, st); }
      case DeliverAck => if st.acks != [] { AckBringsNoHope(c, st); }
      case SenderTimer => SenderTimerBringsNoHope(c, st, a);
      case SenderFails => SenderTimerBringsNoHope(c, st, a);
      case SenderSendFails => SenderTimerBringsNoHope(c, st, a);
      case ReceiverTimer => ReceiverTimerBringsNoHope(c, st, a);
      case ReceiverFails => ReceiverTimerBringsNoHope(c, st, a);
      case ReceiverSendFails => ReceiverTimerBringsNoHope(c, st, a);
      case LoseData(_) => NetworkBringsNoHope(c, st, a);
      case LoseAck(_) => NetworkBringsNoHope(c, st, a);
      case RepeatData(_) => NetworkBringsNoHope(c, st, a);
      case RepeatAck(_) => NetworkBringsNoHope(c, st, a);
    }
  }

  lemma {:induction false} NoHopeNoEnd(c: Config, st: State, run: seq<Action>)
    requires c.Valid() && Inv(c, st) && Distinct(c) && !Hope(c, st)
    ensures ActAll(c, st, run).s.phase != Finished
    decreases |run|
  {
    hide Inv, Distinct, Act;
    if run == [] {
    } else {
      StepBringsNoHope(c, st, run[0]);
      StepKeepsInv(c, st, run[0]);
      hide Hope;
      NoHopeNoEnd(c, Act(c, st, run[0]), run[1..]);
    }
  }

  // ----- The exact condition

  /** In every reachable state: some continuation completes the transfer if and only if there is hope. */
  lemma CompletesExactlyWhen(c: Config, before: seq<Action>)
    requires c.Valid() && Distinct(c)
    ensures (exists run :: Reached(c, before + run).s.phase == Finished) <==> Hope(c, Reached(c, before))
  {
    hide Reached, ActAll, Hope, Distinct, EndsAgree, ChannelsAgree;
    var st := Reached(c, before);
    ReachedInv(c, before);
    if Hope(c, st) {
      HopeCompletes(c, st);
      var run :| ActAll(c, st, run).s.phase == Finished;
      ReachedOn(c, before, run);
      assert Reached(c, before + run).s.phase == Finished;
    } else {
      forall run ensures Reached(c, before + run).s.phase != Finished {
        ReachedOn(c, before, run);
        NoHopeNoEnd(c, st, run);
      }
    }
  }

  /** In particular, as long as both ends wait and each has a try left. */
  lemma TriesLeftGiveHope(c: Config, before: seq<Action>)
    requires c.Valid() && Distinct(c)
    requires var st := Reached(c, before);
      && (st.s.phase == AwaitAck || st.s.phase == AwaitOackReply) && (st.r.phase == AwaitData || st.r.phase == Dallying)
      && TryLeft(c, st.s.timer) && TryLeft(c, st.r.timer)
    ensures exists run :: Reached(c, before + run).s.phase == Finished
  {
    ReachedInv(c, before);
    hide Reached, TryLeft, ReceiverInStep, Blocks, Number, Chunk, ChannelsAgree;
    var st := Reached(c, before);
    assert Hope(c, st);
    CompletesExactlyWhen(c, before);
  }

  // ----- What the unanswered block costs

  /** The receiver has the block numbered 65535 and is down to its last try; its acknowledgements were all lost. */
  predicate Stalled(c: Config, st: State) {
    && st.s.phase == AwaitAck && st.r.phase == AwaitData && |st.r.accepted| == st.s.acked + 1 == MAX_BLOCK
    && st.acks == [] && !TryLeft(c, st.r.timer)
  }

  /** Then the transfer cannot be completed any more, however many tries the sender has left. */
  lemma StalledForGood(c: Config, before: seq<Action>)
    requires c.Valid() && Distinct(c) && Stalled(c, Reached(c, before))
    ensures forall run :: Reached(c, before + run).s.phase != Finished
  {
    CompletesExactlyWhen(c, before);
    NumbersAtWrap(c.rollover);
    hide Reached, Number, TryLeft;
  }

  function Doubled(t: nat, k: nat): nat {
    if k == 0 then t else 2 * Doubled(t, k - 1)
  }

  /** After five timeouts, and not before, the next one is the last. */
  lemma FiveTries(c: Config, t: Timer, k: nat)
    requires c.Valid() && k <= 5 && t.timeout == Doubled(c.rexmt, k)
    ensures TryLeft(c, t) <==> k < 5
  {
    var r := c.rexmt;
    assert Doubled(r, 1) == 2 * r && Doubled(r, 2) == 4 * r && Doubled(r, 3) == 8 * r;
    assert Doubled(r, 4) == 16 * r && Doubled(r, 5) == 32 * r;
  }

  /** The receiver waits with nothing in flight to the sender; its timer has gone off `k` times. */
  predicate Unheard(c: Config, st: State, s: Sender, n: nat, k: nat) {
    && st.s == s && st.acks == []
    && st.r.phase == AwaitData && |st.r.accepted| == n && st.r.timer.timeout == Doubled(c.rexmt, k)
  }

  lemma LoseTry(c: Config, st: State, s: Sender, n: nat, k: nat)
    requires c.Valid() && k < 5 && Unheard(c, st, s, n, k)
    ensures Unheard(c, Act(c, Act(c, st, ReceiverTimer), LoseAck(0)), s, n, k + 1)
  {
    FiveTries(c, st.r.timer, k);
    hide GivesUp;
    var st' := Act(c, st, ReceiverTimer);
    assert st'.acks == [st.r.reply];
    assert Lose(st'.acks, 0) == [];
  }

  lemma {:induction false} LoseTries(c: Config, before: seq<Action>, s: Sender, n: nat, k: nat)
    returns (run: seq<Action>)
    requires c.Valid() && k <= 5 && Unheard(c, Reached(c, before), s, n, 0)
    ensures Unheard(c, Reached(c, run), s, n, k)
  {
    hide Act, Unheard;
    if k == 0 {
      run := before;
    } else {
      var run1 := LoseTries(c, before, s, n, k - 1);
      LoseTry(c, Reached(c, run1), s, n, k - 1);
      run := run1 + [ReceiverTimer] + [LoseAck(0)];
      ReachedSnoc(c, run1, ReceiverTimer);
      ReachedSnoc(c, run1 + [ReceiverTimer], LoseAck(0));
    }
  }

  /** Delivering a block in lock step and losing the acknowledgement. */
  lemma AckLost(c: Config, st: State, k: nat)
    requires c.Valid() && k + 1 < c.Count() && InLockstep(c, st, k)
    ensures Unheard(c, Act(c, Act(c, st, DeliverData), LoseAck(0)), st.s, k + 1, 0)
  {
    DeliverInLockstep(c, st, k);
    ChunkLength(c.stream, c.segsize, k);
    hide Chunk, Number;
    var st1 := Act(c, st, DeliverData);
    assert Lose(st1.acks, 0) == [];
  }

  /** Every transfer of more than 65535 blocks can stall in this way, with all of the sender's tries left. */
  lemma StallReached(c: Config) returns (run: seq<Action>)
    requires c.Valid() && c.Count() > MAX_BLOCK
    ensures Stalled(c, Reached(c, run)) && TryLeft(c, Reached(c, run).s.timer)
  {
    hide Reached, Act, Chunk, Number, ReceiverInStep;
    var k := MAX_BLOCK - 1;
    var before := Lockstep(c, k);
    AckLost(c, Reached(c, before), k);
    var s := Reached(c, before).s;
    ReachedSnoc(c, before, DeliverData);
    ReachedSnoc(c, before + [DeliverData], LoseAck(0));
    run := LoseTries(c, before + [DeliverData] + [LoseAck(0)], s, k + 1, 5);
    FiveTries(c, Reached(c, run).r.timer, 5);
    FiveTries(c, s.timer, 0);
  }
}
