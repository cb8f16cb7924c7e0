/** Exactly which transfers are safe: block numbers must tell neighbouring blocks apart. */
module RolloverLimit {
  import opened BlockNumbers
  import opened Chunks
  import opened Machines
  import opened MachineRuns
  import opened LossyLink

  /** Block `k` has just been sent for the first time, the receiver waits for it, and nothing else is in flight. */
  predicate InLockstep(c: Config, st: State, k: nat) {
    && st.s.phase == AwaitAck && st.s.acked == k && st.s.block == Number(k + 1, c.rollover)
    && st.r.phase == AwaitData && |st.r.accepted| == k && ReceiverInStep(c, st.r)
    && st.data == [D(c, k)] && st.acks == []
  }

  lemma ReachedSnoc(c: Config, run: seq<Action>, a: Action)
    ensures Reached(c, run + [a]) == Act(c, Reached(c, run), a)
  {
    assert (run + [a])[..|run|] == run;
  }

  /** Delivering block `k` in lock step leaves its acknowledgement as the only packet in flight. */
  lemma DeliverInLockstep(c: Config, st: State, k: nat)
    requires c.Valid() && k + 1 < c.Count() && InLockstep(c, st, k)
    ensures var st' := Act(c, st, DeliverData);
      && st'.s == st.s && st'.data == [] && st'.acks == [A(c, k + 1)]
      && st'.r.phase == AwaitData && |st'.r.accepted| == k + 1 && ReceiverInStep(c, st'.r)
  {
    ChunkLength(c.stream, c.segsize, k);
    ReceiverStepInStep(c, st.r, Arrive(st.data[0]));
    hide Chunk, Number;
  }

  /** An acknowledgement with the awaited number makes the sender move on. */
  lemma AcknowledgeInLockstep(c: Config, st: State)
    requires c.Valid() && st.s.phase == AwaitAck && st.s.acked + 1 < c.Count()
    requires st.acks != [] && st.acks[0] == Ack(st.s.block)
    ensures var st' := Act(c, st, DeliverAck);
      && st'.s.phase == AwaitAck && st'.s.acked == st.s.acked + 1 && st'.s.block == Next(st.s.block, c.rollover)
      && st'.data == st.data + [Data(st'.s.block, c.Block(st'.s.acked))] && st'.acks == st.acks[1..] && st'.r == st.r
      && st'.s.timer == Armed(c)
  {
    ChunkLength(c.stream, c.segsize, st.s.acked);
    hide Chunk, Number;
  }

  /** Every block of a transfer can be reached in lock step, whatever the rollover value. */
  lemma {:induction false} Lockstep(c: Config, k: nat) returns (run: seq<Action>)
    requires c.Valid() && k < c.Count()
    ensures InLockstep(c, Reached(c, run), k) && Reached(c, run).s.timer == Armed(c)
  {
    if k == 0 {
      run := LockstepStart(c);
    } else {
      var before := Lockstep(c, k - 1);
      var st := Reached(c, before);
      run := before + [DeliverData] + [DeliverAck];
      ReachedSnoc(c, before, DeliverData);
      ReachedSnoc(c, before + [DeliverData], DeliverAck);
      DeliverInLockstep(c, st, k - 1);
      AcknowledgeInLockstep(c, Act(c, st, DeliverData));
      hide Chunk, Act, ReceiverInStep, Reached;
    }
  }

  lemma LockstepStart(c: Config) returns (run: seq<Action>)
    requires c.Valid()
    ensures InLockstep(c, Reached(c, run), 0) && Reached(c, run).s.timer == Armed(c)
  {
    ReceiverStartInStep(c);
    assert Number(1, c.rollover) == 1;
    if c.senderOack {
      run := [] + [DeliverAck] + [LoseData(0)];
      ReachedSnoc(c, [], DeliverAck);
      ReachedSnoc(c, [] + [DeliverAck], LoseData(0));
    } else {
      run := [] + [LoseAck(0)];
      ReachedSnoc(c, [], LoseAck(0));
    }
    hide Chunk, Number;
  }

  lemma LockstepFacts(c: Config, st: State, k: nat)
    requires InLockstep(c, st, k)
    ensures st.s.block == Number(k + 1, c.rollover) && st.s.acked == k && st.s.phase == AwaitAck
  {
  }

  /** Delivering the last block and its acknowledgement in lock step completes the transfer on both sides. */
  lemma LastInLockstep(c: Config, st: State, k: nat)
    requires c.Valid() && k + 1 == c.Count() && InLockstep(c, st, k)
    ensures var st' := Act(c, Act(c, st, DeliverData), DeliverAck);
      && st'.s.phase == Finished && st'.r.phase == Dallying
      && st'.s.acked == |st'.r.accepted| == c.Count()
  {
    ChunkLength(c.stream, c.segsize, k);
    var st1 := Act(c, st, DeliverData);
    assert st1.acks == [Ack(st1.s.block)];
    hide Chunk, Number;
  }

  /** Every transfer can complete on both sides, whatever the number of wraps. */
  lemma TransferCompletes(c: Config) returns (run: seq<Action>)
    requires c.Valid()
    ensures Reached(c, run).s.phase == Finished && Reached(c, run).r.phase == Dallying
    ensures Reached(c, run).s.acked == |Reached(c, run).r.accepted| == c.Count()
  {
    hide Reached, Act, InLockstep;
    var before := Lockstep(c, c.Count() - 1);
    run := before + [DeliverData] + [DeliverAck];
    ReachedSnoc(c, before, DeliverData);
    ReachedSnoc(c, before + [DeliverData], DeliverAck);
    LastInLockstep(c, Reached(c, before), c.Count() - 1);
  }

  /** With rollover value 65535 and at least 65536 blocks, one repeated acknowledgement makes the sender count a
      block that the receiver never saw.
   */
  lemma RepeatedAckCounted(c: Config) returns (run: seq<Action>)
    requires c.Valid() && !Distinct(c)
    ensures Reached(c, run).s.acked == |Reached(c, run).r.accepted| + 1
  {
    hide Number, Reached, InLockstep, ReceiverInStep, Chunk;
    var k := MAX_BLOCK - 1;
    var before := Lockstep(c, k);
    var st0 := Reached(c, before);
    NumbersAtWrap(c.rollover);
    assert st0.s.block == MAX_BLOCK && st0.s.acked == k && st0.s.phase == AwaitAck by { LockstepFacts(c, st0, k); }
    DeliverInLockstep(c, st0, k);
    var st1 := Act(c, st0, DeliverData);
    var st2 := Act(c, st1, RepeatAck(0));
    assert st2.acks == [Ack(MAX_BLOCK), Ack(MAX_BLOCK)];
    AcknowledgeInLockstep(c, st2);
    var st3 := Act(c, st2, DeliverAck);
    assert st3.s.block == MAX_BLOCK && st3.acks == [Ack(MAX_BLOCK)] && st3.s.acked == k + 1;
    var st4 := Act(c, st3, DeliverAck);
    assert st4.s.acked == k + 2 && st4.r == st1.r;
    ReachedSnoc(c, before, DeliverData);
    ReachedSnoc(c, before + [DeliverData], RepeatAck(0));
    ReachedSnoc(c, before + [DeliverData] + [RepeatAck(0)], DeliverAck);
    run := before + [DeliverData] + [RepeatAck(0)] + [DeliverAck] + [DeliverAck];
    ReachedSnoc(c, before + [DeliverData] + [RepeatAck(0)] + [DeliverAck], DeliverAck);
  }

  /** Delivering block `k` twice in lock step, with the acknowledgement lost: the second copy is still in flight. */
  lemma RepeatInLockstep(c: Config, st: State, k: nat)
    requires c.Valid() && k + 1 < c.Count() && InLockstep(c, st, k)
    ensures var st' := Act(c, Act(c, Act(c, st, RepeatData(0)), DeliverData), LoseAck(0));
      && st'.data == [D(c, k)] && st'.acks == []
      && st'.r.phase == AwaitData && |st'.r.accepted| == k + 1 && ReceiverInStep(c, st'.r)
  {
    DeliverInLockstep(c, st, k);
    var st1, st2 := Act(c, st, DeliverData), Act(c, Act(c, st, RepeatData(0)), DeliverData);
    hide ReceiverNext, ReceiverInStep, Number, Chunk;
    assert Repeat(st.data, 0) == [D(c, k), D(c, k)];
    assert st2.r == st1.r && st2.acks == st1.acks && st2.data == [D(c, k)];
  }

  /** What the receiver does with the second copy of the block numbered 65535. */
  lemma RepeatAtWrap(c: Config, st: State)
    requires ReceiverInStep(c, st.r) && st.r.phase == AwaitData && |st.r.accepted| == MAX_BLOCK && st.acks == []
    requires st.data == [D(c, MAX_BLOCK - 1)]
    ensures var st' := Act(c, st, DeliverData);
      && st.data[0].block == MAX_BLOCK
      && (c.rollover < MAX_BLOCK ==> st'.acks == [] && st'.r.accepted == st.r.accepted)
      && (c.rollover == MAX_BLOCK ==> st'.r.accepted == st.r.accepted + [c.Block(MAX_BLOCK - 1)])
  {
    hide Number, Chunk, ReceiverStart, SenderNext;
    NumbersAtWrap(c.rollover);
  }

  lemma NumbersAtWrap(r: U16)
    ensures Number(MAX_BLOCK, r) == MAX_BLOCK && Number(MAX_BLOCK + 1, r) == r
  {
    hide Mod;
    NumberClosedForm(MAX_BLOCK, r);
    ModSmall(MAX_BLOCK - r, Period(r));
  }

  /** The wrap is reached: when block 65534, which carries the number 65535, comes a second time it is not answered.
      With rollover value 65535 it is even accepted as the block after it.
   */
  lemma RepeatedBlockAtWrap(c: Config) returns (run: seq<Action>)
    requires c.Valid() && c.Count() > MAX_BLOCK
    ensures var st := Reached(c, run); var st' := Act(c, st, DeliverData);
      && st.r.phase == AwaitData && |st.r.accepted| == MAX_BLOCK
      && st.data == [D(c, MAX_BLOCK - 1)] && st.data[0].block == MAX_BLOCK && st.acks == []
      && (c.rollover < MAX_BLOCK ==> st'.acks == [] && st'.r.accepted == st.r.accepted)
      && (c.rollover == MAX_BLOCK ==> st'.r.accepted == st.r.accepted + [c.Block(MAX_BLOCK - 1)])
  {
    hide Reached, Act, ReceiverInStep, InLockstep, Number, Chunk;
    var k := MAX_BLOCK - 1;
    var before := Lockstep(c, k);
    run := before + [RepeatData(0)] + [DeliverData] + [LoseAck(0)];
    ReachedSnoc(c, before, RepeatData(0));
    ReachedSnoc(c, before + [RepeatData(0)], DeliverData);
    ReachedSnoc(c, before + [RepeatData(0)] + [DeliverData], LoseAck(0));
    RepeatInLockstep(c, Reached(c, before), k);
    RepeatAtWrap(c, Reached(c, run));
  }

  /** A transfer is safe in every run exactly when its rollover value is below 65535 or it has at most 65535 blocks. */
  lemma SafeExactlyWhenDistinct(c: Config)
    requires c.Valid()
    ensures (forall run :: Safe(c, Reached(c, run))) <==> (c.rollover < 65535 || |c.stream| / c.segsize + 1 <= 65535)
  {
    if Distinct(c) {
      forall run ensures Safe(c, Reached(c, run)) {
        TransferSafe(c, run);
      }
    } else {
      var run := RepeatedAckCounted(c);
      assert !Safe(c, Reached(c, run));
    }
  }
}
