/** What each side of a transfer does over a whole run, whatever the other side or the network sends it. */
module MachineRuns {
  import opened Constants
  import opened BlockNumbers
  import opened Chunks
  import opened Machines

  // ----- Retransmission

  function Pow2(n: nat): nat {
    if n == 0 then 1 else 2 * Pow2(n - 1)
  }

  /** A timer that went off `fired` times has doubled that often, and the full waits add up to a geometric sum. */
  predicate TimerInStep(c: Config, t: Timer) {
    && t.timeout == Pow2(t.fired) * c.rexmt
    && t.waited == (Pow2(t.fired) - 1) * c.rexmt
  }

  lemma ExpireInStep(c: Config, t: Timer)
    requires TimerInStep(c, t) && 0 < c.rexmt && t.fired < TRIES
    ensures TimerInStep(c, Expire(t))
    ensures GivesUp(c, Expire(t)) <==> t.fired + 1 == TRIES
  {
    assert Pow2(t.fired) in {1, 2, 4, 8, 16, 32} by {
      assert Pow2(1) == 2 && Pow2(2) == 4 && Pow2(3) == 8 && Pow2(4) == 16 && Pow2(5) == 32;
    }
  }

  /** The timer of a waiting side is in step and has not used up its tries; at giving up it has used all of them. */
  predicate TimerRule(c: Config, t: Timer, waiting: bool, timedOut: bool) {
    && TimerInStep(c, t)
    && (waiting ==> t.fired < TRIES)
    && (timedOut ==> t.fired == TRIES)
  }

  predicate SenderWaiting(s: Sender) {
    s.phase == AwaitOackReply || s.phase == AwaitAck
  }

  lemma SenderTimerStep(c: Config, s: Sender, e: Event)
    requires c.Valid() && TimerRule(c, s.timer, SenderWaiting(s), s.phase == SenderTimedOut)
    ensures var s' := SenderNext(c, s, e).0; TimerRule(c, s'.timer, SenderWaiting(s'), s'.phase == SenderTimedOut)
  {
    if SenderWaiting(s) && e.Timeout? {
      ExpireInStep(c, s.timer);
    }
    hide GivesUp;
  }

  lemma FullWait(c: Config, t: Timer)
    requires TimerInStep(c, t) && t.fired == TRIES
    ensures t.waited == c.MaxTimeout()
  {
    assert Pow2(TRIES) == 64 by { assert Pow2(1) == 2 && Pow2(3) == 8 && Pow2(5) == 32; }
  }

  /** Between two freshly prepared packets the sender's timer goes off at most TRIES = 6 times, after doubling waits,
      and when the sender gives up it has waited exactly `maxtimeout` in all.
   */
  lemma {:induction false} SenderRetransmissionBound(c: Config, es: seq<Event>)
    requires c.Valid()
    ensures var s := SenderRun(c, es).0;
      && TimerRule(c, s.timer, SenderWaiting(s), s.phase == SenderTimedOut)
      && (s.phase == SenderTimedOut ==> s.timer.waited == c.MaxTimeout())
  {
    if es == [] {
    } else {
      SenderRetransmissionBound(c, es[..|es| - 1]);
      SenderTimerStep(c, SenderRun(c, es[..|es| - 1]).0, es[|es| - 1]);
      var s := SenderRun(c, es).0;
      if s.phase == SenderTimedOut {
        FullWait(c, s.timer);
      }
    }
  }

  lemma ReceiverTimerStep(c: Config, r: Receiver, e: Event)
    requires c.Valid() && TimerRule(c, r.timer, r.phase == AwaitData, r.phase == ReceiverTimedOut)
    ensures var r' := ReceiverNext(c, r, e).0;
      TimerRule(c, r'.timer, r'.phase == AwaitData, r'.phase == ReceiverTimedOut)
  {
    if r.phase == AwaitData && e.Timeout? {
      ExpireInStep(c, r.timer);
    }
    hide GivesUp;
  }

  /** The same for the receiver's timer between accepted blocks. */
  lemma {:induction false} ReceiverRetransmissionBound(c: Config, es: seq<Event>)
    requires c.Valid()
    ensures var r := ReceiverRun(c, es).0;
      && TimerRule(c, r.timer, r.phase == AwaitData, r.phase == ReceiverTimedOut)
      && (r.phase == ReceiverTimedOut ==> r.timer.waited == c.MaxTimeout())
  {
    if es == [] {
    } else {
      ReceiverRetransmissionBound(c, es[..|es| - 1]);
      ReceiverTimerStep(c, ReceiverRun(c, es[..|es| - 1]).0, es[|es| - 1]);
      var r := ReceiverRun(c, es).0;
      if r.phase == ReceiverTimedOut {
        FullWait(c, r.timer);
      }
    }
  }

  /** The timeouts that went into the packet the sender currently waits on. */
  function TimeoutsSinceStart(c: Config, es: seq<Event>): nat {
    if es == [] then 0
    else
      var before, s := SenderRun(c, es[..|es| - 1]).0, SenderRun(c, es).0;
      if s.started != before.started then 0
      else TimeoutsSinceStart(c, es[..|es| - 1]) + if es[|es| - 1].Timeout? && SenderWaiting(before) then 1 else 0
  }

  /** The timer starts afresh with every block and then counts every timeout, and nothing else. */
  lemma {:induction false} SenderTimerCounts(c: Config, es: seq<Event>)
    ensures SenderRun(c, es).0.timer.fired == TimeoutsSinceStart(c, es)
  {
    if es == [] {
    } else {
      SenderTimerCounts(c, es[..|es| - 1]);
      hide GivesUp, Chunk;
    }
  }

  /** The timeouts since the receiver accepted its last block. */
  function TimeoutsSinceAccept(c: Config, es: seq<Event>): nat {
    if es == [] then 0
    else
      var before, r := ReceiverRun(c, es[..|es| - 1]).0, ReceiverRun(c, es).0;
      if r.phase == AwaitData && |r.accepted| != |before.accepted| then 0
      else TimeoutsSinceAccept(c, es[..|es| - 1]) + if es[|es| - 1].Timeout? && before.phase == AwaitData then 1 else 0
  }

  lemma {:induction false} ReceiverTimerCounts(c: Config, es: seq<Event>)
    ensures ReceiverRun(c, es).0.timer.fired == TimeoutsSinceAccept(c, es)
  {
    if es == [] {
    } else {
      ReceiverTimerCounts(c, es[..|es| - 1]);
      hide GivesUp, Chunk;
    }
  }

  // ----- The Sorcerer's Apprentice

  function CountData(ps: seq<Packet>): nat {
    if ps == [] then 0 else CountData(ps[..|ps| - 1]) + if ps[|ps| - 1].Data? then 1 else 0
  }

  function CountTimeouts(es: seq<Event>): nat {
    if es == [] then 0 else CountTimeouts(es[..|es| - 1]) + if es[|es| - 1].Timeout? then 1 else 0
  }

  lemma CountAppend(ps: seq<Packet>, out: seq<Packet>)
    requires |out| <= 1
    ensures CountData(ps + out) == CountData(ps) + if |out| == 1 && out[0].Data? then 1 else 0
  {
    if out == [] {
      assert ps + out == ps;
    } else {
      assert (ps + out)[..|ps|] == ps;
    }
  }

  /** Nobody talks DATA to the sender, so what lands in the OACK buffer is not DATA. */
  predicate NoDataArrives(es: seq<Event>) {
    forall i :: 0 <= i < |es| && es[i].Arrive? ==> !es[i].packet.Data?
  }

  predicate ApprenticeRule(s: Sender, dataSent: nat) {
    && dataSent == s.started + s.timeouts
    && s.started <= s.acked + 1
    && (s.phase == AwaitAck ==> s.started == s.acked + 1)
    && (s.phase == AwaitOackReply ==> s.acked == s.started == s.timeouts == 0 && !s.ackbuf.Data?)
    && (s.phase == Finished ==> s.started == s.acked)
  }

  lemma ApprenticeStep(c: Config, s: Sender, e: Event, dataSent: nat)
    requires ApprenticeRule(s, dataSent)
    requires s.phase == AwaitOackReply && e.Arrive? ==> !e.packet.Data?
    ensures var (s', out) := SenderNext(c, s, e);
      && |out| <= 1
      && ApprenticeRule(s', dataSent + if |out| == 1 && out[0].Data? then 1 else 0)
      && s'.timeouts <= s.timeouts + (if e.Timeout? then 1 else 0)
      && (s'.phase == AwaitOackReply ==> s.phase == AwaitOackReply)
  {
    hide GivesUp, Chunk;
  }

  /** Section 4.2.3.1 of RFC 1123: whatever acknowledgements arrive, DATA packets sent are the blocks taken up plus
      the timeouts taken. A block is taken up only after its predecessor was acknowledged.
   */
  lemma {:induction false} NoSorcerersApprentice(c: Config, es: seq<Event>)
    requires c.senderOack ==> NoDataArrives(es)
    ensures var (s, sent) := SenderRun(c, es);
      && ApprenticeRule(s, CountData(sent)) && s.timeouts <= CountTimeouts(es)
      && (s.phase == AwaitOackReply ==> c.senderOack)
  {
    if es == [] {
      var (s, sent) := SenderStart(c);
      assert [] + sent == sent;
      CountAppend([], sent);
    } else {
      var before := es[..|es| - 1];
      NoSorcerersApprentice(c, before);
      var (s, sent) := SenderRun(c, before);
      var (s', out) := SenderNext(c, s, es[|es| - 1]);
      ApprenticeStep(c, s, es[|es| - 1], CountData(sent));
      CountAppend(sent, out);
    }
  }

  // ----- Every packet with what it was sent for

  /** A packet sent; `tag` counts the blocks dealt with when it was sent, and `again` says that a packet which brought
      no progress made the machine send it.
   */
  datatype Sent = Sent(tag: nat, packet: Packet, again: bool)

  function Tagged(tag: nat, out: seq<Packet>, again: bool): seq<Sent> {
    seq(|out|, i requires 0 <= i < |out| => Sent(tag, out[i], again))
  }

  function Packets(log: seq<Sent>): seq<Packet> {
    seq(|log|, i requires 0 <= i < |log| => log[i].packet)
  }

  /** How often a machine sent something under this tag on its own account: at first, and then on timeouts. */
  function OwnSends(log: seq<Sent>, tag: nat): nat {
    if log == [] then 0
    else OwnSends(log[..|log| - 1], tag) + if log[|log| - 1].tag == tag && !log[|log| - 1].again then 1 else 0
  }

  lemma OwnSendsAppend(log: seq<Sent>, tag: nat, out: seq<Packet>, again: bool, k: nat)
    requires |out| <= 1
    ensures OwnSends(log + Tagged(tag, out, again), k)
         == OwnSends(log, k) + if |out| == 1 && tag == k && !again then 1 else 0
  {
    var more := log + Tagged(tag, out, again);
    if out == [] {
      assert more == log;
    } else {
      assert more[..|log|] == log;
    }
  }

  /** The packets a sender sends, tagged with the number of blocks taken up: 0 in the OACK phase. */
  function SenderLog(c: Config, es: seq<Event>): seq<Sent> {
    if es == [] then Tagged(SenderStart(c).0.started, SenderStart(c).1, false)
    else
      var before, e := es[..|es| - 1], es[|es| - 1];
      var s := SenderRun(c, before).0;
      var (s', out) := SenderNext(c, s, e);
      SenderLog(c, before) + Tagged(s'.started, out, e.Arrive? && s'.started == s.started)
  }

  lemma {:induction false} SenderLogIsSent(c: Config, es: seq<Event>)
    ensures Packets(SenderLog(c, es)) == SenderRun(c, es).1
  {
    hide SenderNext, SenderStart;
    if es == [] {
    } else {
      SenderLogIsSent(c, es[..|es| - 1]);
    }
  }

  predicate SenderInStep(c: Config, s: Sender) {
    && (s.phase == AwaitOackReply ==> s.acked == 0 && s.started == 0)
    && (s.phase == AwaitAck ==> s.started == s.acked + 1)
    && s.block == Number(s.acked + 1, c.rollover)
  }

  lemma SenderStepInStep(c: Config, s: Sender, e: Event)
    requires SenderInStep(c, s)
    ensures var (s', out) := SenderNext(c, s, e);
      && SenderInStep(c, s') && |out| <= 1
      && (out != [] && s'.started > 0 ==>
            && out[0] == Data(Number(s'.started, c.rollover), c.Block(s'.started - 1))
            && !(e.Arrive? && s'.started == s.started))
  {
    assert Number(s.acked + 2, c.rollover) == Next(Number(s.acked + 1, c.rollover), c.rollover);
    hide GivesUp, Chunk, Number;
  }

  /** Whatever arrives, a packet sent in the data phase is the block taken up last, and no packet that brings no
      progress makes the sender send it again.
   */
  lemma {:induction false} DataPhasePackets(c: Config, es: seq<Event>)
    ensures SenderInStep(c, SenderRun(c, es).0)
    ensures forall t :: t in SenderLog(c, es) && t.tag > 0 ==>
              t.packet == Data(Number(t.tag, c.rollover), c.Block(t.tag - 1)) && !t.again
  {
    if es == [] {
      assert Number(1, c.rollover) == Next(Number(0, c.rollover), c.rollover);
    } else {
      DataPhasePackets(c, es[..|es| - 1]);
      SenderStepInStep(c, SenderRun(c, es[..|es| - 1]).0, es[|es| - 1]);
      hide SenderNext;
    }
    hide Number, Chunk;
  }

  lemma SenderSendStep(c: Config, s: Sender, e: Event)
    ensures var (s', out) := SenderNext(c, s, e); var again := e.Arrive? && s'.started == s.started;
      && |out| <= 1 && s.started <= s'.started <= s.started + 1
      && (s'.started > s.started ==> |out| == 1 && !again && SenderWaiting(s') && s'.timer.fired == 0)
      && (s'.started == s.started && |out| == 1 && !again ==>
            SenderWaiting(s) && SenderWaiting(s') && s'.timer.fired == s.timer.fired + 1)
      && (s'.started == s.started && SenderWaiting(s') && (out == [] || again) ==>
            SenderWaiting(s) && s'.timer == s.timer)
  {
    hide GivesUp, Chunk;
  }

  /** Each block is sent at most TRIES = 6 times, whatever arrives; so is the OACK, not counting the times that a stale
      acknowledgement makes the sender repeat it.
   */
  lemma {:induction false} SenderSendsBounded(c: Config, es: seq<Event>, k: nat)
    requires c.Valid()
    ensures var s := SenderRun(c, es).0; var sends := OwnSends(SenderLog(c, es), k);
      && sends <= TRIES
      && (k > s.started ==> sends == 0)
      && (k == s.started && SenderWaiting(s) ==> sends == s.timer.fired + 1)
  {
    SenderRetransmissionBound(c, es);
    if es == [] {
      OwnSendsAppend([], SenderStart(c).0.started, SenderStart(c).1, false, k);
    } else {
      var before, e := es[..|es| - 1], es[|es| - 1];
      SenderSendsBounded(c, before, k);
      SenderRetransmissionBound(c, before);
      var s := SenderRun(c, before).0;
      var (s', out) := SenderNext(c, s, e);
      SenderSendStep(c, s, e);
      OwnSendsAppend(SenderLog(c, before), s'.started, out, e.Arrive? && s'.started == s.started, k);
      hide SenderNext, OwnSends, TimerInStep;
    }
  }

  /** How often anything was sent under this tag. */
  function AllSends(log: seq<Sent>, tag: nat): nat {
    if log == [] then 0 else AllSends(log[..|log| - 1], tag) + if log[|log| - 1].tag == tag then 1 else 0
  }

  lemma {:induction false} AllAreOwn(log: seq<Sent>, tag: nat)
    requires forall t :: t in log && t.tag == tag ==> !t.again
    ensures AllSends(log, tag) == OwnSends(log, tag)
  {
    if log == [] {
    } else {
      AllAreOwn(log[..|log| - 1], tag);
    }
  }

  /** While block `k` is the one taken up, it and nothing else is sent, at most six times, whatever arrives. */
  lemma BlockSentAtMostTries(c: Config, es: seq<Event>, k: nat)
    requires c.Valid()
    ensures AllSends(SenderLog(c, es), k + 1) <= TRIES
    ensures forall t :: t in SenderLog(c, es) && t.tag == k + 1 ==>
              t.packet == Data(Number(k + 1, c.rollover), c.Block(k))
  {
    DataPhasePackets(c, es);
    AllAreOwn(SenderLog(c, es), k + 1);
    SenderSendsBounded(c, es, k + 1);
    hide SenderLog, Number, Chunk;
  }

  // ----- Acknowledgements

  /** The one packet that acknowledges `n` accepted blocks. */
  function ReplyFor(c: Config, n: nat): Packet {
    if n == 0 && c.receiverOack then Oack(c.options) else Ack(Number(n, c.rollover))
  }

  /** The receiver's registers are determined by how many blocks it accepted. */
  predicate ReceiverInStep(c: Config, r: Receiver) {
    var n := |r.accepted|;
    && (r.phase == AwaitData ==> r.block == Number(n + 1, c.rollover))
    && (r.phase == AwaitData ==> r.oap == (n == 0 && c.receiverOack))
    && (r.phase == Dallying ==> r.block == Number(n, c.rollover) && n > 0 && HeardLastBlock(r))
    && (r.phase == AwaitData || r.phase == Dallying ==> r.reply == ReplyFor(c, n))
  }

  lemma ReceiverStepInStep(c: Config, r: Receiver, e: Event)
    requires ReceiverInStep(c, r)
    ensures var (r', out) := ReceiverNext(c, r, e);
      && ReceiverInStep(c, r')
      && |out| <= 1 && forall p :: p in out ==> p == ReplyFor(c, |r'.accepted|)
  {
  }

  lemma ReceiverStartInStep(c: Config)
    ensures var (r, out) := ReceiverStart(c);
      ReceiverInStep(c, r) && r.accepted == [] && r.phase == AwaitData && out == [ReplyFor(c, 0)]
  {
    assert Number(1, c.rollover) == Next(Number(0, c.rollover), c.rollover);
  }

  /** The packets a receiver sends, tagged with the number of blocks accepted when they are sent. */
  function ReceiverLog(c: Config, es: seq<Event>): seq<Sent> {
    if es == [] then Tagged(0, ReceiverStart(c).1, false)
    else
      var before, e := es[..|es| - 1], es[|es| - 1];
      var r := ReceiverRun(c, before).0;
      var (r', out) := ReceiverNext(c, r, e);
      ReceiverLog(c, before) + Tagged(|r'.accepted|, out, e.Arrive? && r'.accepted == r.accepted)
  }

  lemma {:induction false} ReceiverLogIsSent(c: Config, es: seq<Event>)
    ensures Packets(ReceiverLog(c, es)) == ReceiverRun(c, es).1
  {
    hide ReceiverNext, ReceiverStart;
    if es == [] {
    } else {
      ReceiverLogIsSent(c, es[..|es| - 1]);
    }
  }

  /** Between two accepted blocks every packet sent is the same one, whether a timeout or a duplicate asked for it;
      an OACK is sent only before the first block, even when the number later wraps to 0.
   */
  lemma {:induction false} StableReplies(c: Config, es: seq<Event>)
    ensures ReceiverInStep(c, ReceiverRun(c, es).0)
    ensures forall t :: t in ReceiverLog(c, es) ==> t.packet == ReplyFor(c, t.tag)
    ensures forall t :: t in ReceiverLog(c, es) && t.packet.Oack? ==> t.tag == 0
  {
    if es == [] {
      ReceiverStartInStep(c);
    } else {
      StableReplies(c, es[..|es| - 1]);
      ReceiverStepInStep(c, ReceiverRun(c, es[..|es| - 1]).0, es[|es| - 1]);
    }
    hide ReceiverNext, ReceiverStart, Number;
  }

  /** Each acknowledgement is sent at most TRIES = 6 times on the receiver's own account, that is, not counting the
      answers to repeated blocks.
   */
  lemma {:induction false} ReceiverSendsBounded(c: Config, es: seq<Event>, n: nat)
    requires c.Valid()
    ensures var r := ReceiverRun(c, es).0; var sends := OwnSends(ReceiverLog(c, es), n);
      && sends <= TRIES
      && (n > |r.accepted| ==> sends == 0)
      && (n == |r.accepted| && r.phase == AwaitData ==> sends == r.timer.fired + 1)
  {
    ReceiverRetransmissionBound(c, es);
    if es == [] {
      OwnSendsAppend([], 0, ReceiverStart(c).1, false, n);
    } else {
      var before, e := es[..|es| - 1], es[|es| - 1];
      ReceiverSendsBounded(c, before, n);
      ReceiverRetransmissionBound(c, before);
      var r := ReceiverRun(c, before).0;
      var (r', out) := ReceiverNext(c, r, e);
      ReceiverSendStep(c, r, e);
      OwnSendsAppend(ReceiverLog(c, before), |r'.accepted|, out, e.Arrive? && r'.accepted == r.accepted, n);
      hide ReceiverNext, OwnSends, TimerInStep;
    }
  }

  lemma ReceiverSendStep(c: Config, r: Receiver, e: Event)
    ensures var (r', out) := ReceiverNext(c, r, e); var again := e.Arrive? && r'.accepted == r.accepted;
      && |out| <= 1 && |r.accepted| <= |r'.accepted| <= |r.accepted| + 1
      && (|r'.accepted| == |r.accepted| ==> r'.accepted == r.accepted)
      && (|r'.accepted| > |r.accepted| ==> |out| == 1 && !again && (r'.phase == AwaitData ==> r'.timer.fired == 0))
      && (|r'.accepted| == |r.accepted| && |out| == 1 && !again ==>
            r.phase == AwaitData && r'.phase == AwaitData && r'.timer.fired == r.timer.fired + 1)
      && (|r'.accepted| == |r.accepted| && r'.phase == AwaitData && (out == [] || again) ==>
            r.phase == AwaitData && r'.timer == r.timer)
  {
    hide GivesUp;
  }

  /** What becomes of a repetition of the last accepted block, for every rollover value: it is answered, unless its
      number is 65535. The comparison with the expected number minus one does not follow the wrap, so that one is
      passed over, or taken for the next block if the rollover value is 65535.
   */
  lemma DuplicateAnswered(c: Config, es: seq<Event>, payload: seq<Byte>)
    requires ReceiverRun(c, es).0.phase == AwaitData
    ensures var r := ReceiverRun(c, es).0; var last := Number(|r.accepted|, c.rollover);
      var dp := Data(last, payload);
      ReceiverNext(c, r, Arrive(dp)) ==
        if last != MAX_BLOCK then (r.(heard := dp), [r.reply])
        else if c.rollover == MAX_BLOCK then AcceptBlock(c, r.(heard := dp), payload)
        else (r.(heard := dp), [])
  {
    StableReplies(c, es);
    var n := |ReceiverRun(c, es).0.accepted|;
    assert Number(n + 1, c.rollover) == Next(Number(n, c.rollover), c.rollover);
  }

  // ----- After the last block

  /** What the final wait is for: the last block comes again, so its acknowledgement was lost. */
  predicate RepeatsLastBlock(r: Receiver, e: Event) {
    e.Arrive? && e.packet.Data? && e.packet.block == r.block
  }

  /** The test after the final wait always passes: every packet, and nothing but a packet, is answered with the final
      acknowledgement. That is the intended answer except for the packets that are not the last block again.
   */
  lemma FinalWaitAnswers(c: Config, es: seq<Event>, e: Event)
    requires ReceiverRun(c, es).0.phase == Dallying
    ensures var r := ReceiverRun(c, es).0; var out := ReceiverNext(c, r, e).1;
      && HeardLastBlock(r)
      && out == (if e.Arrive? then [Ack(Number(|r.accepted|, c.rollover))] else [])
      && (out == (if RepeatsLastBlock(r, e) then [Ack(Number(|r.accepted|, c.rollover))] else []) <==>
            !(e.Arrive? && !RepeatsLastBlock(r, e)))
  {
    StableReplies(c, es);
    hide Number;
  }

  /** Such packets do arrive: after a one-block transfer an ERROR packet is acknowledged. */
  lemma ErrorAcknowledged(c: Config) returns (es: seq<Event>)
    requires c.Valid()
    ensures ReceiverRun(c, es).0.phase == Dallying
    ensures ReceiverNext(c, ReceiverRun(c, es).0, Arrive(Error)).1 == [Ack(1)]
  {
    es := [Arrive(Data(1, []))];
    assert es[..0] == [];
    ReceiverStartInStep(c);
    assert Number(1, c.rollover) == 1;
    assert ReceiverRun(c, es[..0]) == ReceiverStart(c);
  }
}
