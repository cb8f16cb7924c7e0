/** What each event makes each side do, in terms of what has happened before: the packets sent and how it goes on. */
module Reactions {
  import opened Constants
  import opened BlockNumbers
  import opened Chunks
  import opened Machines
  import opened MachineRuns

  // ----- How a transfer opens

  /** The sender opens with its OACK, if it has options to acknowledge, else with the first block; the receiver with its
      OACK or the acknowledgement of number 0.
   */
  lemma OpeningPackets(c: Config)
    ensures SenderRun(c, []).1 == [if c.senderOack then Oack(c.options) else Data(1, c.Block(0))]
    ensures ReceiverRun(c, []).1 == [if c.receiverOack then Oack(c.options) else Ack(0)]
  {
  }

  // ----- How a transfer is broken off

  /** What breaks a transfer off: the other side reports an error, or a system call fails. */
  predicate Breaks(e: Event) {
    e == Arrive(Error) || e.SendFails? || e.Fail?
  }

  lemma SenderSnoc(c: Config, es: seq<Event>, e: Event)
    ensures var (s, sent) := SenderRun(c, es); var (s', out) := SenderNext(c, s, e);
      SenderRun(c, es + [e]) == (s', sent + out)
  {
    assert (es + [e])[..|es|] == es;
  }

  lemma ReceiverSnoc(c: Config, es: seq<Event>, e: Event)
    ensures var (r, sent) := ReceiverRun(c, es); var (r', out) := ReceiverNext(c, r, e);
      ReceiverRun(c, es + [e]) == (r', sent + out)
  {
    assert (es + [e])[..|es|] == es;
  }

  /** A side that has stopped waiting never changes or sends anything again. */
  lemma {:induction false} SenderStaysStopped(c: Config, es: seq<Event>, fs: seq<Event>)
    requires !SenderWaiting(SenderRun(c, es).0)
    ensures SenderRun(c, es + fs) == SenderRun(c, es)
  {
    if fs == [] {
      assert es + fs == es;
    } else {
      var before := fs[..|fs| - 1];
      SenderStaysStopped(c, es, before);
      SenderSnoc(c, es + before, fs[|fs| - 1]);
      assert es + fs == es + before + [fs[|fs| - 1]];
      assert SenderRun(c, es).1 + [] == SenderRun(c, es).1;
      hide SenderRun;
    }
  }

  lemma {:induction false} ReceiverStaysStopped(c: Config, es: seq<Event>, fs: seq<Event>)
    requires var r := ReceiverRun(c, es).0; r.phase != AwaitData && r.phase != Dallying
    ensures ReceiverRun(c, es + fs) == ReceiverRun(c, es)
  {
    if fs == [] {
      assert es + fs == es;
    } else {
      var before := fs[..|fs| - 1];
      ReceiverStaysStopped(c, es, before);
      ReceiverSnoc(c, es + before, fs[|fs| - 1]);
      assert es + fs == es + before + [fs[|fs| - 1]];
      assert ReceiverRun(c, es).1 + [] == ReceiverRun(c, es).1;
      hide ReceiverRun;
    }
  }

  /** A waiting sender stops at once and for good: it sends nothing more, whatever follows. */
  lemma SenderBreaksOff(c: Config, es: seq<Event>, e: Event, fs: seq<Event>)
    requires SenderWaiting(SenderRun(c, es).0) && Breaks(e)
    ensures SenderRun(c, es + [e]).0.phase == SenderAborted
    ensures SenderRun(c, es + [e]).0.acked == SenderRun(c, es).0.acked
    ensures SenderRun(c, es + [e]).1 == SenderRun(c, es).1
    ensures SenderRun(c, es + [e] + fs) == SenderRun(c, es + [e])
  {
    SenderSnoc(c, es, e);
    assert SenderRun(c, es).1 + [] == SenderRun(c, es).1;
    hide SenderRun;
    SenderStaysStopped(c, es + [e], fs);
  }

  /** So does a receiver that waits for a block; what it has accepted stays as it is. */
  lemma ReceiverBreaksOff(c: Config, es: seq<Event>, e: Event, fs: seq<Event>)
    requires ReceiverRun(c, es).0.phase == AwaitData && Breaks(e)
    ensures ReceiverRun(c, es + [e]).0.phase == ReceiverAborted
    ensures ReceiverRun(c, es + [e]).0.accepted == ReceiverRun(c, es).0.accepted
    ensures ReceiverRun(c, es + [e]).1 == ReceiverRun(c, es).1
    ensures ReceiverRun(c, es + [e] + fs) == ReceiverRun(c, es + [e])
  {
    ReceiverSnoc(c, es, e);
    assert ReceiverRun(c, es).1 + [] == ReceiverRun(c, es).1;
    hide ReceiverRun;
    ReceiverStaysStopped(c, es + [e], fs);
  }

  /** After the final wait, however it ends, the receiver is done: at most one more acknowledgement, and then nothing. A
      failing send of the final acknowledgement is not noticed.
   */
  lemma FinalWaitEnds(c: Config, es: seq<Event>, e: Event, fs: seq<Event>)
    requires ReceiverRun(c, es).0.phase == Dallying
    ensures e.SendFails? ==> ReceiverRun(c, es + [e]) == ReceiverRun(c, es)
    ensures !e.SendFails? ==>
      && ReceiverRun(c, es + [e]).0.phase == Closed
      && ReceiverRun(c, es + [e]).0.accepted == ReceiverRun(c, es).0.accepted
      && ReceiverRun(c, es + [e] + fs) == ReceiverRun(c, es + [e])
  {
    ReceiverSnoc(c, es, e);
    assert ReceiverRun(c, es).1 + [] == ReceiverRun(c, es).1;
    hide ReceiverRun;
    if !e.SendFails? {
      ReceiverStaysStopped(c, es + [e], fs);
    }
  }

  // ----- The sender

  /** With `a` blocks acknowledged, a packet either acknowledges block `a` by its number, reports an error, or is
      ignored. An acknowledgement makes the sender go on with the next block, or finish after the last.
   */
  lemma SenderOnPacket(c: Config, es: seq<Event>, p: Packet)
    requires c.Valid() && SenderRun(c, es).0.phase == AwaitAck && p != Error
    ensures var (s, sent) := SenderRun(c, es); var (s', sent') := SenderRun(c, es + [Arrive(p)]); var a := s.acked;
      && (p != Ack(Number(a + 1, c.rollover)) ==>
            s'.phase == AwaitAck && s'.acked == a && s'.timer == s.timer && sent' == sent)
      && (p == Ack(Number(a + 1, c.rollover)) && a + 1 < c.Count() ==>
            && s'.phase == AwaitAck && s'.acked == a + 1 && s'.timer.fired == 0
            && sent' == sent + [Data(Number(a + 2, c.rollover), c.Block(a + 1))])
      && (p == Ack(Number(a + 1, c.rollover)) && a + 1 == c.Count() ==>
            s'.phase == Finished && s'.acked == a + 1 && sent' == sent)
  {
    hide SenderRun, Number, Chunk, BlockCount, SenderNext;
    DataPhasePackets(c, es);
    SenderWithinTransfer(c, es);
    SenderSnoc(c, es, Arrive(p));
    var (s, sent) := SenderRun(c, es);
    assert sent + [] == sent;
    PacketTaken(c, s, p);
  }

  lemma PacketTaken(c: Config, s: Sender, p: Packet)
    requires c.Valid() && s.phase == AwaitAck && SenderInStep(c, s) && s.acked < c.Count() && p != Error
    ensures var (s', out) := SenderNext(c, s, Arrive(p)); var a := s.acked;
      && (p != Ack(Number(a + 1, c.rollover)) ==>
            s'.phase == AwaitAck && s'.acked == a && s'.timer == s.timer && out == [])
      && (p == Ack(Number(a + 1, c.rollover)) && a + 1 < c.Count() ==>
            && s'.phase == AwaitAck && s'.acked == a + 1 && s'.timer.fired == 0
            && out == [Data(Number(a + 2, c.rollover), c.Block(a + 1))])
      && (p == Ack(Number(a + 1, c.rollover)) && a + 1 == c.Count() ==>
            s'.phase == Finished && s'.acked == a + 1 && out == [])
  {
    ChunkLength(c.stream, c.segsize, s.acked);
    assert Number(s.acked + 2, c.rollover) == Next(Number(s.acked + 1, c.rollover), c.rollover);
    hide Number, Chunk, GivesUp, BlockCount;
  }

  /** The sender never waits for more blocks than there are. */
  lemma {:induction false} SenderWithinTransfer(c: Config, es: seq<Event>)
    requires c.Valid()
    ensures var s := SenderRun(c, es).0;
      && (s.phase == AwaitAck || s.phase == AwaitOackReply ==> s.acked < c.Count())
      && (s.phase == Finished <==> s.acked == c.Count())
  {
    if es == [] {
    } else {
      SenderWithinTransfer(c, es[..|es| - 1]);
      ChunkLength(c.stream, c.segsize, SenderRun(c, es[..|es| - 1]).0.acked);
    }
    hide Chunk, GivesUp, Number, BlockCount;
  }

  /** What the buffer of the OACK holds: the OACK until something arrives, then what arrived last. */
  function Buffered(c: Config, es: seq<Event>): Packet {
    if es == [] then Oack(c.options)
    else if es[|es| - 1].Arrive? then es[|es| - 1].packet
    else Buffered(c, es[..|es| - 1])
  }

  lemma {:induction false} OackPhaseBuffer(c: Config, es: seq<Event>)
    requires SenderRun(c, es).0.phase == AwaitOackReply
    ensures SenderRun(c, es).0.ackbuf == Buffered(c, es)
  {
    if es == [] {
    } else {
      OackPhaseBuffer(c, es[..|es| - 1]);
    }
    hide GivesUp, Chunk;
  }

  /** In the OACK phase number 0 starts the data, any other acknowledgement makes the sender repeat its buffer, and
      other packets are ignored.
   */
  lemma SenderOnOackReply(c: Config, es: seq<Event>, p: Packet)
    requires SenderRun(c, es).0.phase == AwaitOackReply && p != Error
    ensures var (s, sent) := SenderRun(c, es); var (s', sent') := SenderRun(c, es + [Arrive(p)]);
      && (p == Ack(0) ==> s'.phase == AwaitAck && s'.acked == 0 && sent' == sent + [Data(1, c.Block(0))])
      && (p != Ack(0) ==>
            && s'.phase == AwaitOackReply && s'.timer == s.timer
            && sent' == sent + if p.Ack? then [p] else [])
  {
    DataPhasePackets(c, es);
    assert Number(1, c.rollover) == 1;
    SenderSnoc(c, es, Arrive(p));
    hide SenderRun, Number, Chunk;
  }

  /** A timeout makes the sender repeat what it sent last, five times; the sixth ends the transfer. */
  lemma SenderOnTimeout(c: Config, es: seq<Event>)
    requires c.Valid() && SenderWaiting(SenderRun(c, es).0)
    ensures var (s, sent) := SenderRun(c, es); var (s', sent') := SenderRun(c, es + [Timeout]);
      && (s.timer.fired < 5 ==>
            && s'.phase == s.phase && s'.acked == s.acked
            && sent' == sent + [if s.phase == AwaitOackReply then Buffered(c, es)
                                else Data(Number(s.acked + 1, c.rollover), c.Block(s.acked))])
      && (s.timer.fired >= 5 ==> s'.phase == SenderTimedOut && sent' == sent)
  {
    DataPhasePackets(c, es);
    SenderRetransmissionBound(c, es);
    SenderSnoc(c, es, Timeout);
    var (s, sent) := SenderRun(c, es);
    ExpireInStep(c, s.timer);
    if s.phase == AwaitOackReply {
      OackPhaseBuffer(c, es);
    }
    assert sent + [] == sent;
    hide SenderRun, Number, Chunk, GivesUp, TimerInStep;
  }

  // ----- The receiver

  /** With `n` blocks accepted, DATA with the number of the next block is accepted and acknowledged, and ends the loop
      if it is short; DATA with the number before that is answered as before; everything else but an error is ignored.
   */
  lemma ReceiverOnPacket(c: Config, es: seq<Event>, p: Packet)
    requires ReceiverRun(c, es).0.phase == AwaitData && p != Error
    ensures var (r, sent) := ReceiverRun(c, es); var (r', sent') := ReceiverRun(c, es + [Arrive(p)]);
      var n := |r.accepted|; var next := Number(n + 1, c.rollover);
      && (p.Data? && p.block == next ==>
            && r'.accepted == r.accepted + [p.payload] && sent' == sent + [Ack(next)]
            && r'.phase == (if |p.payload| == c.segsize then AwaitData else Dallying))
      && (!(p.Data? && p.block == next) ==>
            && r'.phase == AwaitData && r'.accepted == r.accepted && r'.timer == r.timer
            && sent' == sent + if p.Data? && p.block + 1 == next then [ReplyFor(c, n)] else [])
  {
    StableReplies(c, es);
    ReceiverSnoc(c, es, Arrive(p));
    assert Number(1, c.rollover) == 1;
    var (r, sent) := ReceiverRun(c, es);
    assert sent + [] == sent;
    hide ReceiverRun, Number;
  }

  /** A timeout makes the receiver repeat its acknowledgement, five times; the sixth ends the transfer. */
  lemma ReceiverOnTimeout(c: Config, es: seq<Event>)
    requires c.Valid() && ReceiverRun(c, es).0.phase == AwaitData
    ensures var (r, sent) := ReceiverRun(c, es); var (r', sent') := ReceiverRun(c, es + [Timeout]);
      && r'.accepted == r.accepted
      && (r.timer.fired < 5 ==> r'.phase == AwaitData && sent' == sent + [ReplyFor(c, |r.accepted|)])
      && (r.timer.fired >= 5 ==> r'.phase == ReceiverTimedOut && sent' == sent)
  {
    StableReplies(c, es);
    ReceiverRetransmissionBound(c, es);
    ReceiverSnoc(c, es, Timeout);
    var (r, sent) := ReceiverRun(c, es);
    ExpireInStep(c, r.timer);
    assert sent + [] == sent;
    hide ReceiverRun, Number, GivesUp, TimerInStep;
  }
}
