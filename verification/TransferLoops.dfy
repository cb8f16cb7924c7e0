/** `tftp_sendfile` and `tftp_recvfile` as the loops they are, working on the two-buffer layer. A run is driven by the
    events the waiting calls report, in order; each loop is proved to behave as its step machine.
 */
module TransferLoops {
  import opened Constants
  import opened BlockNumbers
  import opened Chunks
  import opened Netascii
  import opened Machines
  import R = ReadAheads
  import W = WriteBehinds

  // ----- The sending loop

  lemma SenderRunStep(c: Config, es: seq<Event>, i: nat)
    requires i < |es|
    ensures var (s, sent) := SenderRun(c, es[..i]); var (s', out) := SenderNext(c, s, es[i]);
      SenderRun(c, es[..i + 1]) == (s', sent + out)
  {
    assert es[..i + 1][..i] == es[..i];
  }

  /** A sender that stopped takes no notice of later events. */
  lemma {:induction false} SenderStopped(c: Config, es: seq<Event>, i: nat)
    requires i <= |es|
    requires var s := SenderRun(c, es[..i]).0; s.phase != AwaitOackReply && s.phase != AwaitAck
    ensures SenderRun(c, es) == SenderRun(c, es[..i])
    decreases |es| - i
  {
    if i == |es| {
      assert es[..i] == es;
    } else {
      SenderRunStep(c, es, i);
      var (s, sent) := SenderRun(c, es[..i]);
      assert sent + [] == sent;
      SenderStopped(c, es, i + 1);
    }
  }

  /** The OACK phase: resend on timeouts and stale acknowledgements until number 0 is acknowledged. */
  method SendOack(c: Config, events: seq<Event>) returns (done: bool, i: nat, s: Sender, sent: seq<Packet>)
    requires c.senderOack
    ensures i <= |events|
    ensures done ==> SenderRun(c, events) == (s, sent)
    ensures !done ==>
      var (s', out) := TakeUpBlock(c, s);
      SenderRun(c, events[..i]) == (s', sent + out) && s.acked == 0
  {
    hide TakeUpBlock;
    s := Sender(AwaitOackReply, 0, 1, Armed(c), Oack(c.options), 0, 0);
    done, i, sent := false, 0, [];
    var send := true;
    assert [] + [s.ackbuf] == [s.ackbuf];
    while true
      invariant i <= |events|
      invariant s.phase == AwaitOackReply && s.acked == 0
      invariant SenderRun(c, events[..i]) == (s, sent + if send then [s.ackbuf] else [])
      decreases |events| - i
    {
      if send {
        sent, send := sent + [s.ackbuf], false;
      }
      assert sent + [] == sent;
      if i == |events| {
        assert events[..i] == events;
        return true, i, s, sent;
      }
      SenderRunStep(c, events, i);
      ghost var k := i + 1;
      match events[i] {
        case Timeout =>
          s := s.(timer := Expire(s.timer));
          if GivesUp(c, s.timer) {
            s := s.(phase := SenderTimedOut);
            SenderStopped(c, events, k);
            return true, i, s, sent;
          }
          send := true;
        case Arrive(p) =>
          s := s.(ackbuf := p);
          if p.Error? {
            s := s.(phase := SenderAborted);
            SenderStopped(c, events, k);
            return true, i, s, sent;
          }
          if p == Ack(0) {
            i := i + 1;
            return;
          }
          send := p.Ack?;
        case _ =>
          s := s.(phase := SenderAborted);
          SenderStopped(c, events, k);
          return true, i, s, sent;
      }
      i := i + 1;
    }
  }

  /** One block: send it, read ahead, and wait until it is acknowledged or the transfer ends. Every retransmission
      sends the buffer as it is at that moment, after any number of calls of `read_ahead`.
   */
  method SendBlock(c: Config, f: R.Reader, events: seq<Event>, i0: nat, sent0: seq<Packet>, s1: Sender)
    returns (done: bool, size: nat, i: nat, s: Sender, sent: seq<Packet>)
    requires f.Valid() && c.segsize == f.segsize && c.stream == f.Stream() && f.returned == s1.acked
    requires i0 <= |events| && s1.phase == AwaitAck
    requires SenderRun(c, events[..i0]) == (s1, sent0 + [DataPacket(c, s1)])
    modifies f, f.bufs
    ensures f.Valid() && f.returned == s1.acked + 1 && size == |c.Block(s1.acked)| <= c.segsize
    ensures i0 <= i <= |events|
    ensures done ==> SenderRun(c, events) == (s, sent)
    ensures !done ==>
      && i0 < i && s.phase == AwaitAck && s.acked == s1.acked
      && SenderRun(c, events[..i]) == (BlockAcknowledged(c, s).0, sent + BlockAcknowledged(c, s).1)
  {
    hide TakeUpBlock, BlockAcknowledged, GivesUp, Chunk, SenderRun, R.Reader.Valid, R.Reader.Stream;
    done, i, s, sent := false, i0, s1, sent0;
    size := f.ReadIt();
    var send := true;
    while true
      invariant i0 <= i <= |events|
      invariant f.Valid() && f.returned == s1.acked + 1
      invariant size == |c.Block(s1.acked)|
      invariant s.phase == AwaitAck && s.acked == s1.acked
      invariant SenderRun(c, events[..i]) == (s, sent + if send then [DataPacket(c, s)] else [])
      decreases |events| - i
    {
      if send {
        sent := sent + [Data(s.block, f.Outgoing())];
        if i == |events| || !events[i].SendFails? {
          f.Prefetch();
        }
        send := false;
      }
      assert sent + [] == sent;
      if i == |events| {
        assert events[..i] == events;
        done := true;
        return;
      }
      SenderRunStep(c, events, i);
      match events[i] {
        case Timeout =>
          s := s.(timer := Expire(s.timer));
          if GivesUp(c, s.timer) {
            s, done := s.(phase := SenderTimedOut), true;
            SenderStopped(c, events, i + 1);
            return;
          }
          s, send := s.(timeouts := s.timeouts + 1), true;
        case Arrive(p) =>
          s := s.(ackbuf := p);
          if p.Error? {
            s, done := s.(phase := SenderAborted), true;
            SenderStopped(c, events, i + 1);
            return;
          }
          if p == Ack(s.block) {
            i := i + 1;
            return;
          }
        case _ =>
          s, done := s.(phase := SenderAborted), true;
          SenderStopped(c, events, i + 1);
          return;
      }
      i := i + 1;
    }
  }

  /** The data loop: one block after another until a short one was acknowledged. */
  method SendBlocks(c: Config, f: R.Reader, events: seq<Event>, i0: nat, s0: Sender, sent0: seq<Packet>)
    returns (s: Sender, sent: seq<Packet>)
    requires f.Valid() && c.segsize == f.segsize && c.stream == f.Stream() && f.returned == s0.acked
    requires i0 <= |events|
    requires SenderRun(c, events[..i0]) == (TakeUpBlock(c, s0).0, sent0 + TakeUpBlock(c, s0).1)
    modifies f, f.bufs
    ensures SenderRun(c, events) == (s, sent)
  {
    hide Chunk, SenderRun, SenderNext, R.Reader.Valid, R.Reader.Stream;
    var i;
    i, s, sent := i0, s0, sent0;
    while true
      invariant i <= |events| && f.Valid() && f.returned == s.acked
      invariant SenderRun(c, events[..i]) == (TakeUpBlock(c, s).0, sent + TakeUpBlock(c, s).1)
      decreases |events| - i
    {
      var s1 := s.(phase := AwaitAck, timer := Armed(c), started := s.started + 1);
      var done, size;
      done, size, i, s, sent := SendBlock(c, f, events, i, sent, s1);
      if done {
        return;
      }
      if size != c.segsize {
        s := s.(acked := s.acked + 1, block := Next(s.block, c.rollover), phase := Finished);
        assert sent + [] == sent;
        SenderStopped(c, events, i);
        return;
      }
      s := s.(acked := s.acked + 1, block := Next(s.block, c.rollover));
    }
  }

  /** `tftp_sendfile` behaves as the sending machine on the blocks of the converted file, for every course of events. */
  method SendFile(c: Config, f: R.Reader, events: seq<Event>) returns (s: Sender, sent: seq<Packet>)
    requires f.Valid() && f.returned == 0 && c.segsize == f.segsize && c.stream == f.Stream()
    modifies f, f.bufs
    ensures SenderRun(c, events) == (s, sent)
  {
    hide Chunk, SenderNext, R.Reader.Valid, R.Reader.Stream;
    var i := 0;
    if c.senderOack {
      var done;
      done, i, s, sent := SendOack(c, events);
      if done {
        return;
      }
    } else {
      s, sent := Sender(AwaitOackReply, 0, 1, Armed(c), Oack(c.options), 0, 0), [];
      assert [] + TakeUpBlock(c, s).1 == TakeUpBlock(c, s).1;
    }
    s, sent := SendBlocks(c, f, events, i, s, sent);
  }

  // ----- The receiving loop

  lemma ReceiverRunStep(c: Config, es: seq<Event>, i: nat)
    requires i < |es|
    ensures var (r, sent) := ReceiverRun(c, es[..i]); var (r', out) := ReceiverNext(c, r, es[i]);
      ReceiverRun(c, es[..i + 1]) == (r', sent + out)
  {
    assert es[..i + 1][..i] == es[..i];
  }

  /** A receiver that stopped takes no notice of later events. */
  lemma {:induction false} ReceiverStopped(c: Config, es: seq<Event>, i: nat)
    requires i <= |es|
    requires var r := ReceiverRun(c, es[..i]).0; r.phase != AwaitData && r.phase != Dallying
    ensures ReceiverRun(c, es) == ReceiverRun(c, es[..i])
    decreases |es| - i
  {
    if i == |es| {
      assert es[..i] == es;
    } else {
      ReceiverRunStep(c, es, i);
      var (r, sent) := ReceiverRun(c, es[..i]);
      assert sent + [] == sent;
      ReceiverStopped(c, es, i + 1);
    }
  }

  /** No packet is larger than the buffer it is received into. */
  predicate FitsBuffer(events: seq<Event>) {
    forall i :: 0 <= i < |events| && events[i].Arrive? && events[i].packet.Data? ==>
      |events[i].packet.payload| <= MAX_SEGSIZE
  }

  // ----- What reaches the file

  /** The last event made the receiver accept a block and go on. */
  predicate JustAccepted(c: Config, es: seq<Event>) {
    && es != [] && ReceiverRun(c, es).0.phase == AwaitData
    && |ReceiverRun(c, es[..|es| - 1]).0.accepted| < |ReceiverRun(c, es).0.accepted|
  }

  /** The acknowledgement of a block could not be sent the first time, so the loop was left before the block was written
      behind.
   */
  predicate LastBlockLost(c: Config, es: seq<Event>) {
    es != [] &&
    (LastBlockLost(c, es[..|es| - 1]) || (es[|es| - 1].SendFails? && JustAccepted(c, es[..|es| - 1])))
  }

  function ButLast(bs: seq<seq<Byte>>): seq<seq<Byte>> {
    if bs == [] then [] else bs[..|bs| - 1]
  }

  /** The accepted blocks that reach the file. */
  function Saved(c: Config, es: seq<Event>): seq<seq<Byte>> {
    var accepted := ReceiverRun(c, es).0.accepted;
    if LastBlockLost(c, es) then ButLast(accepted) else accepted
  }

  /** How `accepted` changes: it stays, or a block of full length is added, or the block that ends the loop. */
  lemma AcceptedGrows(c: Config, r: Receiver, e: Event)
    ensures var r' := ReceiverNext(c, r, e).0;
      && ButLast(r'.accepted) <= r.accepted <= r'.accepted
      && (r'.accepted != r.accepted && r'.phase == AwaitData ==> |r'.accepted[|r'.accepted| - 1]| == c.segsize)
  {
    hide GivesUp;
  }

  /** A block is lost only in a transfer that was broken off, and then it is a full one. */
  lemma {:induction false} LostMeansAborted(c: Config, es: seq<Event>)
    ensures LastBlockLost(c, es) ==>
      var r := ReceiverRun(c, es).0;
      r.phase == ReceiverAborted && r.accepted != [] && |r.accepted[|r.accepted| - 1]| == c.segsize
  {
    if LastBlockLost(c, es) {
      var before := es[..|es| - 1];
      LostMeansAborted(c, before);
      if JustAccepted(c, before) {
        AcceptedGrows(c, ReceiverRun(c, before[..|before| - 1]).0, before[|before| - 1]);
      }
    }
    hide AcceptBlock, GivesUp;
  }

  lemma {:induction false} LostStays(c: Config, es: seq<Event>, i: nat)
    requires i <= |es|
    requires var r := ReceiverRun(c, es[..i]).0; r.phase != AwaitData && r.phase != Dallying
    ensures LastBlockLost(c, es) == LastBlockLost(c, es[..i])
    decreases |es| - i
  {
    if i == |es| {
      assert es[..i] == es;
    } else {
      ReceiverRunStep(c, es, i);
      assert es[..i + 1][..i] == es[..i];
      LostStays(c, es, i + 1);
    }
  }

  /** The last accepted block is nothing but the NUL that completes a pair, which netascii decoding swallows. */
  predicate OnlyCompletesPair(accepted: seq<seq<Byte>>, convert: bool) {
    convert && accepted != [] && accepted[|accepted| - 1] == [NUL] && Last(Concat(ButLast(accepted))) == CR
  }

  /** The file is the decoding of all that was accepted exactly when no first send of an acknowledgement failed, except
      that a lost one-byte block may have been without effect; with longer blocks there is no exception.
   */
  lemma SavedExactlyWhen(c: Config, es: seq<Event>, convert: bool)
    requires c.segsize > 0
    ensures var accepted := ReceiverRun(c, es).0.accepted;
      var complete := W.FileOf(Concat(Saved(c, es)), convert) == W.FileOf(Concat(accepted), convert);
      && (complete <==> !LastBlockLost(c, es) || OnlyCompletesPair(accepted, convert))
      && (c.segsize >= 2 ==> (complete <==> !LastBlockLost(c, es)))
  {
    LostMeansAborted(c, es);
    hide ReceiverRun, LastBlockLost, Decode;
    var accepted := ReceiverRun(c, es).0.accepted;
    if LastBlockLost(c, es) {
      var before, last := ButLast(accepted), accepted[|accepted| - 1];
      assert accepted == before + [last];
      ConcatSnoc(before, last);
      DecodeUnchanged(Concat(before), last);
    }
  }

  lemma PairInTwoBlocks(c: Config) returns (es: seq<Event>)
    requires c.Valid() && c.segsize == 1
    ensures LastBlockLost(c, es) && ReceiverRun(c, es).0.accepted == [[CR], [NUL]]
  {
    var e1, e2 := Arrive(Data(1, [CR])), Arrive(Data(2, [NUL]));
    es := [e1, e2, SendFails];
    assert es[..2] == [e1, e2] && es[..2][..1] == [e1] && [e1][..0] == [];
    assert ReceiverRun(c, [e1][..0]) == ReceiverStart(c);
    assert ReceiverRun(c, [e1]).0.accepted == [[CR]];
    assert ReceiverRun(c, es[..2]).0.accepted == [[CR], [NUL]];
  }

  /** The exception exists: with blocks of one byte, a CR and a NUL whose acknowledgement cannot be sent. */
  lemma LossWithoutEffect(c: Config) returns (es: seq<Event>)
    requires c.Valid() && c.segsize == 1
    ensures var accepted := ReceiverRun(c, es).0.accepted;
      LastBlockLost(c, es) && W.FileOf(Concat(Saved(c, es)), true) == W.FileOf(Concat(accepted), true)
  {
    hide ReceiverRun, LastBlockLost, Saved, W.FileOf;
    es := PairInTwoBlocks(c);
    SavedExactlyWhen(c, es, true);
    ConcatSnoc([], [CR]);
    assert [] + [[CR]] == [[CR]] && ButLast([[CR], [NUL]]) == [[CR]];
  }

  /** It can fail: one full block and a failing send. */
  lemma AckFailureLosesBlock(c: Config) returns (es: seq<Event>)
    requires c.Valid()
    ensures LastBlockLost(c, es) && |ReceiverRun(c, es).0.accepted| == 1 && Saved(c, es) == []
  {
    var block := seq(c.segsize, _ => 0);
    es := [Arrive(Data(1, block)), SendFails];
    assert es[..1] == [Arrive(Data(1, block))] && es[..1][..0] == [];
    assert ReceiverRun(c, es[..1][..0]) == ReceiverStart(c);
    assert ReceiverRun(c, es[..1]).0.accepted == [block];
  }

  // ----- The receiving loop

  /** One round of waiting. A packet lands in the buffer handed out, and is kept there if it is the DATA packet
      expected; otherwise the round may ask for the acknowledgement to be sent again, or end the transfer.
   */
  method AwaitEvent(c: Config, w: W.Writer, r0: Receiver, e: Event)
    returns (accepted: bool, send: bool, r: Receiver)
    requires w.Valid() && w.file == W.FileOf(w.flushed, w.convert) && r0.phase == AwaitData
    requires e.Arrive? && e.packet.Data? ==> |e.packet.payload| <= MAX_SEGSIZE
    modifies w, w.bufs
    ensures w.Valid() && w.file == W.FileOf(w.flushed, w.convert)
    ensures r.accepted == r0.accepted && r.block == r0.block && (e.SendFails? ==> r.phase == ReceiverAborted)
    ensures accepted ==>
      && e.Arrive? && r.heard == e.packet && r.heard.Data? && r.heard.block == r.block && r.phase == AwaitData
      && ReceiverNext(c, r0, e) == AcceptBlock(c, r, r.heard.payload)
      && w.received == old(w.received) + r.heard.payload && w.flushed == old(w.received)
    ensures !accepted ==>
      && ReceiverNext(c, r0, e) == (r, if send then [r.reply] else [])
      && r.phase != Dallying && r.phase != Closed && (send ==> r.phase == AwaitData)
      && w.received == old(w.received) && w.flushed == old(w.flushed)
  {
    hide AcceptBlock, GivesUp, W.Writer.Valid, W.FileOf;
    accepted, send, r := false, false, r0;
    match e {
      case Timeout =>
        r := r.(timer := Expire(r.timer));
        if GivesUp(c, r.timer) {
          r := r.(phase := ReceiverTimedOut);
        } else {
          send := true;
        }
      case Arrive(p) =>
        r := r.(heard := p);
        if p.Error? {
          r := r.(phase := ReceiverAborted);
        } else if p.Data? {
          w.Deposit(p.payload);
          if p.block == r.block {
            accepted := true;
            var ct := w.WriteIt(|p.payload|);
          } else if p.block as int == r.block as int - 1 {
            send := true;
          }
        }
      case _ =>
        r := r.(phase := ReceiverAborted);
    }
  }

  /** One acknowledgement and the wait for the next block. Each time the acknowledgement has been sent the waiting block
      is written behind; if it cannot be sent the loop is left before that.
   */
  method AwaitBlock(c: Config, w: W.Writer, events: seq<Event>, i0: nat, r1: Receiver, sent0: seq<Packet>)
    returns (done: bool, i: nat, r: Receiver, sent: seq<Packet>)
    requires FitsBuffer(events) && w.Valid() && w.received == Concat(r1.accepted)
    requires w.file == W.FileOf(w.flushed, w.convert)
    requires i0 <= |events| && r1.phase == AwaitData && ReceiverRun(c, events[..i0]) == (r1, sent0 + [r1.reply])
    requires w.flushed == Concat(if JustAccepted(c, events[..i0]) then ButLast(r1.accepted) else r1.accepted)
    modifies w, w.bufs
    ensures w.Valid() && w.file == W.FileOf(w.flushed, w.convert)
    ensures i0 <= i <= |events|
    ensures done ==>
      && ReceiverRun(c, events) == (r, sent) && r.phase != Dallying && r.phase != Closed
      && w.flushed == Concat(Saved(c, events))
    ensures !done ==>
      && i0 < i && r.phase == AwaitData && r.heard.Data? && r.heard.block == r.block
      && w.flushed == Concat(r.accepted) && w.received == Concat(r.accepted + [r.heard.payload])
      && r.accepted == ReceiverRun(c, events[..i - 1]).0.accepted
      && ReceiverRun(c, events[..i]) == var (r', out) := AcceptBlock(c, r, r.heard.payload); (r', sent + out)
  {
    hide AcceptBlock, ReceiverNext, Chunk, ReceiverRun, Concat, W.Writer.Valid, W.FileOf, JustAccepted, Saved, ButLast;
    done, i, r, sent := false, i0, r1, sent0;
    var send := true;
    while true
      invariant i0 <= i <= |events|
      invariant w.Valid() && w.received == Concat(r.accepted) && w.file == W.FileOf(w.flushed, w.convert)
      invariant r.phase == AwaitData && r.accepted == r1.accepted
      invariant ReceiverRun(c, events[..i]) == (r, sent + if send then [r.reply] else [])
      invariant if i == i0 then send else !JustAccepted(c, events[..i])
      invariant w.flushed == Concat(if JustAccepted(c, events[..i]) then ButLast(r.accepted) else r.accepted)
      decreases |events| - i
    {
      if send {
        sent := sent + [r.reply];
        if i == |events| || !events[i].SendFails? {
          w.Flush();
        }
      }
      assert sent + [] == sent;
      if i == |events| {
        StillWaiting(c, events, i);
        assert events[..i] == events;
        done := true;
        return;
      }
      ReceiverRunStep(c, events, i);
      var accepted;
      accepted, send, r := AwaitEvent(c, w, r, events[i]);
      if accepted {
        ConcatSnoc(r.accepted, r.heard.payload);
        i := i + 1;
        return;
      }
      if r.phase != AwaitData {
        StopsHere(c, events, i);
        done := true;
        return;
      }
      NotAccepted(c, events, i);
      i := i + 1;
    }
  }

  lemma StillWaiting(c: Config, es: seq<Event>, i: nat)
    requires i <= |es| && ReceiverRun(c, es[..i]).0.phase != ReceiverAborted
    ensures !LastBlockLost(c, es[..i]) && Saved(c, es[..i]) == ReceiverRun(c, es[..i]).0.accepted
  {
    LostMeansAborted(c, es[..i]);
  }

  lemma NotAccepted(c: Config, es: seq<Event>, i: nat)
    requires i < |es| && ReceiverRun(c, es[..i]).0.accepted == ReceiverRun(c, es[..i + 1]).0.accepted
    ensures !JustAccepted(c, es[..i + 1])
  {
    assert es[..i + 1][..i] == es[..i];
  }

  /** The receiver stops at event `i`: the rest changes nothing, and a block was lost if that was a failing send. */
  lemma StopsHere(c: Config, es: seq<Event>, i: nat)
    requires i < |es| && ReceiverRun(c, es[..i]).0.phase == AwaitData
    requires var r := ReceiverRun(c, es[..i + 1]).0; r.phase != AwaitData && r.phase != Dallying
    ensures ReceiverRun(c, es) == ReceiverRun(c, es[..i + 1])
    ensures var accepted := ReceiverRun(c, es).0.accepted;
      Saved(c, es) == if es[i].SendFails? && JustAccepted(c, es[..i]) then ButLast(accepted) else accepted
  {
    hide ReceiverRun, JustAccepted;
    ReceiverStopped(c, es, i + 1);
    LostStays(c, es, i + 1);
    StillWaiting(c, es, i);
    assert es[..i + 1][..i] == es[..i];
  }

  /** The loop around it: acknowledge, expect, accept, until a short block was accepted. */
  method AwaitBlocks(c: Config, w: W.Writer, events: seq<Event>)
    returns (done: bool, i: nat, r: Receiver, sent: seq<Packet>)
    requires FitsBuffer(events) && w.Valid() && w.received == w.flushed == [] && w.file == []
    modifies w, w.bufs
    ensures w.Valid() && i <= |events| && w.file == W.FileOf(w.flushed, w.convert)
    ensures done ==> ReceiverRun(c, events) == (r, sent) && r.phase != Dallying && r.phase != Closed
    ensures done ==> w.flushed == Concat(Saved(c, events))
    ensures !done ==> w.received == Concat(r.accepted) && HeardLastBlock(r)
    ensures !done ==>
      ReceiverRun(c, events[..i]) == (r.(phase := Dallying, reply := Ack(r.block)), sent + [Ack(r.block)])
  {
    i, r, sent := 0, Receiver(AwaitData, 0, [], Oack(c.options), c.receiverOack, Armed(c), Other), [];
    assert [] + AcknowledgeAndExpect(c, r).1 == AcknowledgeAndExpect(c, r).1;
    assert !JustAccepted(c, events[..0]) && W.FileOf([], w.convert) == [];
    hide Chunk, ReceiverNext, ReceiverRun, JustAccepted, LastBlockLost, W.Writer.Valid, W.FileOf;
    while true
      invariant i <= |events| && w.Valid() && w.received == Concat(r.accepted) && r.phase == AwaitData
      invariant w.file == W.FileOf(w.flushed, w.convert)
      invariant w.flushed == Concat(if JustAccepted(c, events[..i]) then ButLast(r.accepted) else r.accepted)
      invariant ReceiverRun(c, events[..i]) == (AcknowledgeAndExpect(c, r).0, sent + AcknowledgeAndExpect(c, r).1)
      decreases |events| - i
    {
      if r.block == 0 && r.oap {
        r := r.(reply := Oack(c.options));
      } else {
        r := r.(reply := Ack(r.block), oap := false);
      }
      r := r.(block := Next(r.block, c.rollover), timer := Armed(c));
      done, i, r, sent := AwaitBlock(c, w, events, i, r, sent);
      if done {
        return;
      }
      var size := |r.heard.payload|;
      r := r.(accepted := r.accepted + [r.heard.payload]);
      if size != c.segsize {
        return;
      }
      Accepted(c, events, i);
    }
  }

  lemma Accepted(c: Config, es: seq<Event>, i: nat)
    requires 0 < i <= |es| && ReceiverRun(c, es[..i]).0.phase == AwaitData
    requires |ReceiverRun(c, es[..i - 1]).0.accepted| < |ReceiverRun(c, es[..i]).0.accepted|
    ensures JustAccepted(c, es[..i])
  {
    assert es[..i][..i - 1] == es[..i - 1];
  }

  /** `tftp_recvfile` behaves as the receiving machine for every course of events, and the file is the decoding of all
      accepted blocks but one that was lost to a failing send.
   */
  method RecvFile(c: Config, w: W.Writer, events: seq<Event>) returns (r: Receiver, sent: seq<Packet>)
    requires FitsBuffer(events) && w.Valid() && w.received == w.flushed == [] && w.file == []
    modifies w, w.bufs
    ensures ReceiverRun(c, events) == (r, sent)
    ensures w.file == W.FileOf(Concat(Saved(c, events)), w.convert)
    ensures c.segsize >= 2 ==> (w.file == W.FileOf(Concat(r.accepted), w.convert) <==> !LastBlockLost(c, events))
  {
    hide Chunk, Concat, ReceiverRun, LastBlockLost, Saved, W.Writer.Valid, W.FileOf;
    if c.segsize > 0 {
      SavedExactlyWhen(c, events, w.convert);
    }
    var done, i;
    done, i, r, sent := AwaitBlocks(c, w, events);
    if done {
      return;
    }
    w.Flush();
    r := r.(phase := Dallying, reply := Ack(r.block));
    sent := sent + [r.reply];
    // A failing send of the final acknowledgement goes unnoticed.
    while i < |events| && events[i].SendFails?
      modifies {}
      invariant i <= |events| && ReceiverRun(c, events[..i]) == (r, sent)
    {
      ReceiverRunStep(c, events, i);
      assert sent + [] == sent;
      i := i + 1;
    }
    if i < |events| {
      ReceiverRunStep(c, events, i);
      assert sent + [] == sent;
      r := r.(phase := Closed);
      if events[i].Arrive? && r.heard.Data? && r.heard.block == r.block {
        sent := sent + [r.reply];
      }
      ReceiverStopped(c, events, i + 1);
    }
    assert events[..|events|] == events;
    StillWaiting(c, events, |events|);
  }
}
