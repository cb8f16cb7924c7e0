/** Sender and receiver joined by two FIFO channels that may lose and duplicate packets at any point. */
module LossyLink {
  import opened BlockNumbers
  import opened Chunks
  import opened Machines
  import opened MachineRuns

  datatype State = State(s: Sender, r: Receiver, data: seq<Packet>, acks: seq<Packet>)

  /** `synchnet` drains packets, which is one more way to lose them. */
  datatype Action =
    | DeliverData | DeliverAck
    | SenderTimer | ReceiverTimer
    | SenderFails | ReceiverFails
    | SenderSendFails | ReceiverSendFails
    | LoseData(i: nat) | LoseAck(i: nat)
    | RepeatData(i: nat) | RepeatAck(i: nat)

  function Lose(ch: seq<Packet>, i: nat): seq<Packet> {
    if i < |ch| then ch[..i] + ch[i + 1..] else ch
  }

  function Repeat(ch: seq<Packet>, i: nat): seq<Packet> {
    if i < |ch| then ch[..i] + [ch[i]] + ch[i..] else ch
  }

  function Start(c: Config): State {
    var (s, sOut) := SenderStart(c);
    var (r, rOut) := ReceiverStart(c);
    State(s, r, sOut, rOut)
  }

  function SenderSees(c: Config, st: State, e: Event): State {
    var (s', out) := SenderNext(c, st.s, e);
    st.(s := s', data := st.data + out)
  }

  function ReceiverSees(c: Config, st: State, e: Event): State {
    var (r', out) := ReceiverNext(c, st.r, e);
    st.(r := r', acks := st.acks + out)
  }

  /** One step of the joined system; an action that is not possible leaves the state alone. */
  function Act(c: Config, st: State, a: Action): State {
    match a
    case DeliverData =>
      if st.data == [] then st else ReceiverSees(c, st.(data := st.data[1..]), Arrive(st.data[0]))
    case DeliverAck =>
      if st.acks == [] then st else SenderSees(c, st.(acks := st.acks[1..]), Arrive(st.acks[0]))
    case SenderTimer => SenderSees(c, st, Timeout)
    case ReceiverTimer => ReceiverSees(c, st, Timeout)
    case SenderFails => SenderSees(c, st, Fail)
    case ReceiverFails => ReceiverSees(c, st, Fail)
    case SenderSendFails => SenderSees(c, st, SendFails)
    case ReceiverSendFails => ReceiverSees(c, st, SendFails)
    case LoseData(i) => st.(data := Lose(st.data, i))
    case LoseAck(i) => st.(acks := Lose(st.acks, i))
    case RepeatData(i) => st.(data := Repeat(st.data, i))
    case RepeatAck(i) => st.(acks := Repeat(st.acks, i))
  }

  /** The state after any sequence of actions: every reachable state is of this form. */
  function Reached(c: Config, run: seq<Action>): State {
    if run == [] then Start(c) else Act(c, Reached(c, run[..|run| - 1]), run[|run| - 1])
  }

  // ----- The invariant

  /** Block `k` as it travels, and the acknowledgement of `n` blocks. */
  function D(c: Config, k: nat): Packet {
    Data(Number(k + 1, c.rollover), c.Block(k))
  }

  function A(c: Config, n: nat): Packet {
    Ack(Number(n, c.rollover))
  }

  /** Numbers tell neighbouring blocks of this transfer apart. */
  predicate Distinct(c: Config)
    requires c.segsize > 0
  {
    c.rollover < MAX_BLOCK || c.Count() <= MAX_BLOCK
  }

  /** DATA packets in a channel are copies of `older` followed by copies of `newer`. */
  predicate DataOrdered(ch: seq<Packet>, older: Packet, newer: Packet) {
    && (forall i :: 0 <= i < |ch| && ch[i].Data? ==> ch[i] == older || ch[i] == newer)
    && (forall i, j :: 0 <= i < j < |ch| && ch[i] == newer && ch[j].Data? ==> ch[j] == newer)
  }

  predicate AcksOrdered(ch: seq<Packet>, older: Packet, newer: Packet) {
    && (forall i :: 0 <= i < |ch| ==> ch[i].Ack? || ch[i].Oack?)
    && (forall i :: 0 <= i < |ch| && ch[i].Ack? ==> ch[i] == older || ch[i] == newer)
    && (forall i, j :: 0 <= i < j < |ch| && ch[i] == newer && ch[j].Ack? ==> ch[j] == newer)
  }

  predicate NoData(ch: seq<Packet>) {
    forall i :: 0 <= i < |ch| ==> !ch[i].Data?
  }

  /** The two ends, leaving the channels aside. */
  predicate EndsAgree(c: Config, s: Sender, r: Receiver)
    requires c.segsize > 0
  {
    var a, n := s.acked, |r.accepted|;
    && ReceiverInStep(c, r)
    && s.block == Number(a + 1, c.rollover)
    && a <= n <= a + 1 && n <= c.Count()
    && r.accepted == Blocks(c.stream, c.segsize, n)
    && (r.phase == Dallying || r.phase == Closed <==> n == c.Count())
    && (s.phase == AwaitOackReply ==> n == 0 && !s.ackbuf.Data? && c.senderOack)
    && (s.phase == AwaitAck ==> a < c.Count())
    && (s.phase == Finished ==> a == c.Count())
  }

  /** What may be in flight: while the receiver is behind, one old and the current block; once it has caught up,
      only the current block, and acknowledgements of the old and the current one.
   */
  predicate ChannelsAgree(c: Config, st: State) {
    var a, n := st.s.acked, |st.r.accepted|;
    && (if n == a
        then (if a == 0 then DataOrdered(st.data, D(c, 0), D(c, 0)) else DataOrdered(st.data, D(c, a - 1), D(c, a)))
             && AcksOrdered(st.acks, A(c, a), A(c, a))
        else DataOrdered(st.data, D(c, a), D(c, a)) && AcksOrdered(st.acks, A(c, a), A(c, a + 1)))
    && (st.s.phase == AwaitOackReply ==> NoData(st.data))
  }

  predicate Inv(c: Config, st: State)
    requires c.segsize > 0
  {
    EndsAgree(c, st.s, st.r) && ChannelsAgree(c, st)
  }

  lemma StartInv(c: Config)
    requires c.Valid()
    ensures Inv(c, Start(c))
  {
    ReceiverStartInStep(c);
    assert Number(1, c.rollover) == Next(Number(0, c.rollover), c.rollover);
  }

  // ----- Channels keep their shape

  lemma LoseKeepsData(ch: seq<Packet>, i: nat, older: Packet, newer: Packet)
    requires DataOrdered(ch, older, newer)
    ensures DataOrdered(Lose(ch, i), older, newer)
    ensures NoData(ch) ==> NoData(Lose(ch, i))
  {
    var ch' := Lose(ch, i);
    if i < |ch| {
      assert forall k :: 0 <= k < |ch'| ==> ch'[k] == ch[if k < i then k else k + 1];
    }
  }

  lemma RepeatKeepsData(ch: seq<Packet>, i: nat, older: Packet, newer: Packet)
    requires DataOrdered(ch, older, newer)
    ensures DataOrdered(Repeat(ch, i), older, newer)
    ensures NoData(ch) ==> NoData(Repeat(ch, i))
  {
    var ch' := Repeat(ch, i);
    if i < |ch| {
      assert forall k :: 0 <= k < |ch'| ==> ch'[k] == ch[if k <= i then k else k - 1];
    }
  }

  lemma LoseKeepsAcks(ch: seq<Packet>, i: nat, older: Packet, newer: Packet)
    requires AcksOrdered(ch, older, newer)
    ensures AcksOrdered(Lose(ch, i), older, newer)
  {
    var ch' := Lose(ch, i);
    if i < |ch| {
      assert forall k :: 0 <= k < |ch'| ==> ch'[k] == ch[if k < i then k else k + 1];
    }
  }

  lemma RepeatKeepsAcks(ch: seq<Packet>, i: nat, older: Packet, newer: Packet)
    requires AcksOrdered(ch, older, newer)
    ensures AcksOrdered(Repeat(ch, i), older, newer)
  {
    var ch' := Repeat(ch, i);
    if i < |ch| {
      assert forall k :: 0 <= k < |ch'| ==> ch'[k] == ch[if k <= i then k else k - 1];
    }
  }

  lemma NetworkKeepsInv(c: Config, st: State, a: Action)
    requires c.segsize > 0 && Inv(c, st)
    requires a.LoseData? || a.LoseAck? || a.RepeatData? || a.RepeatAck?
    ensures Inv(c, Act(c, st, a))
  {
    var k, n := st.s.acked, |st.r.accepted|;
    var oldD := if n == k && k > 0 then D(c, k - 1) else D(c, k);
    var newA := if n == k then A(c, k) else A(c, k + 1);
    match a {
      case LoseData(i) => LoseKeepsData(st.data, i, oldD, D(c, k));
      case RepeatData(i) => RepeatKeepsData(st.data, i, oldD, D(c, k));
      case LoseAck(i) => LoseKeepsAcks(st.acks, i, A(c, k), newA);
      case RepeatAck(i) => RepeatKeepsAcks(st.acks, i, A(c, k), newA);
    }
  }

  // ----- The receiver's steps

  lemma AppendKeepsAcks(ch: seq<Packet>, out: seq<Packet>, older: Packet, newer: Packet)
    requires AcksOrdered(ch, older, newer) && newer.Ack?
    requires forall p :: p in out ==> p == newer || p.Oack?
    ensures AcksOrdered(ch + out, older, newer)
  {
    forall k | |ch| <= k < |ch + out|
      ensures (ch + out)[k] == newer || (ch + out)[k].Oack?
    {
      assert (ch + out)[k] == out[k - |ch|];
    }
  }

  /** Sending the current acknowledgement once more changes nothing about the channels. */
  lemma ReplyKeepsChannels(c: Config, st: State, out: seq<Packet>)
    requires c.segsize > 0 && Inv(c, st)
    requires forall p :: p in out ==> p == ReplyFor(c, |st.r.accepted|)
    ensures ChannelsAgree(c, st.(acks := st.acks + out))
  {
    var a, n := st.s.acked, |st.r.accepted|;
    AppendKeepsAcks(st.acks, out, A(c, a), A(c, n));
    hide Number, AcksOrdered, DataOrdered, NoData, Chunk;
  }

  /** The event is not the DATA packet the receiver waits for. */
  predicate Quiet(r: Receiver, e: Event) {
    r.phase == AwaitData && e.Arrive? && e.packet.Data? ==> e.packet.block != r.block
  }

  /** Any other packet, even DATA with another number, is at most answered again. */
  lemma QuietReceiver(c: Config, s: Sender, r: Receiver, e: Event)
    requires c.segsize > 0 && EndsAgree(c, s, r) && Quiet(r, e)
    ensures var r' := ReceiverNext(c, r, e).0; EndsAgree(c, s, r') && r'.accepted == r.accepted
  {
    ReceiverStepInStep(c, r, e);
    hide GivesUp, Chunk, Number, ReceiverInStep, Blocks;
  }

  lemma ReceiverKeepsInv(c: Config, st: State, e: Event)
    requires c.segsize > 0 && Inv(c, st) && Quiet(st.r, e)
    ensures Inv(c, ReceiverSees(c, st, e))
  {
    ReceiverStepInStep(c, st.r, e);
    QuietReceiver(c, st.s, st.r, e);
    ReplyKeepsChannels(c, st, ReceiverNext(c, st.r, e).1);
    hide ReceiverNext, AcksOrdered, DataOrdered, NoData, ReceiverInStep, Blocks, Number, Chunk;
  }

  /** With distinct numbers, a DATA packet that has the expected number is the block the receiver waits for. */
  lemma ExpectedBlock(c: Config, st: State)
    requires c.Valid() && Inv(c, st) && Distinct(c)
    requires st.data != [] && !Quiet(st.r, Arrive(st.data[0]))
    ensures |st.r.accepted| == st.s.acked && st.data[0] == D(c, st.s.acked)
  {
    NeighboursDiffer(st.s.acked, c.rollover);
    NeighboursDiffer(st.s.acked + 1, c.rollover);
    hide Number, Chunk, Next;
  }

  lemma AcceptKeepsInv(c: Config, st: State)
    requires c.Valid() && Inv(c, st) && Distinct(c)
    requires st.data != [] && st.r.phase == AwaitData && |st.r.accepted| == st.s.acked && st.data[0] == D(c, st.s.acked)
    ensures Inv(c, Act(c, st, DeliverData))
  {
    var a := st.s.acked;
    var rest := st.data[1..];
    ReceiverStepInStep(c, st.r, Arrive(st.data[0]));
    ChunkLength(c.stream, c.segsize, a);
    assert forall i :: 0 <= i < |rest| ==> rest[i] == st.data[i + 1];
    hide GivesUp, Chunk, Number;
  }

  // ----- The sender's steps

  lemma AppendKeepsData(ch: seq<Packet>, out: seq<Packet>, older: Packet, newer: Packet)
    requires DataOrdered(ch, older, newer) && newer.Data?
    requires forall p :: p in out ==> p == newer || !p.Data?
    ensures DataOrdered(ch + out, older, newer)
  {
    forall k | |ch| <= k < |ch + out|
      ensures (ch + out)[k] == newer || !(ch + out)[k].Data?
    {
      assert (ch + out)[k] == out[k - |ch|];
    }
  }

  /** Sending the current block, or something that is not DATA, changes nothing about the channels. */
  lemma SendKeepsChannels(c: Config, st: State, s': Sender, out: seq<Packet>)
    requires c.segsize > 0 && Inv(c, st) && s'.acked == st.s.acked
    requires forall p :: p in out ==> p == D(c, st.s.acked) || !p.Data?
    requires s'.phase == AwaitOackReply ==> st.s.phase == AwaitOackReply && forall p :: p in out ==> !p.Data?
    ensures ChannelsAgree(c, st.(s := s', data := st.data + out))
  {
    var a, n := st.s.acked, |st.r.accepted|;
    AppendKeepsData(st.data, out, if n == a && a > 0 then D(c, a - 1) else D(c, a), D(c, a));
    hide Number, AcksOrdered, DataOrdered, Chunk;
  }

  /** The event is not the acknowledgement the sender waits for. */
  predicate Unacknowledged(s: Sender, e: Event) {
    s.phase == AwaitAck && e.Arrive? ==> e.packet != Ack(s.block)
  }

  /** Any other event leaves the count of acknowledged blocks alone. */
  lemma QuietSender(c: Config, s: Sender, r: Receiver, e: Event)
    requires c.Valid() && EndsAgree(c, s, r) && Unacknowledged(s, e) && (e.Arrive? ==> !e.packet.Data?)
    ensures var (s', out) := SenderNext(c, s, e);
      && EndsAgree(c, s', r) && s'.acked == s.acked
      && (forall p :: p in out ==> p == D(c, s.acked) || !p.Data?)
      && (s'.phase == AwaitOackReply ==> s.phase == AwaitOackReply && forall p :: p in out ==> !p.Data?)
  {
    hide GivesUp, Chunk, Number, ReceiverInStep, Blocks;
  }

  lemma SenderKeepsInv(c: Config, st: State, e: Event)
    requires c.Valid() && Inv(c, st) && Unacknowledged(st.s, e) && (e.Arrive? ==> !e.packet.Data?)
    ensures Inv(c, SenderSees(c, st, e))
  {
    QuietSender(c, st.s, st.r, e);
    var (s', out) := SenderNext(c, st.s, e);
    SendKeepsChannels(c, st, s', out);
    hide SenderNext, AcksOrdered, DataOrdered, NoData, ReceiverInStep, Blocks, Number, Chunk;
  }

  /** With distinct numbers, the awaited acknowledgement means that the receiver has the block in flight. */
  lemma ExpectedAck(c: Config, st: State)
    requires c.Valid() && Inv(c, st) && Distinct(c)
    requires st.acks != [] && !Unacknowledged(st.s, Arrive(st.acks[0]))
    ensures |st.r.accepted| == st.s.acked + 1 && st.acks[0] == A(c, st.s.acked + 1)
  {
    NeighboursDiffer(st.s.acked, c.rollover);
    hide Number, Chunk, Next;
  }

  lemma AcksAreNotData(c: Config, st: State)
    requires c.segsize > 0 && Inv(c, st) && st.acks != []
    ensures !st.acks[0].Data?
  {
  }

  lemma AcknowledgeKeepsInv(c: Config, st: State)
    requires c.Valid() && Inv(c, st) && Distinct(c)
    requires st.acks != [] && st.s.phase == AwaitAck
    requires |st.r.accepted| == st.s.acked + 1 && st.acks[0] == A(c, st.s.acked + 1)
    ensures Inv(c, Act(c, st, DeliverAck))
  {
    var a := st.s.acked;
    AcknowledgeKeepsEnds(c, st.s, st.r, st.acks[0]);
    AcknowledgeShape(c, st);
    var (s', out) := SenderNext(c, st.s, Arrive(st.acks[0]));
    AppendKeepsData(st.data, out, D(c, a), D(c, a + 1));
    hide SenderNext, AcksOrdered, DataOrdered, NoData, ReceiverInStep, Blocks, Number, Chunk;
  }

  lemma AcknowledgeKeepsEnds(c: Config, s: Sender, r: Receiver, p: Packet)
    requires c.Valid() && EndsAgree(c, s, r) && s.phase == AwaitAck && |r.accepted| == s.acked + 1 && p == Ack(s.block)
    ensures var (s', out) := SenderNext(c, s, Arrive(p));
      && EndsAgree(c, s', r) && s'.acked == s.acked + 1 && s'.phase != AwaitOackReply
      && forall q :: q in out ==> q == D(c, s.acked + 1)
  {
    ChunkLength(c.stream, c.segsize, s.acked);
    assert Number(s.acked + 2, c.rollover) == Next(Number(s.acked + 1, c.rollover), c.rollover);
    hide GivesUp, Chunk, Number, ReceiverInStep, Blocks;
  }

  /** Once the acknowledgement of block `a` is consumed, only copies of it are left, and copies of the block itself. */
  lemma AcknowledgeShape(c: Config, st: State)
    requires ChannelsAgree(c, st) && st.acks != []
    requires |st.r.accepted| == st.s.acked + 1 && st.acks[0] == A(c, st.s.acked + 1)
    ensures var a := st.s.acked;
      && DataOrdered(st.data, D(c, a), D(c, a + 1))
      && AcksOrdered(st.acks[1..], A(c, a + 1), A(c, a + 1))
  {
    hide Number, Chunk;
    var rest := st.acks[1..];
    assert forall i :: 0 <= i < |rest| ==> rest[i] == st.acks[i + 1];
  }

  lemma StepKeepsInv(c: Config, st: State, a: Action)
    requires c.Valid() && Inv(c, st) && Distinct(c)
    ensures Inv(c, Act(c, st, a))
  {
    hide Inv, Distinct, ReceiverNext, SenderNext, Repeat;
    match a {
      case DeliverData =>
        if st.data != [] {
          if Quiet(st.r, Arrive(st.data[0])) {
            NetworkKeepsInv(c, st, LoseData(0));
            ReceiverKeepsInv(c, Act(c, st, LoseData(0)), Arrive(st.data[0]));
            assert Lose(st.data, 0) == st.data[1..];
          } else {
            ExpectedBlock(c, st);
            AcceptKeepsInv(c, st);
          }
        }
      case DeliverAck =>
        if st.acks != [] {
          if Unacknowledged(st.s, Arrive(st.acks[0])) {
            NetworkKeepsInv(c, st, LoseAck(0));
            AcksAreNotData(c, st);
            SenderKeepsInv(c, Act(c, st, LoseAck(0)), Arrive(st.acks[0]));
            assert Lose(st.acks, 0) == st.acks[1..];
          } else {
            ExpectedAck(c, st);
            AcknowledgeKeepsInv(c, st);
          }
        }
      case SenderTimer => SenderKeepsInv(c, st, Timeout);
      case SenderFails => SenderKeepsInv(c, st, Fail);
      case ReceiverTimer => ReceiverKeepsInv(c, st, Timeout);
      case ReceiverFails => ReceiverKeepsInv(c, st, Fail);
      case SenderSendFails => SenderKeepsInv(c, st, SendFails);
      case ReceiverSendFails => ReceiverKeepsInv(c, st, SendFails);
      case LoseData(i) => NetworkKeepsInv(c, st, a);
      case LoseAck(i) => NetworkKeepsInv(c, st, a);
      case RepeatData(i) => NetworkKeepsInv(c, st, a);
      case RepeatAck(i) => NetworkKeepsInv(c, st, a);
    }
  }

  lemma {:induction false} ReachedInv(c: Config, run: seq<Action>)
    requires c.Valid() && Distinct(c)
    ensures Inv(c, Reached(c, run))
  {
    if run == [] {
      StartInv(c);
    } else {
      ReachedInv(c, run[..|run| - 1]);
      StepKeepsInv(c, Reached(c, run[..|run| - 1]), run[|run| - 1]);
    }
  }

  // ----- Safety, and exactly when it holds

  /** The receiver has a prefix of the transfer, ahead of the acknowledged blocks by at most one; when the sender has
      finished the receiver has left its loop normally, and then it has every block.
   */
  predicate Safe(c: Config, st: State)
    requires c.segsize > 0
  {
    var n := |st.r.accepted|;
    && st.r.accepted <= Blocks(c.stream, c.segsize, c.Count())
    && st.s.acked <= n <= st.s.acked + 1
    && (st.s.phase == Finished ==> st.r.phase == Dallying || st.r.phase == Closed)
    && (st.r.phase == Dallying || st.r.phase == Closed ==> st.r.accepted == Blocks(c.stream, c.segsize, c.Count()))
  }

  lemma InvIsSafe(c: Config, st: State)
    requires c.segsize > 0 && Inv(c, st)
    ensures Safe(c, st)
  {
    var n, all := |st.r.accepted|, Blocks(c.stream, c.segsize, c.Count());
    assert st.r.accepted == all[..n];
  }

  /** Every reachable state is safe, however often the block numbers wrapped. */
  lemma TransferSafe(c: Config, run: seq<Action>)
    requires c.Valid() && Distinct(c)
    ensures Safe(c, Reached(c, run))
  {
    ReachedInv(c, run);
    InvIsSafe(c, Reached(c, run));
  }
}
