/** The two transfer loops as step machines: `tftp_sendfile` and `tftp_recvfile` react to packets and timeouts. */
module Machines {
  import opened Constants
  import opened BlockNumbers
  import opened Chunks

  datatype Packet =
    | Data(block: U16, payload: seq<Byte>)
    | Ack(block: U16)
    | Oack(options: seq<Byte>)
    | Error
    | Other

  /** What a transfer is about: the (converted) bytes, the negotiated values, and which side acknowledges options. */
  datatype Config = Config(stream: seq<Byte>, segsize: nat, rollover: U16, rexmt: nat,
                           senderOack: bool, receiverOack: bool, options: seq<Byte>)
  {
    /** Only the server acknowledges options, so at most one end does. */
    predicate Valid() {
      0 < segsize && 0 < rexmt && !(senderOack && receiverOack)
    }

    function Block(k: nat): seq<Byte> {
      Chunk(stream, segsize, k)
    }

    function Count(): nat
      requires segsize > 0
    {
      BlockCount(stream, segsize)
    }

    function MaxTimeout(): nat {
      TIMEOUT_LIMIT * rexmt
    }
  }

  /** What one round of waiting can bring: the timer, a packet, a failing `send` just before it, or a failing wait. */
  datatype Event = Timeout | Arrive(packet: Packet) | SendFails | Fail

  /** The retransmission timer; `fired` and `waited` record how often it went off since it was armed, and after how
      long.
   */
  datatype Timer = Timer(timeout: nat, fired: nat, waited: nat)

  function Armed(c: Config): Timer {
    Timer(c.rexmt, 0, 0)
  }

  /** `timer`: double the timeout; the process exits when it reaches the maximum. */
  function Expire(t: Timer): Timer {
    Timer(2 * t.timeout, t.fired + 1, t.waited + t.timeout)
  }

  predicate GivesUp(c: Config, t: Timer) {
    t.timeout >= c.MaxTimeout()
  }

  // ----- The sending side

  datatype SenderPhase = AwaitOackReply | AwaitAck | Finished | SenderAborted | SenderTimedOut

  /** `acked` blocks are acknowledged and block `acked` is in flight under the number `block`. `ackbuf` is the
      buffer that first holds the OACK and later whatever arrived last. `started` and `timeouts` count the blocks
      taken up and the timeouts taken in the data phase.
   */
  datatype Sender = Sender(phase: SenderPhase, acked: nat, block: U16, timer: Timer, ackbuf: Packet,
                           started: nat, timeouts: nat)

  function DataPacket(c: Config, s: Sender): Packet {
    Data(s.block, c.Block(s.acked))
  }

  /** The head of the data loop: read the next block, arm the timer, send. */
  function TakeUpBlock(c: Config, s: Sender): (Sender, seq<Packet>) {
    var s' := s.(phase := AwaitAck, timer := Armed(c), started := s.started + 1);
    (s', [DataPacket(c, s')])
  }

  function SenderStart(c: Config): (Sender, seq<Packet>) {
    var s := Sender(AwaitOackReply, 0, 1, Armed(c), Oack(c.options), 0, 0);
    if c.senderOack then (s, [s.ackbuf]) else TakeUpBlock(c, s)
  }

  /** The foot of the data loop: the block in flight was acknowledged. */
  function BlockAcknowledged(c: Config, s: Sender): (Sender, seq<Packet>) {
    var s' := s.(acked := s.acked + 1, block := Next(s.block, c.rollover));
    if |c.Block(s.acked)| == c.segsize then TakeUpBlock(c, s') else (s'.(phase := Finished), [])
  }

  function SenderArrive(c: Config, s: Sender, p: Packet): (Sender, seq<Packet>)
    requires s.phase == AwaitOackReply || s.phase == AwaitAck
  {
    var s' := s.(ackbuf := p);
    if p.Error? then
      (s'.(phase := SenderAborted), [])
    else if s.phase == AwaitOackReply then
      // Replies land in the buffer that held the OACK, so that is what a stale ACK makes it send again.
      if p == Ack(0) then TakeUpBlock(c, s') else if p.Ack? then (s', [p]) else (s', [])
    else
      if p == Ack(s.block) then BlockAcknowledged(c, s') else (s', [])
  }

  function SenderTimeout(c: Config, s: Sender): (Sender, seq<Packet>)
    requires s.phase == AwaitOackReply || s.phase == AwaitAck
  {
    var s' := s.(timer := Expire(s.timer));
    if GivesUp(c, s'.timer) then (s'.(phase := SenderTimedOut), [])
    else if s.phase == AwaitOackReply then (s', [s.ackbuf])
    else (s'.(timeouts := s.timeouts + 1), [DataPacket(c, s)])
  }

  function SenderNext(c: Config, s: Sender, e: Event): (Sender, seq<Packet>) {
    if s.phase != AwaitOackReply && s.phase != AwaitAck then (s, [])
    else match e
      case Timeout => SenderTimeout(c, s)
      case Arrive(p) => SenderArrive(c, s, p)
      case SendFails => (s.(phase := SenderAborted), [])
      case Fail => (s.(phase := SenderAborted), [])
  }

  /** Everything the sender does in response to a sequence of events: its state and all packets sent. */
  function SenderRun(c: Config, es: seq<Event>): (Sender, seq<Packet>) {
    if es == [] then SenderStart(c)
    else
      var (s, sent) := SenderRun(c, es[..|es| - 1]);
      var (s', out) := SenderNext(c, s, es[|es| - 1]);
      (s', sent + out)
  }

  // ----- The receiving side

  datatype ReceiverPhase = AwaitData | Dallying | Closed | ReceiverAborted | ReceiverTimedOut

  /** `block` is the number expected next, `reply` the content of the acknowledgement buffer, and `oap` says that
      an OACK is still due. `heard` is the packet whose header `dp_opcode` and `dp_block` hold.
   */
  datatype Receiver = Receiver(phase: ReceiverPhase, block: U16, accepted: seq<seq<Byte>>, reply: Packet,
                               oap: bool, timer: Timer, heard: Packet)

  /** The head of the receive loop: prepare the acknowledgement of number `r.block`, expect the next, send. */
  function AcknowledgeAndExpect(c: Config, r: Receiver): (Receiver, seq<Packet>) {
    var oackDue := r.block == 0 && r.oap;
    var r' := r.(reply := if oackDue then Oack(c.options) else Ack(r.block), oap := oackDue,
                 block := Next(r.block, c.rollover), timer := Armed(c));
    (r', [r'.reply])
  }

  function ReceiverStart(c: Config): (Receiver, seq<Packet>) {
    AcknowledgeAndExpect(c, Receiver(AwaitData, 0, [], Oack(c.options), c.receiverOack, Armed(c), Other))
  }

  function AcceptBlock(c: Config, r: Receiver, payload: seq<Byte>): (Receiver, seq<Packet>) {
    var r' := r.(accepted := r.accepted + [payload]);
    if |payload| == c.segsize then AcknowledgeAndExpect(c, r')
    else (r'.(phase := Dallying, reply := Ack(r.block)), [Ack(r.block)])
  }

  /** The test after the final wait. It looks at the header read in the loop, not at the packet that ended the wait. */
  predicate HeardLastBlock(r: Receiver) {
    r.heard.Data? && r.heard.block == r.block
  }

  function ReceiverArrive(c: Config, r: Receiver, p: Packet): (Receiver, seq<Packet>)
    requires r.phase == AwaitData || r.phase == Dallying
  {
    if r.phase == Dallying then
      (r.(phase := Closed), if HeardLastBlock(r) then [r.reply] else [])
    else
      var r' := r.(heard := p);
      if p.Error? then (r'.(phase := ReceiverAborted), [])
      else if !p.Data? then (r', [])
      else if p.block == r.block then AcceptBlock(c, r', p.payload)
      else if p.block as int == r.block as int - 1 then (r', [r.reply])
      else (r', [])
  }

  function ReceiverTimeout(c: Config, r: Receiver): (Receiver, seq<Packet>)
    requires r.phase == AwaitData || r.phase == Dallying
  {
    if r.phase == Dallying then (r.(phase := Closed), []) // `timeout_quit`
    else
      var r' := r.(timer := Expire(r.timer));
      if GivesUp(c, r'.timer) then (r'.(phase := ReceiverTimedOut), []) else (r', [r.reply])
  }

  function ReceiverNext(c: Config, r: Receiver, e: Event): (Receiver, seq<Packet>) {
    if r.phase != AwaitData && r.phase != Dallying then (r, [])
    else match e
      case Timeout => ReceiverTimeout(c, r)
      case Arrive(p) => ReceiverArrive(c, r, p)
      case SendFails => (if r.phase == AwaitData then r.(phase := ReceiverAborted) else r, [])
      case Fail => (r.(phase := if r.phase == AwaitData then ReceiverAborted else Closed), [])
  }

  function ReceiverRun(c: Config, es: seq<Event>): (Receiver, seq<Packet>) {
    if es == [] then ReceiverStart(c)
    else
      var (r, sent) := ReceiverRun(c, es[..|es| - 1]);
      var (r', out) := ReceiverNext(c, r, es[|es| - 1]);
      (r', sent + out)
  }
}
