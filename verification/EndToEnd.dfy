/** From file to file: what the transfer as a whole guarantees. */
module EndToEnd {
  import opened Constants
  import opened BlockNumbers
  import opened Chunks
  import opened Netascii
  import opened Machines
  import opened MachineRuns
  import opened LossyLink
  import opened TransferLoops
  import opened Reactions
  import O = Options
  import Q = Requests
  import M = Remap
  import S = Substitution
  import R = ReadAheads
  import W = WriteBehinds

  /** Converting for the wire and back is the identity on files, in both modes. */
  lemma ConversionRoundTrip(file: seq<Byte>, convert: bool)
    ensures W.FileOf(R.StreamOf(file, convert), convert) == file
    ensures R.StreamOf(file, false) == file && R.StreamOf(file, true) == Encode(file)
  {
    DecodeEncode(file);
  }

  lemma BlocksSnoc(s: seq<Byte>, seg: nat, k: nat)
    ensures Blocks(s, seg, 0) == [] && Blocks(s, seg, k + 1) == Blocks(s, seg, k) + [Chunk(s, seg, k)]
  {
  }

  /** One turn of the sending loop on the reader: the next block is handed out and, whatever the number of
      `read_ahead` calls while it waits for its acknowledgement, it is still that block afterwards.
   */
  method NextBlock(f: R.Reader, extraReads: nat) returns (block: seq<Byte>)
    requires f.Valid()
    modifies f, f.bufs
    ensures f.Valid() && f.returned == old(f.returned) + 1
    ensures block == Chunk(f.Stream(), f.segsize, old(f.returned))
  {
    hide Encode, Chunk, R.StreamOf, R.Reader.Valid;
    var _ := f.ReadIt();
    for i := 0 to extraReads
      invariant f.Valid() && f.returned == old(f.returned) + 1
    {
      f.Prefetch();
    }
    block := f.Outgoing();
  }

  /** Read-ahead refines sequential reading: whatever the number of extra `read_ahead` calls after each block, the
      blocks handed out are those of the converted file, and a block stays as it is while it may be sent again.
   */
  method ReadAll(file: seq<Byte>, segsize: nat, convert: bool, extraReads: nat -> nat) returns (blocks: seq<seq<Byte>>)
    requires 1 <= segsize <= MAX_SEGSIZE
    ensures var stream := R.StreamOf(file, convert);
      blocks == Blocks(stream, segsize, BlockCount(stream, segsize))
  {
    hide Encode, Chunk, Blocks, BlockCount, R.StreamOf, R.Reader.Valid;
    var f := new R.Reader(file, segsize, convert);
    ghost var stream := R.StreamOf(file, convert);
    ghost var n := BlockCount(stream, segsize);
    BlocksSnoc(stream, segsize, 0);
    blocks := [];
    while true
      invariant f.Valid() && fresh(f) && fresh(f.bufs) && f.returned == |blocks| < n
      invariant blocks == Blocks(stream, segsize, |blocks|)
      decreases n - |blocks|
    {
      ChunkLength(stream, segsize, |blocks|);
      BlocksSnoc(stream, segsize, |blocks|);
      var block := NextBlock(f, extraReads(|blocks|));
      blocks := blocks + [block];
      if |block| < segsize {
        break;
      }
    }
  }

  /** Write-behind refines the pure decoder: for any received blocks, however the stream was split, and any choice of
      extra `write_behind` calls after each block, the file is the decoding of everything received.
   */
  method WriteAll(blocks: seq<seq<Byte>>, convert: bool, extraFlush: nat -> bool) returns (file: seq<Byte>)
    requires forall i :: 0 <= i < |blocks| ==> |blocks[i]| <= MAX_SEGSIZE
    ensures file == W.FileOf(Concat(blocks), convert)
  {
    var w := new W.Writer(convert);
    hide Decode, W.Writer.Valid;
    for k := 0 to |blocks|
      invariant w.Valid() && fresh(w) && fresh(w.bufs) && w.received == Concat(blocks[..k])
    {
      assert blocks[..k + 1] == blocks[..k] + [blocks[k]];
      ConcatSnoc(blocks[..k], blocks[k]);
      w.Deposit(blocks[k]);
      var ct := w.WriteIt(|blocks[k]|);
      if extraFlush(k) {
        w.Flush();
      }
    }
    w.Flush();
    assert blocks[..|blocks|] == blocks;
    file := w.file;
  }

  /** Both buffered pipelines back to back rebuild any file byte for byte, for any segment size, in both modes,
      including CR LF and CR NUL pairs split across a block boundary.
   */
  method Pipe(file: seq<Byte>, segsize: nat, convert: bool, extraReads: nat -> nat, extraFlush: nat -> bool)
    returns (copy: seq<Byte>)
    requires 1 <= segsize <= MAX_SEGSIZE
    ensures copy == file
  {
    var stream := R.StreamOf(file, convert);
    var blocks := ReadAll(file, segsize, convert, extraReads);
    copy := WriteAll(blocks, convert, extraFlush);
    BlocksCoverStream(stream, segsize);
    ConversionRoundTrip(file, convert);
  }

  // ----- The joined system and the loops

  /** What the sender, and the receiver, get to see in a run of the joined system. */
  function SenderEvents(c: Config, run: seq<Action>): seq<Event> {
    if run == [] then []
    else
      var st := Reached(c, run[..|run| - 1]);
      SenderEvents(c, run[..|run| - 1]) +
      match run[|run| - 1]
      case DeliverAck => if st.acks == [] then [] else [Arrive(st.acks[0])]
      case SenderTimer => [Timeout]
      case SenderFails => [Fail]
      case SenderSendFails => [SendFails]
      case _ => []
  }

  function ReceiverEvents(c: Config, run: seq<Action>): seq<Event> {
    if run == [] then []
    else
      var st := Reached(c, run[..|run| - 1]);
      ReceiverEvents(c, run[..|run| - 1]) +
      match run[|run| - 1]
      case DeliverData => if st.data == [] then [] else [Arrive(st.data[0])]
      case ReceiverTimer => [Timeout]
      case ReceiverFails => [Fail]
      case ReceiverSendFails => [SendFails]
      case _ => []
  }

  lemma SenderRunSnoc(c: Config, es: seq<Event>, e: Event)
    ensures SenderRun(c, es + [e]).0 == SenderNext(c, SenderRun(c, es).0, e).0
  {
    assert (es + [e])[..|es|] == es;
  }

  lemma ReceiverRunSnoc(c: Config, es: seq<Event>, e: Event)
    ensures ReceiverRun(c, es + [e]).0 == ReceiverNext(c, ReceiverRun(c, es).0, e).0
  {
    assert (es + [e])[..|es|] == es;
  }

  /** Each end of the joined system is its own machine, run on what it got to see. */
  lemma {:induction false} EndsAreMachines(c: Config, run: seq<Action>)
    ensures Reached(c, run).s == SenderRun(c, SenderEvents(c, run)).0
    ensures Reached(c, run).r == ReceiverRun(c, ReceiverEvents(c, run)).0
  {
    if run == [] {
    } else {
      var before, a := run[..|run| - 1], run[|run| - 1];
      EndsAreMachines(c, before);
      var st := Reached(c, before);
      var es, er := SenderEvents(c, before), ReceiverEvents(c, before);
      assert es + [] == es && er + [] == er;
      hide SenderNext, ReceiverNext, SenderRun, ReceiverRun, SenderStart, ReceiverStart, Lose, Repeat;
      match a {
        case DeliverAck => if st.acks != [] { SenderRunSnoc(c, es, Arrive(st.acks[0])); }
        case DeliverData => if st.data != [] { ReceiverRunSnoc(c, er, Arrive(st.data[0])); }
        case SenderTimer => SenderRunSnoc(c, es, Timeout);
        case SenderFails => SenderRunSnoc(c, es, Fail);
        case ReceiverTimer => ReceiverRunSnoc(c, er, Timeout);
        case ReceiverFails => ReceiverRunSnoc(c, er, Fail);
        case SenderSendFails => SenderRunSnoc(c, es, SendFails);
        case ReceiverSendFails => ReceiverRunSnoc(c, er, SendFails);
        case LoseAck(_) =>
        case LoseData(_) =>
        case RepeatAck(_) =>
        case RepeatData(_) =>
      }
    }
  }

  /** Only DATA packets of at most a segment travel to the receiver, and none to the sender. */
  predicate ChannelsFit(c: Config, st: State) {
    && (forall p :: p in st.data && p.Data? ==> |p.payload| <= c.segsize)
    && (forall p :: p in st.acks ==> !p.Data?)
    && (st.s.phase == AwaitOackReply ==> !st.s.ackbuf.Data?)
    && !st.r.reply.Data?
  }

  lemma ActKeepsFit(c: Config, st: State, a: Action)
    requires ChannelsFit(c, st)
    ensures ChannelsFit(c, Act(c, st, a))
  {
    hide Chunk, GivesUp;
    match a {
      case DeliverAck => assert st.acks != [] ==> st.acks[0] in st.acks;
      case DeliverData =>
      case _ =>
    }
  }

  /** Everything the receiver is sent fits its buffers. */
  lemma {:induction false} ReceiverEventsFit(c: Config, run: seq<Action>)
    requires c.segsize <= MAX_SEGSIZE
    ensures ChannelsFit(c, Reached(c, run)) && FitsBuffer(ReceiverEvents(c, run))
  {
    hide Chunk, Act;
    if run == [] {
    } else {
      var before := run[..|run| - 1];
      ReceiverEventsFit(c, before);
      ActKeepsFit(c, Reached(c, before), run[|run| - 1]);
      var st := Reached(c, before);
      assert st.data != [] ==> st.data[0] in st.data;
    }
  }

  /** One end has seen the transfer through: the sender finished, or the receiver saw the last block. */
  predicate Completed(st: State) {
    st.s.phase == Finished || st.r.phase == Dallying || st.r.phase == Closed
  }

  /** The file arrives: in every completed run of the joined system what the receiving loop has accepted decodes to the
      file that the sending loop read, and all of it is saved.
   */
  lemma FileArrives(c: Config, file: seq<Byte>, convert: bool, run: seq<Action>)
    requires c.Valid() && Distinct(c) && c.stream == R.StreamOf(file, convert) && Completed(Reached(c, run))
    ensures W.FileOf(Concat(Reached(c, run).r.accepted), convert) == file
    ensures Saved(c, ReceiverEvents(c, run)) == Reached(c, run).r.accepted
  {
    hide Reached, ReceiverEvents, ReceiverRun, R.StreamOf, W.FileOf, Chunk, Blocks, LastBlockLost;
    TransferSafe(c, run);
    BlocksCoverStream(c.stream, c.segsize);
    ConversionRoundTrip(file, convert);
    EndsAreMachines(c, run);
    LostMeansAborted(c, ReceiverEvents(c, run));
  }

  /** Both loops themselves, each fed with what reaches it in a run of the joined system: they end in the states of that
      run, and once the transfer is completed the original file is on disk.
   */
  method Transfer(c: Config, original: seq<Byte>, convert: bool, run: seq<Action>)
    returns (copy: seq<Byte>, s: Sender, r: Receiver)
    requires c.Valid() && c.segsize <= MAX_SEGSIZE && c.stream == R.StreamOf(original, convert)
    ensures s == Reached(c, run).s && r == Reached(c, run).r
    ensures Distinct(c) && Completed(Reached(c, run)) ==> copy == original
  {
    hide Encode, Decode, Act, ReceiverRun, SenderRun, W.Writer.Valid, R.Reader.Valid, R.StreamOf, W.FileOf, Saved;
    EndsAreMachines(c, run);
    ReceiverEventsFit(c, run);
    if Distinct(c) && Completed(Reached(c, run)) {
      FileArrives(c, original, convert, run);
    }
    var f := new R.Reader(original, c.segsize, convert);
    var sent;
    s, sent := SendFile(c, f, SenderEvents(c, run));
    var w := new W.Writer(convert);
    r, sent := RecvFile(c, w, ReceiverEvents(c, run));
    copy := w.file;
  }

  // ----- From the request to the file

  function Bytes(s: string): seq<Byte> {
    if s == "" then [] else [s[0] as int % 256] + Bytes(s[1..])
  }

  /** The transfer that negotiated values lead to: the server acknowledges options only if there are any to acknowledge,
      on the side that the direction of the request puts it.
   */
  function TransferOf(v: O.Values, oack: string, isWrite: bool, stream: seq<Byte>): Config
    requires v.rollover <= MAX_BLOCK
  {
    Config(stream, v.segsize, v.rollover, v.rexmt, oack != "" && !isWrite, oack != "" && isWrite, Bytes(oack))
  }

  lemma {:induction false} BytesAre(s: string)
    ensures |Bytes(s)| == |s| && forall i :: 0 <= i < |s| ==> Bytes(s)[i] == s[i] as int % 256
  {
    if s != "" {
      BytesAre(s[1..]);
    }
  }

  /** What the server says first: its OACK, if it accepted options; else the first block of the file for a read
      request, and for a write request the acknowledgement of number 0. The client, at the other end, does not
      acknowledge options.
   */
  lemma ServerOpens(v: O.Values, oack: string, isWrite: bool, stream: seq<Byte>)
    requires v.rollover <= MAX_BLOCK
    ensures var c := TransferOf(v, oack, isWrite, stream);
      && (isWrite ==> ReceiverRun(c, []).1 == [if oack != "" then Oack(Bytes(oack)) else Ack(0)])
      && (isWrite ==> SenderRun(c, []).1 == [Data(1, Chunk(stream, v.segsize, 0))])
      && (!isWrite ==>
            SenderRun(c, []).1 == [if oack != "" then Oack(Bytes(oack)) else Data(1, Chunk(stream, v.segsize, 0))])
      && (!isWrite ==> ReceiverRun(c, []).1 == [Ack(0)])
  {
    OpeningPackets(TransferOf(v, oack, isWrite, stream));
    hide SenderRun, ReceiverRun, Bytes, Chunk;
  }

  /** What the options of a request, if none is refused, come to. */
  function Outcome(env: O.Server, r: nat, pairs: seq<O.Pair>): O.Negotiation {
    O.Negotiate(env, O.Defaults(r), O.UpToEmpty(pairs))
  }

  predicate IsRequest(filename: string, mode: string, pairs: seq<O.Pair>) {
    filename != "" && O.NulFree(filename) && O.NulFree(mode) && Q.IsMode(Q.LowerAll(mode)) && O.NulFreePairs(pairs)
  }

  lemma {:induction false} UpToEmptyNulFree(pairs: seq<O.Pair>)
    requires O.NulFreePairs(pairs)
    ensures O.NulFreePairs(O.UpToEmpty(pairs))
  {
    if pairs != [] {
      UpToEmptyNulFree(pairs[1..]);
    }
  }

  /** The parser and the fold over the pairs it finds give the outcome of the request's own options. */
  lemma RequestOutcome(env: O.Server, r: nat, filename: string, mode: string, pairs: seq<O.Pair>, beyond: char)
    requires IsRequest(filename, mode, pairs)
    ensures var req := Q.ParseRequest(Q.EncodeRequest(filename, mode, pairs), beyond);
      && req == Q.Request(filename, Q.LowerAll(mode), O.UpToEmpty(pairs), true)
      && Q.NegotiateFrom(env, O.Negotiation(O.Defaults(r), [], false), req.pairs) == Outcome(env, r, pairs)
  {
    hide Q.ParseRequest, Q.EncodeRequest, Q.NegotiateFrom, O.Negotiate, O.UpToEmpty;
    Q.RequestRoundTrip(filename, mode, pairs, beyond);
    Q.NegotiateIsFold(env, O.Defaults(r), O.UpToEmpty(pairs));
  }

  /** From request to file: whatever options an encoded request carries, unless it is refused the values that the client
      reads from the bytes of the OACK are those of the server, retransmission limit included, and in every completed
      run of the transfer with these values the file has arrived unchanged, provided the rollover value asked for is not
      65535 or the file is short enough.
   */
  lemma RequestToFile(env: O.Server, r: nat, filename: string, mode: string, pairs: seq<O.Pair>, beyond: char,
                      isWrite: bool, file: seq<Byte>, convert: bool, run: seq<Action>)
    requires env.Valid() && r > 0 && IsRequest(filename, mode, pairs) && !Outcome(env, r, pairs).refused
    ensures var req := Q.ParseRequest(Q.EncodeRequest(filename, mode, pairs), beyond);
      && req.Request? && req.terminated
      && var n := Q.NegotiateFrom(env, O.Negotiation(O.Defaults(r), [], false), req.pairs);
      var (echoed, ok) := O.ParsePairs(O.OackBody(n), beyond);
      && ok && n.values == O.ClientValues(O.Defaults(r), echoed)
      && n.values.rollover <= MAX_BLOCK && 0 < n.values.segsize <= MAX_SEGSIZE
      && var c := TransferOf(n.values, O.OackBody(n), isWrite, R.StreamOf(file, convert));
         && c.MaxTimeout() == n.values.maxTimeout
         && (Distinct(c) && Completed(Reached(c, run)) ==>
               W.FileOf(Concat(Reached(c, run).r.accepted), convert) == file)
  {
    RequestOutcome(env, r, filename, mode, pairs, beyond);
    UpToEmptyNulFree(pairs);
    O.OackGivesValues(env, r, O.UpToEmpty(pairs), beyond);
    O.NegotiationInForce(env, r, O.UpToEmpty(pairs));
    hide O.Negotiate, O.ClientValues, O.ParsePairs, O.OackBody, O.UpToEmpty, Reached, W.FileOf, R.StreamOf, Bytes,
      Q.ParseRequest, Q.EncodeRequest, Q.NegotiateFrom;
    var n := Outcome(env, r, pairs);
    var c := TransferOf(n.values, O.OackBody(n), isWrite, R.StreamOf(file, convert));
    if Distinct(c) && Completed(Reached(c, run)) {
      FileArrives(c, file, convert, run);
    }
  }

  /** All of it as code: the request goes through the parser and the option code, the values they leave behind configure
      both transfer loops, and once the transfer is completed the file is on disk.
   */
  method Serve(env: O.Server, r: nat, access: Q.Access, filename: string, mode: string, pairs: seq<O.Pair>,
               beyond: char, isWrite: bool, file: seq<Byte>, run: seq<Action>)
    returns (result: Q.Result, copy: seq<Byte>)
    requires env.Valid() && r > 0 && IsRequest(filename, mode, pairs)
    ensures var n := Outcome(env, r, pairs); var code := access.Code(filename);
      && result == (if code != 0 then Q.Denied(code) else if n.refused then Q.NakOption
                    else Q.Serve(access.rewrite(filename).value, Q.LowerAll(mode)))
      && n.values.rollover <= MAX_BLOCK && 0 < n.values.segsize
      && var c := TransferOf(n.values, O.OackBody(n), isWrite, R.StreamOf(file, Q.LowerAll(mode) == "netascii"));
         result.Serve? && Distinct(c) && Completed(Reached(c, run)) ==> copy == file
  {
    hide O.Negotiate, O.EchoPairs, O.EncodePairs, O.UpToEmpty, Reached, R.StreamOf, Bytes, Q.ParseRequest,
      Q.EncodeRequest, Q.NegotiateFrom, Q.LowerAll, Q.IsMode;
    RequestOutcome(env, r, filename, mode, pairs, beyond);
    O.NegotiationInForce(env, r, O.UpToEmpty(pairs));
    var neg := new Q.Negotiator(env, r);
    result := Q.HandleRequest(Q.EncodeRequest(filename, mode, pairs), beyond, access, neg);
    copy := [];
    if result.Serve? {
      var v := O.Values(neg.segsize, neg.rexmtval, neg.maxtimeout, neg.rolloverVal);
      var convert := result.mode == "netascii";
      var c := TransferOf(v, neg.ackbuf[2..neg.ap], isWrite, R.StreamOf(file, convert));
      var s, w;
      copy, s, w := Transfer(c, file, convert, run);
    }
  }

  /** The same with the remap engine in its place: the rules map or deny the file name before it is validated. */
  method ServeMapped(env: O.Server, r: nat, rules: seq<M.Rule>, ip: string, hex: string, ghost met: string -> bool,
                     validate: string -> nat, filename: string, mode: string, pairs: seq<O.Pair>, beyond: char,
                     isWrite: bool, file: seq<Byte>, run: seq<Action>)
    returns (result: Q.Result, copy: seq<Byte>)
    requires env.Valid() && r > 0 && IsRequest(filename, mode, pairs)
    requires M.AllFine(rules, M.Direction(isWrite), S.RewriteMacros(ip, hex), met) && met(filename)
    requires |hex| > 0 && M.Servable(rules, M.Direction(isWrite))
    ensures var n := Outcome(env, r, pairs);
      var mapped := M.MappedName(rules, isWrite, S.RewriteMacros(ip, hex), met, filename);
      && result == (if mapped.None? then Q.Denied(Q.EACCESS)
                    else if validate(mapped.value) != 0 then Q.Denied(validate(mapped.value))
                    else if n.refused then Q.NakOption
                    else Q.Serve(mapped.value, Q.LowerAll(mode)))
      && n.values.rollover <= MAX_BLOCK && 0 < n.values.segsize
      && var c := TransferOf(n.values, O.OackBody(n), isWrite, R.StreamOf(file, Q.LowerAll(mode) == "netascii"));
         result.Serve? && Distinct(c) && Completed(Reached(c, run)) ==> copy == file
  {
    hide Outcome, O.OackBody, Reached, R.StreamOf, Bytes, Q.LowerAll, M.AllFine, M.MappedName, M.Servable;
    var mapped := M.RewriteAccess(filename, isWrite, rules, ip, hex, met);
    var access := Q.Access(_ => mapped, validate);
    result, copy := Serve(env, r, access, filename, mode, pairs, beyond, isWrite, file, run);
  }
}
