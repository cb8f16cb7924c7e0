/** Option negotiation: `do_opt` and the `set_*` functions, and the OACK they build (RFC 2347, RFC 2348, RFC 2349). */
module Options {
  import opened Ascii
  import opened Constants
  import opened Maybe
  import opened Numerals

  const ACKBUF_SIZE := MAX_SEGSIZE + 4

  // ----- Strings in packets: each ends with a NUL

  predicate NulFree(s: string) {
    '\0' !in s
  }

  type Pair = (string, string)

  function EncodePair(p: Pair): string {
    p.0 + "\0" + p.1 + "\0"
  }

  function EncodePairs(pairs: seq<Pair>): string {
    if pairs == [] then "" else EncodePair(pairs[0]) + EncodePairs(pairs[1..])
  }

  /** The position of the first NUL, or the length. */
  function NulAt(s: string): (k: nat)
    ensures k <= |s| && NulFree(s[..k]) && (k < |s| ==> s[k] == '\0')
  {
    if s == "" || s[0] == '\0' then 0 else 1 + NulAt(s[1..])
  }

  lemma {:induction false} NulAtEnd(a: string, b: string)
    requires NulFree(a)
    ensures NulAt(a + "\0" + b) == |a|
  {
    var s := a + "\0" + b;
    if a == "" {
      assert s[0] == '\0';
    } else {
      NulAtEnd(a[1..], b);
      assert s[1..] == a[1..] + "\0" + b;
      assert s[0] == a[0];
    }
  }

  /** The option loop of the request parser on the rest of a packet, where `beyond` is the byte after it: the pairs
      passed on, and whether the packet was properly terminated. An empty name or value ends the list.
   */
  function ParsePairs(s: string, beyond: char): (r: (seq<Pair>, bool))
    ensures forall i :: 0 <= i < |r.0| ==> r.0[i].0 != "" && r.0[i].1 != "" && NulFree(r.0[i].0) && NulFree(r.0[i].1)
    decreases |s|, 1
  {
    var e := NulAt(s);
    if e == 0 then ([], true)
    else if e == |s| then ([], beyond == '\0')
    else ParseValue(s[..e], s[e + 1..], beyond)
  }

  /** The same with the name `opt` already read. */
  function ParseValue(opt: string, t: string, beyond: char): (r: (seq<Pair>, bool))
    requires opt != "" && NulFree(opt)
    ensures forall i :: 0 <= i < |r.0| ==> r.0[i].0 != "" && r.0[i].1 != "" && NulFree(r.0[i].0) && NulFree(r.0[i].1)
    decreases |t|, 0
  {
    var f := NulAt(t);
    if f == 0 then ([], true)
    else if f == |t| then (if beyond == '\0' then [(opt, t)] else [], beyond == '\0')
    else
      var (pairs, ok) := ParsePairs(t[f + 1..], beyond);
      ([(opt, t[..f])] + pairs, ok)
  }

  /** The pairs before the first one with an empty name or value. */
  function UpToEmpty(pairs: seq<Pair>): seq<Pair> {
    if pairs == [] || pairs[0].0 == "" || pairs[0].1 == "" then [] else [pairs[0]] + UpToEmpty(pairs[1..])
  }

  predicate NulFreePairs(pairs: seq<Pair>) {
    forall i :: 0 <= i < |pairs| ==> NulFree(pairs[i].0) && NulFree(pairs[i].1)
  }

  /** Encoded pairs are passed on in order, up to the first empty string, whatever follows the packet in memory. */
  lemma {:induction false} PairsRoundTrip(pairs: seq<Pair>, beyond: char)
    requires NulFreePairs(pairs)
    ensures ParsePairs(EncodePairs(pairs), beyond) == (UpToEmpty(pairs), true)
  {
    if pairs == [] {
    } else {
      var (opt, val) := pairs[0];
      var rest := EncodePairs(pairs[1..]);
      var s, t := EncodePairs(pairs), val + "\0" + rest;
      assert s == opt + "\0" + t;
      NulAtEnd(opt, t);
      NulAtEnd(val, rest);
      PairsRoundTrip(pairs[1..], beyond);
      assert s[|opt| + 1..] == t && s[..|opt|] == opt;
      assert t[|val| + 1..] == rest && t[..|val|] == val;
    }
  }

  lemma {:induction false} NothingEmpty(pairs: seq<Pair>)
    requires forall i :: 0 <= i < |pairs| ==> pairs[i].0 != "" && pairs[i].1 != ""
    ensures UpToEmpty(pairs) == pairs
  {
    if pairs == [] {
    } else {
      NothingEmpty(pairs[1..]);
      assert pairs == [pairs[0]] + pairs[1..];
    }
  }

  lemma {:induction false} EncodeSnoc(pairs: seq<Pair>, p: Pair)
    ensures EncodePairs(pairs + [p]) == EncodePairs(pairs) + EncodePair(p)
  {
    hide EncodePair;
    if pairs == [] {
      assert [p][1..] == [];
      assert [] + [p] == [p];
    } else {
      EncodeSnoc(pairs[1..], p);
      assert (pairs + [p])[1..] == pairs[1..] + [p];
    }
  }

  // ----- The options

  datatype Kind = Blksize | Blksize2 | Tsize | TimeoutSec | TimeoutUsec | Rollover

  /** What the server was started with and what it knows about the file. */
  datatype Server = Server(maxBlksize: nat, supported: set<Kind>, tsizeOk: bool, tsize: nat) {
    predicate Valid() {
      SEGSIZE <= maxBlksize <= MAX_SEGSIZE && tsize < TWO_64
    }
  }

  datatype Values = Values(segsize: nat, rexmt: nat, maxTimeout: nat, rollover: nat)

  /** Values before any option, for a basic timeout of `r` microseconds. */
  function Defaults(r: nat): Values {
    Values(SEGSIZE, r, r * TIMEOUT_LIMIT, 0)
  }

  /** Equality as `strcasecmp` sees it. */
  predicate SameName(a: string, b: string) {
    |a| == |b| && forall i :: 0 <= i < |a| ==> LowerChar(a[i]) == LowerChar(b[i])
  }

  function NameOf(k: Kind): string {
    match k
    case Blksize => "blksize"
    case Blksize2 => "blksize2"
    case Tsize => "tsize"
    case TimeoutSec => "timeout"
    case TimeoutUsec => "utimeout"
    case Rollover => "rollover"
  }

  const TABLE: seq<Kind> := [Blksize, Blksize2, Tsize, TimeoutSec, TimeoutUsec, Rollover]

  /** The search in the option table; an option disabled at start-up matches nothing. */
  function LookUp(env: Server, opt: string, from: nat): Option<Kind>
    decreases |TABLE| - from
  {
    if from >= |TABLE| then None
    else if TABLE[from] in env.supported && SameName(NameOf(TABLE[from]), opt) then Some(TABLE[from])
    else LookUp(env, opt, from + 1)
  }

  /** The value a block size request leads to: within the limits as it is, else cut down to the maximum. */
  function Clamp(v: nat, max: nat): nat {
    if v > max then max else v
  }

  function PowerBlksize(v: nat, max: nat): nat
    requires v >= 1
  {
    if v > max then max else FloorPow2(v)
  }

  /** A `set_*` function: the value to echo and the new state, or a refusal. */
  function Apply(env: Server, k: Kind, v: nat, st: Values): Option<(nat, Values)> {
    match k
    case Blksize => if v < 8 then None else var sz := Clamp(v, env.maxBlksize); Some((sz, st.(segsize := sz)))
    case Blksize2 => if v < 8 then None else var sz := PowerBlksize(v, env.maxBlksize); Some((sz, st.(segsize := sz)))
    case Tsize => if !env.tsizeOk then None else Some((if v == 0 then env.tsize else v, st))
    case TimeoutSec =>
      if v < 1 || v > 255 then None else Some((v, st.(rexmt := v * 1000000, maxTimeout := v * 1000000 * TIMEOUT_LIMIT)))
    case TimeoutUsec =>
      if v < 10000 || v > 255000000 then None else Some((v, st.(rexmt := v, maxTimeout := v * TIMEOUT_LIMIT)))
    case Rollover => if v > 65535 then None else Some((v, st.(rollover := v)))
  }

  /** Negotiation so far: the values in force, the options accepted with the values echoed, and whether it was broken
      off.
   */
  datatype Negotiation = Negotiation(values: Values, accepted: seq<(Kind, string, nat)>, refused: bool)

  function EchoPairs(accepted: seq<(Kind, string, nat)>): (pairs: seq<Pair>)
    ensures |pairs| == |accepted|
    ensures forall i :: 0 <= i < |accepted| ==> pairs[i] == (accepted[i].1, Decimal(accepted[i].2))
  {
    if accepted == [] then [] else
      EchoPairs(accepted[..|accepted| - 1]) + [(accepted[|accepted| - 1].1, Decimal(accepted[|accepted| - 1].2))]
  }

  /** The body of the OACK: what follows its opcode. */
  function OackBody(n: Negotiation): string {
    EncodePairs(EchoPairs(n.accepted))
  }

  /** `do_opt` */
  function DoOpt(env: Server, n: Negotiation, opt: string, val: string): Negotiation {
    if n.refused || opt == "" || val == "" || StrToUMax(val).None? then n
    else match LookUp(env, opt, 0)
      case None => n
      case Some(k) =>
        match Apply(env, k, StrToUMax(val).value, n.values)
        case None => n.(refused := true)
        case Some((v, values)) =>
          if 2 + |OackBody(n)| + |opt| + |Decimal(v)| + 2 >= ACKBUF_SIZE then n.(values := values, refused := true)
          else Negotiation(values, n.accepted + [(k, opt, v)], false)
  }

  function Negotiate(env: Server, start: Values, pairs: seq<Pair>): Negotiation {
    if pairs == [] then Negotiation(start, [], false)
    else DoOpt(env, Negotiate(env, start, pairs[..|pairs| - 1]), pairs[|pairs| - 1].0, pairs[|pairs| - 1].1)
  }

  // ----- What negotiation guarantees

  /** The block size echoed last, or the default. */
  function LastBlksize(accepted: seq<(Kind, string, nat)>): nat {
    if accepted == [] then SEGSIZE
    else
      var (k, _, v) := accepted[|accepted| - 1];
      if k == Blksize || k == Blksize2 then v else LastBlksize(accepted[..|accepted| - 1])
  }

  /** The effect of an acknowledged value on the values in force. */
  function Adopt(k: Kind, v: nat, st: Values): Values {
    match k
    case Blksize => st.(segsize := v)
    case Blksize2 => st.(segsize := v)
    case Tsize => st
    case TimeoutSec => st.(rexmt := v * 1000000, maxTimeout := v * 1000000 * TIMEOUT_LIMIT)
    case TimeoutUsec => st.(rexmt := v, maxTimeout := v * TIMEOUT_LIMIT)
    case Rollover => st.(rollover := v)
  }

  /** A peer that knows every option, whatever the server was started with. */
  const CLIENT := Server(MAX_SEGSIZE, {Blksize, Blksize2, Tsize, TimeoutSec, TimeoutUsec, Rollover}, true, 0)

  /** What the client makes of one acknowledged pair: look up the name, read the number, adopt it. */
  function ClientReads(p: Pair, st: Values): Values {
    match (LookUp(CLIENT, p.0, 0), StrToUMax(p.1))
    case (Some(k), Some(v)) => Adopt(k, v, st)
    case _ => st
  }

  /** The values a client arrives at by reading the pairs of an OACK one after another, starting from its own defaults.
   */
  function ClientValues(start: Values, pairs: seq<Pair>): Values {
    if pairs == [] then start else ClientReads(pairs[|pairs| - 1], ClientValues(start, pairs[..|pairs| - 1]))
  }

  /** The options of a request that the server knows and whose value is a number. */
  predicate Recognised(env: Server, p: Pair) {
    p.0 != "" && p.1 != "" && StrToUMax(p.1).Some? && LookUp(env, p.0, 0).Some?
  }

  function RecognisedNames(env: Server, pairs: seq<Pair>): seq<string> {
    if pairs == [] then []
    else
      var p := pairs[|pairs| - 1];
      RecognisedNames(env, pairs[..|pairs| - 1]) + if Recognised(env, p) then [p.0] else []
  }

  function Names(accepted: seq<(Kind, string, nat)>): seq<string> {
    if accepted == [] then [] else Names(accepted[..|accepted| - 1]) + [accepted[|accepted| - 1].1]
  }

  predicate InForce(env: Server, n: Negotiation) {
    && 8 <= n.values.segsize <= env.maxBlksize
    && (!n.refused ==> n.values.segsize == LastBlksize(n.accepted))
    && n.values.maxTimeout == n.values.rexmt * TIMEOUT_LIMIT && n.values.rexmt > 0
    && n.values.rollover <= 65535
    && 2 + |OackBody(n)| < ACKBUF_SIZE
    && forall i :: 0 <= i < |n.accepted| ==> n.accepted[i].1 != "" && n.accepted[i].2 < TWO_64
  }

  lemma StrToUMaxFits(s: string)
    ensures StrToUMax(s).Some? ==> StrToUMax(s).value < TWO_64
  {
  }

  lemma EchoSnoc(n: Negotiation, k: Kind, opt: string, v: nat)
    ensures EncodePairs(EchoPairs(n.accepted + [(k, opt, v)])) == OackBody(n) + EncodePair((opt, Decimal(v)))
  {
    var acc := n.accepted + [(k, opt, v)];
    assert acc[..|acc| - 1] == n.accepted;
    EncodeSnoc(EchoPairs(n.accepted), (opt, Decimal(v)));
  }

  /** What a `set_*` function that accepts does to the values. */
  lemma ApplyInForce(env: Server, k: Kind, v: nat, st: Values)
    requires env.Valid() && v < TWO_64 && Apply(env, k, v, st).Some?
    requires 8 <= st.segsize <= env.maxBlksize && st.rollover <= 65535
    requires st.maxTimeout == st.rexmt * TIMEOUT_LIMIT && st.rexmt > 0
    ensures var (v', st') := Apply(env, k, v, st).value;
      && v' < TWO_64
      && 8 <= st'.segsize <= env.maxBlksize && st'.maxTimeout == st'.rexmt * TIMEOUT_LIMIT && st'.rexmt > 0
      && st'.rollover <= 65535
      && st'.segsize == (if k == Blksize || k == Blksize2 then v' else st.segsize)
      && (k == Blksize || k == Blksize2 ==> v' <= v)
  {
    if k == Blksize2 {
      FloorPow2IsLargest(v, 8);
    }
    hide FloorPow2;
  }

  lemma DoOptInForce(env: Server, n: Negotiation, opt: string, val: string)
    requires env.Valid() && InForce(env, n)
    ensures InForce(env, DoOpt(env, n, opt, val))
  {
    StrToUMaxFits(val);
    hide StrToUMax, LookUp, Decimal, Apply, EncodePairs, EchoPairs;
    if !n.refused && opt != "" && StrToUMax(val).Some? && LookUp(env, opt, 0).Some? {
      var k, v := LookUp(env, opt, 0).value, StrToUMax(val).value;
      if Apply(env, k, v, n.values).Some? {
        ApplyInForce(env, k, v, n.values);
        var v' := Apply(env, k, v, n.values).value.0;
        EchoSnoc(n, k, opt, v');
        assert (n.accepted + [(k, opt, v')])[..|n.accepted|] == n.accepted;
      }
    }
  }

  /** After any list of options: the block size is within limits and is the one echoed last (or 512), the retransmission
      limit is 63 times the basic timeout, and the OACK fits its buffer.
   */
  lemma {:induction false} NegotiationInForce(env: Server, r: nat, pairs: seq<Pair>)
    requires env.Valid() && r > 0
    ensures InForce(env, Negotiate(env, Defaults(r), pairs))
  {
    if pairs == [] {
    } else {
      NegotiationInForce(env, r, pairs[..|pairs| - 1]);
      DoOptInForce(env, Negotiate(env, Defaults(r), pairs[..|pairs| - 1]), pairs[|pairs| - 1].0, pairs[|pairs| - 1].1);
    }
  }

  lemma NamesDiffer(j: Kind, k: Kind, opt: string)
    requires SameName(NameOf(j), opt) && SameName(NameOf(k), opt)
    ensures j == k
  {
    assert LowerChar(NameOf(j)[0]) == LowerChar(NameOf(k)[0]);
  }

  lemma {:induction false} LookUpNames(env: Server, opt: string, from: nat)
    ensures LookUp(env, opt, from).Some? ==> SameName(NameOf(LookUp(env, opt, from).value), opt)
    decreases |TABLE| - from
  {
    hide SameName, NameOf;
    if from < |TABLE| {
      LookUpNames(env, opt, from + 1);
    }
  }

  lemma {:induction false} LookUpFinds(opt: string, k: Kind, from: nat)
    requires SameName(NameOf(k), opt) && exists j :: from <= j < |TABLE| && TABLE[j] == k
    ensures LookUp(CLIENT, opt, from) == Some(k)
    decreases |TABLE| - from
  {
    if SameName(NameOf(TABLE[from]), opt) {
      NamesDiffer(TABLE[from], k, opt);
    } else {
      LookUpFinds(opt, k, from + 1);
    }
    hide SameName, NameOf;
  }

  /** A name that the server found is found by the client, as the same option. */
  lemma ClientFinds(env: Server, opt: string)
    requires LookUp(env, opt, 0).Some?
    ensures LookUp(CLIENT, opt, 0) == LookUp(env, opt, 0)
  {
    hide SameName, NameOf, LookUp;
    LookUpNames(env, opt, 0);
    var k := LookUp(env, opt, 0).value;
    assert exists j :: 0 <= j < |TABLE| && TABLE[j] == k by {
      match k
      case Blksize => assert TABLE[0] == k;
      case Blksize2 => assert TABLE[1] == k;
      case Tsize => assert TABLE[2] == k;
      case TimeoutSec => assert TABLE[3] == k;
      case TimeoutUsec => assert TABLE[4] == k;
      case Rollover => assert TABLE[5] == k;
    }
    LookUpFinds(opt, k, 0);
  }

  /** Adopting the value that a `set_*` function echoes has the effect that it had on the server. */
  lemma AdoptEchoed(env: Server, k: Kind, v: nat, st: Values)
    requires Apply(env, k, v, st).Some?
    ensures Adopt(k, Apply(env, k, v, st).value.0, st) == Apply(env, k, v, st).value.1
  {
    hide FloorPow2;
  }

  lemma DoOptEchoes(env: Server, start: Values, n: Negotiation, p: Pair)
    requires env.Valid() && InForce(env, n)
    requires !n.refused ==> n.values == ClientValues(start, EchoPairs(n.accepted))
    ensures var n' := DoOpt(env, n, p.0, p.1);
      && (!n'.refused ==> !n.refused && n'.values == ClientValues(start, EchoPairs(n'.accepted)))
      && (!n'.refused ==> Names(n'.accepted) == Names(n.accepted) + if Recognised(env, p) then [p.0] else [])
  {
    hide LookUp, StrToUMax, OackBody, Decimal, Apply, Adopt;
    var n' := DoOpt(env, n, p.0, p.1);
    if n'.accepted == n.accepted {
      assert Names(n.accepted) + [] == Names(n.accepted);
    } else {
      assert n'.accepted[..|n'.accepted| - 1] == n.accepted;
      var k, v := LookUp(env, p.0, 0).value, StrToUMax(p.1).value;
      var echoed := Apply(env, k, v, n.values).value.0;
      StrToUMaxFits(p.1);
      ApplyInForce(env, k, v, n.values);
      AdoptEchoed(env, k, v, n.values);
      ClientFinds(env, p.0);
      DecimalRoundTrip(echoed);
      assert EchoPairs(n'.accepted)[..|n.accepted|] == EchoPairs(n.accepted);
    }
  }

  /** Unless the request is refused, every option the server knows is acknowledged, in request order, and a client that
      reads the acknowledged pairs ends up with exactly the values the server uses.
   */
  lemma {:induction false} BothEndsAgree(env: Server, r: nat, pairs: seq<Pair>)
    requires env.Valid() && r > 0
    ensures var n := Negotiate(env, Defaults(r), pairs);
      !n.refused ==>
        n.values == ClientValues(Defaults(r), EchoPairs(n.accepted)) && Names(n.accepted) == RecognisedNames(env, pairs)
  {
    if pairs == [] {
    } else {
      BothEndsAgree(env, r, pairs[..|pairs| - 1]);
      NegotiationInForce(env, r, pairs[..|pairs| - 1]);
      DoOptEchoes(env, Defaults(r), Negotiate(env, Defaults(r), pairs[..|pairs| - 1]), pairs[|pairs| - 1]);
      hide DoOpt, ClientValues, Recognised, InForce, EchoPairs;
    }
  }

  /** The same on the wire: the client parses the body of the OACK, whatever follows it in memory, and arrives at the
      values in force on the server.
   */
  lemma OackGivesValues(env: Server, r: nat, pairs: seq<Pair>, beyond: char)
    requires env.Valid() && r > 0 && NulFreePairs(pairs) && !Negotiate(env, Defaults(r), pairs).refused
    ensures var n := Negotiate(env, Defaults(r), pairs); var (echoed, ok) := ParsePairs(OackBody(n), beyond);
      ok && ClientValues(Defaults(r), echoed) == n.values
  {
    hide Negotiate, ParsePairs, OackBody, ClientValues;
    BothEndsAgree(env, r, pairs);
    OackRoundTrip(env, r, pairs, beyond);
  }

  /** Why negotiation breaks off: a known option has a value out of its range, or the OACK has no room for it. */
  predicate Unacceptable(env: Server, n: Negotiation, p: Pair) {
    Recognised(env, p) &&
    match Apply(env, LookUp(env, p.0, 0).value, StrToUMax(p.1).value, n.values)
    case None => true
    case Some((v, _)) => 2 + |OackBody(n)| + |p.0| + |Decimal(v)| + 2 >= ACKBUF_SIZE
  }

  /** Option `k` is the first unacceptable one. */
  predicate BreaksOffAt(env: Server, start: Values, pairs: seq<Pair>, k: nat) {
    && k < |pairs| && !Negotiate(env, start, pairs[..k]).refused
    && Unacceptable(env, Negotiate(env, start, pairs[..k]), pairs[k])
  }

  lemma BreakInPrefix(env: Server, start: Values, pairs: seq<Pair>, k: nat)
    requires k < |pairs| - 1
    ensures BreaksOffAt(env, start, pairs, k) == BreaksOffAt(env, start, pairs[..|pairs| - 1], k)
  {
    hide Negotiate, Unacceptable;
    assert pairs[..|pairs| - 1][..k] == pairs[..k];
  }

  /** A request is refused exactly when, going through its options in order, one is unacceptable. */
  lemma {:induction false} RefusedExactlyWhen(env: Server, start: Values, pairs: seq<Pair>)
    ensures Negotiate(env, start, pairs).refused <==> exists k: nat :: BreaksOffAt(env, start, pairs, k)
  {
    if pairs == [] {
    } else {
      hide DoOpt, Unacceptable, Negotiate;
      var m := |pairs| - 1;
      RefusedExactlyWhen(env, start, pairs[..m]);
      RefusalStays(env, start, pairs);
      if Negotiate(env, start, pairs[..m]).refused {
        var k: nat :| BreaksOffAt(env, start, pairs[..m], k);
        BreakInPrefix(env, start, pairs, k);
      } else if Negotiate(env, start, pairs).refused {
        assert BreaksOffAt(env, start, pairs, m);
      } else if k: nat :| BreaksOffAt(env, start, pairs, k) {
        if k < m {
          BreakInPrefix(env, start, pairs, k);
        }
        assert false;
      }
    }
  }

  lemma RefusalStays(env: Server, start: Values, pairs: seq<Pair>)
    requires pairs != []
    ensures var n := Negotiate(env, start, pairs[..|pairs| - 1]);
      Negotiate(env, start, pairs).refused <==> n.refused || Unacceptable(env, n, pairs[|pairs| - 1])
  {
    var n := Negotiate(env, start, pairs[..|pairs| - 1]);
    if !n.refused {
      RefusedByLast(env, n, pairs[|pairs| - 1]);
    }
    hide Unacceptable;
  }

  lemma RefusedByLast(env: Server, n: Negotiation, p: Pair)
    requires !n.refused
    ensures DoOpt(env, n, p.0, p.1).refused <==> Unacceptable(env, n, p)
  {
    hide LookUp, StrToUMax, OackBody, Decimal, Apply;
  }

  predicate NulFreeNames(accepted: seq<(Kind, string, nat)>) {
    forall i :: 0 <= i < |accepted| ==> NulFree(accepted[i].1)
  }

  lemma {:induction false} AcceptedNulFree(env: Server, start: Values, pairs: seq<Pair>)
    requires NulFreePairs(pairs)
    ensures NulFreeNames(Negotiate(env, start, pairs).accepted)
  {
    if pairs == [] {
    } else {
      AcceptedNulFree(env, start, pairs[..|pairs| - 1]);
      hide Apply, LookUp, StrToUMax, OackBody;
    }
  }

  /** The OACK parses back to exactly the accepted options, under the names as requested and with their final values. */
  lemma OackRoundTrip(env: Server, r: nat, pairs: seq<Pair>, beyond: char)
    requires env.Valid() && r > 0 && NulFreePairs(pairs)
    ensures var n := Negotiate(env, Defaults(r), pairs);
      && ParsePairs(OackBody(n), beyond) == (EchoPairs(n.accepted), true)
      && forall i :: 0 <= i < |n.accepted| ==> StrToUMax(EchoPairs(n.accepted)[i].1) == Some(n.accepted[i].2)
  {
    var n := Negotiate(env, Defaults(r), pairs);
    NegotiationInForce(env, r, pairs);
    AcceptedNulFree(env, Defaults(r), pairs);
    var echo := EchoPairs(n.accepted);
    forall i | 0 <= i < |echo|
      ensures echo[i].0 != "" && echo[i].1 != "" && NulFree(echo[i].0) && NulFree(echo[i].1)
      ensures StrToUMax(echo[i].1) == Some(n.accepted[i].2)
    {
      DecimalRoundTrip(n.accepted[i].2);
    }
    PairsRoundTrip(echo, beyond);
    NothingEmpty(echo);
  }

  /** A power-of-two request yields a power of two exactly when it is within the maximum or the maximum is one itself.
   */
  lemma PowerBlksizeIsPower(v: nat, max: nat)
    requires v >= 8 && max >= 1
    ensures IsPow2(PowerBlksize(v, max)) <==> v <= max || IsPow2(max)
    ensures v <= max ==> forall q: nat :: IsPow2(q) && q <= v ==> q <= PowerBlksize(v, max) <= v
  {
    if v <= max {
      forall q: nat | IsPow2(q) && q <= v ensures q <= FloorPow2(v) {
        FloorPow2IsLargest(v, q);
      }
    }
  }

  // ----- What each option does, by the name a client writes

  /** Whether the OACK still has room for the option with this answer. */
  predicate Fits(n: Negotiation, opt: string, v: nat) {
    2 + |OackBody(n)| + |opt| + |Decimal(v)| + 2 < 65468
  }

  /** Negotiation goes on with these values after `opt` was answered with `v`. */
  function Granted(n: Negotiation, k: Kind, opt: string, v: nat, values: Values): Negotiation {
    Negotiation(values, n.accepted + [(k, opt, v)], false)
  }

  /** Names that differ only in case are the same option. */
  lemma {:induction false} CaseIgnored(env: Server, a: string, b: string, from: nat)
    requires SameName(a, b)
    ensures LookUp(env, a, from) == LookUp(env, b, from)
    decreases |TABLE| - from
  {
    if from < |TABLE| {
      CaseIgnored(env, a, b, from + 1);
      assert SameName(NameOf(TABLE[from]), a) <==> SameName(NameOf(TABLE[from]), b);
    }
    hide NameOf;
  }

  lemma {:induction false} FoundIfSupported(env: Server, opt: string, k: Kind, from: nat)
    requires SameName(NameOf(k), opt) && exists j :: from <= j < |TABLE| && TABLE[j] == k
    ensures LookUp(env, opt, from) == if k in env.supported then Some(k) else None
    decreases |TABLE| - from
  {
    hide NameOf, SameName;
    if SameName(NameOf(TABLE[from]), opt) {
      NamesDiffer(TABLE[from], k, opt);
      if k !in env.supported {
        NotFoundAgain(env, opt, k, from + 1);
      }
    } else {
      FoundIfSupported(env, opt, k, from + 1);
    }
  }

  lemma {:induction false} NotFoundAgain(env: Server, opt: string, k: Kind, from: nat)
    requires SameName(NameOf(k), opt) && k !in env.supported
    ensures LookUp(env, opt, from) == None
    decreases |TABLE| - from
  {
    hide NameOf, SameName;
    if from < |TABLE| {
      NotFoundAgain(env, opt, k, from + 1);
      if SameName(NameOf(TABLE[from]), opt) {
        NamesDiffer(TABLE[from], k, opt);
      }
    }
  }

  /** The names of the options; an option disabled at start-up is not found under its name. */
  lemma OptionNames(env: Server)
    ensures LookUp(env, "blksize", 0) == if Blksize in env.supported then Some(Blksize) else None
    ensures LookUp(env, "blksize2", 0) == if Blksize2 in env.supported then Some(Blksize2) else None
    ensures LookUp(env, "tsize", 0) == if Tsize in env.supported then Some(Tsize) else None
    ensures LookUp(env, "timeout", 0) == if TimeoutSec in env.supported then Some(TimeoutSec) else None
    ensures LookUp(env, "utimeout", 0) == if TimeoutUsec in env.supported then Some(TimeoutUsec) else None
    ensures LookUp(env, "rollover", 0) == if Rollover in env.supported then Some(Rollover) else None
  {
    assert TABLE[0] == Blksize && TABLE[1] == Blksize2 && TABLE[2] == Tsize;
    assert TABLE[3] == TimeoutSec && TABLE[4] == TimeoutUsec && TABLE[5] == Rollover;
    hide LookUp;
    FoundIfSupported(env, "blksize", Blksize, 0);
    FoundIfSupported(env, "blksize2", Blksize2, 0);
    FoundIfSupported(env, "tsize", Tsize, 0);
    FoundIfSupported(env, "timeout", TimeoutSec, 0);
    FoundIfSupported(env, "utimeout", TimeoutUsec, 0);
    FoundIfSupported(env, "rollover", Rollover, 0);
  }

  /** A numeric value reaches the option's own function, and its answer the OACK. */
  lemma OptionDispatched(env: Server, n: Negotiation, opt: string, v: nat)
    requires !n.refused && opt != "" && v < TWO_64
    ensures LookUp(env, opt, 0) == None ==> DoOpt(env, n, opt, Decimal(v)) == n
    ensures LookUp(env, opt, 0).Some? ==>
      var k := LookUp(env, opt, 0).value;
      match Apply(env, k, v, n.values)
      case None => DoOpt(env, n, opt, Decimal(v)) == n.(refused := true)
      case Some((echo, values)) =>
        && (Fits(n, opt, echo) ==> DoOpt(env, n, opt, Decimal(v)) == Granted(n, k, opt, echo, values))
        && (!Fits(n, opt, echo) ==> DoOpt(env, n, opt, Decimal(v)).refused)
  {
    DecimalRoundTrip(v);
    hide LookUp, StrToUMax, OackBody, Apply;
  }

  /** Section 2 of RFC 2348: a block size within the maximum is granted as asked for, a larger one is cut down to the
      maximum, and one below 8 is refused.
   */
  lemma BlksizeGranted(env: Server, n: Negotiation, v: nat)
    requires env.Valid() && !n.refused && Blksize in env.supported && v < TWO_64
    ensures var n' := DoOpt(env, n, "blksize", Decimal(v));
      && (v < 8 ==> n' == n.(refused := true))
      && (8 <= v <= env.maxBlksize && Fits(n, "blksize", v) ==>
            n' == Granted(n, Blksize, "blksize", v, n.values.(segsize := v)))
      && (env.maxBlksize < v && Fits(n, "blksize", env.maxBlksize) ==>
            n' == Granted(n, Blksize, "blksize", env.maxBlksize, n.values.(segsize := env.maxBlksize)))
  {
    OptionNames(env);
    OptionDispatched(env, n, "blksize", v);
    hide LookUp, DoOpt, Decimal, OackBody;
  }

  /** With `blksize2` the answer within the maximum is a power of two, at most the request and more than half of it. */
  lemma Blksize2Granted(env: Server, n: Negotiation, v: nat) returns (size: nat)
    requires env.Valid() && !n.refused && Blksize2 in env.supported && v < TWO_64
    ensures var n' := DoOpt(env, n, "blksize2", Decimal(v));
      && (v < 8 ==> n' == n.(refused := true))
      && (8 <= v <= env.maxBlksize ==> IsPow2(size) && size <= v < 2 * size)
      && (env.maxBlksize < v ==> size == env.maxBlksize)
      && (8 <= v && Fits(n, "blksize2", size) ==>
            n' == Granted(n, Blksize2, "blksize2", size, n.values.(segsize := size)))
  {
    OptionNames(env);
    OptionDispatched(env, n, "blksize2", v);
    hide LookUp, DoOpt, Decimal, OackBody;
    size := if v < 8 then 0 else PowerBlksize(v, env.maxBlksize);
  }

  /** RFC 2349: a size of 0 asks for the size of the file, which is answered if it is known; any other size is echoed.
   */
  lemma TsizeGranted(env: Server, n: Negotiation, v: nat)
    requires env.Valid() && !n.refused && Tsize in env.supported && v < TWO_64
    ensures var n' := DoOpt(env, n, "tsize", Decimal(v));
      && (!env.tsizeOk ==> n' == n.(refused := true))
      && (env.tsizeOk && v == 0 && Fits(n, "tsize", env.tsize) ==>
            n' == Granted(n, Tsize, "tsize", env.tsize, n.values))
      && (env.tsizeOk && v > 0 && Fits(n, "tsize", v) ==> n' == Granted(n, Tsize, "tsize", v, n.values))
  {
    OptionNames(env);
    OptionDispatched(env, n, "tsize", v);
    hide LookUp, DoOpt, Decimal, OackBody;
  }

  /** RFC 2349: a timeout is granted exactly from 1 to 255 seconds, and the whole waiting time is 63 times as long. */
  lemma TimeoutGranted(env: Server, n: Negotiation, v: nat)
    requires env.Valid() && !n.refused && TimeoutSec in env.supported && v < TWO_64
    ensures var n' := DoOpt(env, n, "timeout", Decimal(v));
      && (v < 1 || 255 < v ==> n' == n.(refused := true))
      && (1 <= v <= 255 && Fits(n, "timeout", v) ==>
            n' == Granted(n, TimeoutSec, "timeout", v,
                          n.values.(rexmt := 1000000 * v, maxTimeout := 63000000 * v)))
  {
    OptionNames(env);
    OptionDispatched(env, n, "timeout", v);
    hide LookUp, DoOpt, Decimal, OackBody;
  }

  /** The same in microseconds, from 10 milliseconds up to 255 seconds. */
  lemma UtimeoutGranted(env: Server, n: Negotiation, v: nat)
    requires env.Valid() && !n.refused && TimeoutUsec in env.supported && v < TWO_64
    ensures var n' := DoOpt(env, n, "utimeout", Decimal(v));
      && (v < 10000 || 255000000 < v ==> n' == n.(refused := true))
      && (10000 <= v <= 255000000 && Fits(n, "utimeout", v) ==>
            n' == Granted(n, TimeoutUsec, "utimeout", v, n.values.(rexmt := v, maxTimeout := 63 * v)))
  {
    OptionNames(env);
    OptionDispatched(env, n, "utimeout", v);
    hide LookUp, DoOpt, Decimal, OackBody;
  }

  /** A rollover value is granted exactly if it fits sixteen bits. */
  lemma RolloverGranted(env: Server, n: Negotiation, v: nat)
    requires env.Valid() && !n.refused && Rollover in env.supported && v < TWO_64
    ensures var n' := DoOpt(env, n, "rollover", Decimal(v));
      && (65535 < v ==> n' == n.(refused := true))
      && (v <= 65535 && Fits(n, "rollover", v) ==>
            n' == Granted(n, Rollover, "rollover", v, n.values.(rollover := v)))
  {
    OptionNames(env);
    OptionDispatched(env, n, "rollover", v);
    hide LookUp, DoOpt, Decimal, OackBody;
  }

  /** What the server starts from: blocks of 512 bytes, block numbers that roll over to 0, and 63 times its timeout. */
  lemma NothingAsked(env: Server, r: nat)
    ensures Negotiate(env, Defaults(r), []) == Negotiation(Values(512, r, 63 * r, 0), [], false)
  {
  }
}
