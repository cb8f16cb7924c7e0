/** The request parser `tftp` and the option code it drives, as they walk and fill their buffers. */
module Requests {
  import opened Ascii
  import opened Constants
  import opened Maybe
  import opened Numerals
  import opened Options

  // ----- The option code on its static variables

  class Negotiator {
    const env: Server
    const ackbuf: array<char>

    var segsize: nat
    var rexmtval: nat
    var timeout: nat
    var maxtimeout: nat
    var rolloverVal: nat
    var blksizeSet: bool
    var ap: nat

    // The options accepted so far, with the values echoed.
    ghost var accepted: seq<(Kind, string, nat)>

    ghost function CurrentValues(): Values
      reads this
    {
      Values(segsize, rexmtval, maxtimeout, rolloverVal)
    }

    ghost function View(refused: bool): Negotiation
      reads this
    {
      Negotiation(CurrentValues(), accepted, refused)
    }

    ghost predicate Valid()
      reads this, ackbuf
    {
      && env.Valid() && ackbuf.Length == ACKBUF_SIZE
      && 2 <= ap < ACKBUF_SIZE && ackbuf[2..ap] == EncodePairs(EchoPairs(accepted))
    }

    constructor (env: Server, r: nat)
      requires env.Valid()
      ensures Valid() && fresh(ackbuf) && this.env == env && View(false) == Negotiation(Defaults(r), [], false)
    {
      this.env := env;
      ackbuf := new char[ACKBUF_SIZE];
      segsize, rexmtval, timeout, maxtimeout, rolloverVal := SEGSIZE, r, r, r * TIMEOUT_LIMIT, 0;
      blksizeSet, ap, accepted := false, 2, [];
    }

    /** `set_blksize` */
    method SetBlksize(v: nat) returns (ok: bool, echo: nat)
      modifies this`segsize, this`blksizeSet
      ensures old(blksizeSet) ==> !ok
      ensures !old(blksizeSet) ==>
        (if ok then Some((echo, CurrentValues())) else None) == Apply(env, Blksize, v, old(CurrentValues()))
      ensures !ok ==> CurrentValues() == old(CurrentValues())
    {
      var sz := v;
      if blksizeSet || sz < 8 {
        return false, v;
      }
      if sz > env.maxBlksize {
        sz := env.maxBlksize;
      }
      segsize, blksizeSet := sz, true;
      return true, sz;
    }

    /** `set_blksize2`: a power of two, unless the request is cut down to the maximum. */
    method SetBlksize2(v: nat) returns (ok: bool, echo: nat)
      modifies this`segsize, this`blksizeSet
      ensures old(blksizeSet) ==> !ok
      ensures !old(blksizeSet) ==>
        (if ok then Some((echo, CurrentValues())) else None) == Apply(env, Blksize2, v, old(CurrentValues()))
      ensures !ok ==> CurrentValues() == old(CurrentValues())
    {
      var sz := v;
      if blksizeSet || sz < 8 {
        return false, v;
      }
      if sz > env.maxBlksize {
        sz := env.maxBlksize;
      } else {
        PowerTest(sz);
        if And(sz, sz - 1) != 0 {
          sz := ShiftLoop(sz);
        } else {
          FloorPow2IsLargest(sz, sz);
        }
      }
      segsize, blksizeSet := sz, true;
      return true, sz;
    }

    /** The other `set_*` functions */
    method SetOther(k: Kind, v: nat) returns (ok: bool, echo: nat)
      requires k != Blksize && k != Blksize2
      modifies this`rexmtval, this`timeout, this`maxtimeout, this`rolloverVal
      ensures (if ok then Some((echo, CurrentValues())) else None) == Apply(env, k, v, old(CurrentValues()))
      ensures !ok ==> CurrentValues() == old(CurrentValues())
    {
      ok, echo := true, v;
      match k {
        case Tsize =>
          if !env.tsizeOk {
            ok := false;
          } else if v == 0 {
            echo := env.tsize;
          }
        case TimeoutSec =>
          if v < 1 || v > 255 {
            ok := false;
          } else {
            rexmtval, timeout := v * 1000000, v * 1000000;
            maxtimeout := rexmtval * TIMEOUT_LIMIT;
          }
        case TimeoutUsec =>
          if v < 10000 || v > 255000000 {
            ok := false;
          } else {
            rexmtval, timeout := v, v;
            maxtimeout := rexmtval * TIMEOUT_LIMIT;
          }
        case Rollover =>
          if v > 65535 {
            ok := false;
          } else {
            rolloverVal := v;
          }
      }
    }

    /** Copy a string and its terminator to the end of the OACK. */
    method Append(s: string)
      requires ap + |s| < ackbuf.Length
      modifies ackbuf, this`ap
      ensures ap == old(ap) + |s| + 1
      ensures ackbuf[..ap] == old(ackbuf[..ap]) + s + "\0"
    {
      forall i | 0 <= i < |s| {
        ackbuf[ap + i] := s[i];
      }
      ackbuf[ap + |s|] := '\0';
      assert ackbuf[ap..ap + |s|] == s;
      assert ackbuf[..ap + |s| + 1] == ackbuf[..ap] + ackbuf[ap..ap + |s|] + [ackbuf[ap + |s|]];
      ap := ap + |s| + 1;
    }

    /** Both strings of an echoed option. */
    method AppendPair(opt: string, val: string)
      requires 2 <= ap && ap + |opt| + |val| + 2 < ackbuf.Length
      modifies ackbuf, this`ap
      ensures ap == old(ap) + |opt| + |val| + 2
      ensures ackbuf[2..ap] == old(ackbuf[2..ap]) + EncodePair((opt, val))
    {
      ghost var before := ackbuf[..ap];
      Append(opt);
      Append(val);
      assert ackbuf[..ap] == before + EncodePair((opt, val));
      assert ackbuf[2..ap] == ackbuf[..ap][2..];
    }

    /** The table search and dispatch of `do_opt` */
    method Dispatch(k: Kind, v: nat) returns (ok: bool, echo: nat)
      requires !blksizeSet
      modifies this`segsize, this`blksizeSet, this`rexmtval, this`timeout, this`maxtimeout, this`rolloverVal
      ensures (if ok then Some((echo, CurrentValues())) else None) == Apply(env, k, v, old(CurrentValues()))
      ensures !ok ==> CurrentValues() == old(CurrentValues())
    {
      match k {
        case Blksize => ok, echo := SetBlksize(v);
        case Blksize2 => ok, echo := SetBlksize2(v);
        case _ => ok, echo := SetOther(k, v);
      }
    }

    /** `do_opt`. The guard against a second block size is cleared on entry, so every block size option takes effect. */
    method DoOption(opt: string, val: string) returns (refused: bool)
      requires Valid()
      modifies this, ackbuf
      ensures Valid()
      ensures View(refused) == DoOpt(env, old(View(false)), opt, val)
    {
      blksizeSet := false;
      if opt == "" || val == "" {
        return false;
      }
      var parsed := StrToUMax(val);
      if parsed.None? {
        return false;
      }
      var found := None;
      for po := 0 to |TABLE|
        invariant found == None && LookUp(env, opt, 0) == LookUp(env, opt, po)
      {
        if TABLE[po] in env.supported && SameName(NameOf(TABLE[po]), opt) {
          found := Some(TABLE[po]);
          break;
        }
      }
      assert found == LookUp(env, opt, 0);
      if found.None? {
        return false;
      }
      hide LookUp, StrToUMax, Apply, Decimal, EncodePairs, EchoPairs;
      ghost var n := View(false);
      assert |OackBody(n)| == ap - 2;
      var ok, echo := Dispatch(found.value, parsed.value);
      if !ok {
        return true;
      }
      var retbuf := Decimal(echo);
      if ap + |opt| + |retbuf| + 2 >= ACKBUF_SIZE {
        return true;
      }
      EchoSnoc(n, found.value, opt, echo);
      AppendPair(opt, retbuf);
      accepted := accepted + [(found.value, opt, echo)];
      return false;
    }
  }

  // ----- The request as a whole

  function LowerAll(s: string): string {
    if s == "" then "" else [LowerChar(s[0])] + LowerAll(s[1..])
  }

  predicate IsMode(m: string) {
    m == "netascii" || m == "octet"
  }

  datatype Request =
    | NotTerminated | MissingMode | UnknownMode
    | Request(filename: string, mode: string, pairs: seq<Pair>, terminated: bool)

  /** What follows the string that ends at `e`. */
  function After(s: string, e: nat): string {
    if e < |s| then s[e + 1..] else ""
  }

  /** What a request says, field by field; `beyond` is the byte after the packet in the receive buffer. */
  function ParseRequest(req: string, beyond: char): Request {
    var e := NulAt(req);
    if e == 0 then MissingMode
    else if e == |req| && beyond != '\0' then NotTerminated
    else
      var t := After(req, e);
      var m := NulAt(t);
      if m == 0 then MissingMode
      else if m == |t| && beyond != '\0' then NotTerminated
      else if !IsMode(LowerAll(t[..m])) then UnknownMode
      else
        var (pairs, ok) := ParsePairs(After(t, m), beyond);
        Request(req[..e], LowerAll(t[..m]), pairs, ok)
  }

  function EncodeRequest(filename: string, mode: string, pairs: seq<Pair>): string {
    filename + "\0" + (mode + "\0" + EncodePairs(pairs))
  }

  /** Section 5 of RFC 1350 and RFC 2347: a request with a file name, a mode in any case and option pairs is understood
      as exactly that, whatever the receive buffer held before.
   */
  lemma RequestRoundTrip(filename: string, mode: string, pairs: seq<Pair>, beyond: char)
    requires filename != "" && NulFree(filename) && NulFree(mode) && IsMode(LowerAll(mode)) && NulFreePairs(pairs)
    ensures ParseRequest(EncodeRequest(filename, mode, pairs), beyond)
         == Request(filename, LowerAll(mode), UpToEmpty(pairs), true)
  {
    var body := EncodePairs(pairs);
    var t := mode + "\0" + body;
    var req := filename + "\0" + t;
    NulAtEnd(filename, t);
    NulAtEnd(mode, body);
    PairsRoundTrip(pairs, beyond);
    assert req[|filename| + 1..] == t && req[..|filename|] == filename;
    assert t[|mode| + 1..] == body && t[..|mode|] == mode;
  }

  /** Letters become lower case and everything else stays, so a mode may be written in any case. */
  lemma {:induction false} LowerText(s: string)
    ensures |LowerAll(s)| == |s|
    ensures forall i :: 0 <= i < |s| ==>
      LowerAll(s)[i] as int == s[i] as int + if 65 <= s[i] as int <= 90 then 32 else 0
  {
    if s != "" {
      LowerText(s[1..]);
    }
  }

  /** The two modes, and no other. */
  lemma Modes(mode: string)
    ensures LowerAll("NetASCII") == LowerAll("NETASCII") == "netascii"
    ensures LowerAll("Octet") == LowerAll("OCTET") == "octet"
    ensures IsMode(mode) <==> mode in ["netascii", "octet"]
  {
    LowerText("NetASCII");
    LowerText("NETASCII");
    LowerText("Octet");
    LowerText("OCTET");
    hide LowerAll;
  }

  lemma {:induction false} NoNul(s: string)
    requires NulFree(s)
    ensures NulAt(s) == |s|
  {
    if s != "" {
      NoNul(s[1..]);
    }
  }

  /** What is wrong with a malformed request: nothing, or nothing but a name, or a mode that is unknown; and a name or
      mode that runs to the end of the packet while the buffer goes on behind it.
   */
  lemma MalformedRequests(filename: string, mode: string, rest: string, beyond: char)
    requires filename != "" && NulFree(filename) && mode != "" && NulFree(mode)
    ensures ParseRequest("", beyond) == ParseRequest("\0" + rest, beyond) == MissingMode
    ensures ParseRequest(filename + "\0" + "", beyond) == MissingMode
    ensures ParseRequest(filename + "\0" + ("\0" + rest), beyond) == MissingMode
    ensures ParseRequest(filename, beyond) == if beyond != '\0' then NotTerminated else MissingMode
    ensures beyond != '\0' ==> ParseRequest(filename + "\0" + mode, beyond) == NotTerminated
    ensures !IsMode(LowerAll(mode)) ==> ParseRequest(filename + "\0" + (mode + "\0" + rest), beyond) == UnknownMode
  {
    hide LowerAll, IsMode, ParsePairs;
    NoNul(filename);
    NoNul(mode);
    NameThen(filename, "");
    NameThen(filename, "\0" + rest);
    NameThen(filename, mode);
    NameThen(filename, mode + "\0" + rest);
    NameThen(mode, rest);
    NulAtEnd("", rest);
    assert "" + "\0" + rest == "\0" + rest;
  }

  lemma NameThen(name: string, rest: string)
    requires NulFree(name)
    ensures var s := name + "\0" + rest; NulAt(s) == |name| && s[..|name|] == name && After(s, |name|) == rest
  {
    NulAtEnd(name, rest);
    hide NulAt;
  }

  /** An option name, or a value, that is cut off at the end of the packet: it is passed on only as a value, and only
      if the buffer happens to hold a NUL behind it; otherwise the request is not terminated.
   */
  lemma CutOffOption(opt: string, val: string, beyond: char)
    requires opt != "" && NulFree(opt) && val != "" && NulFree(val)
    ensures ParsePairs(opt, beyond) == ([], beyond == '\0')
    ensures ParsePairs(opt + "\0" + val, beyond) == (if beyond == '\0' then [(opt, val)] else [], beyond == '\0')
  {
    NoNul(opt);
    NoNul(val);
    NulAtEnd(opt, val);
    var s := opt + "\0" + val;
    assert s[..|opt|] == opt && s[|opt| + 1..] == val;
  }

  /** An empty name or an empty value ends the list, whatever follows. */
  lemma EmptyStringEnds(opt: string, rest: string, beyond: char)
    requires opt != "" && NulFree(opt)
    ensures ParsePairs("\0" + rest, beyond) == ParsePairs(opt + "\0" + ("\0" + rest), beyond) == ([], true)
  {
    NulAtEnd(opt, "\0" + rest);
    NulAtEnd("", rest);
    assert "" + "\0" + rest == "\0" + rest;
    var s := opt + "\0" + ("\0" + rest);
    assert s[..|opt|] == opt && s[|opt| + 1..] == "\0" + rest;
  }

  /** Processing option pairs in order, stopping at the first refusal. */
  function NegotiateFrom(env: Server, n: Negotiation, pairs: seq<Pair>): Negotiation
    decreases |pairs|
  {
    if pairs == [] then n else NegotiateFrom(env, DoOpt(env, n, pairs[0].0, pairs[0].1), pairs[1..])
  }

  /** The two ways to fold the pairs agree. */
  lemma {:induction false} NegotiateFromSnoc(env: Server, n: Negotiation, pairs: seq<Pair>, p: Pair)
    ensures NegotiateFrom(env, n, pairs + [p]) == DoOpt(env, NegotiateFrom(env, n, pairs), p.0, p.1)
    decreases |pairs|
  {
    hide DoOpt;
    if pairs == [] {
      assert [p][1..] == [] && [] + [p] == [p];
    } else {
      NegotiateFromSnoc(env, DoOpt(env, n, pairs[0].0, pairs[0].1), pairs[1..], p);
      assert (pairs + [p])[1..] == pairs[1..] + [p];
    }
  }

  lemma {:induction false} NegotiateIsFold(env: Server, start: Values, pairs: seq<Pair>)
    ensures Negotiate(env, start, pairs) == NegotiateFrom(env, Negotiation(start, [], false), pairs)
  {
    hide DoOpt;
    if pairs == [] {
    } else {
      NegotiateIsFold(env, start, pairs[..|pairs| - 1]);
      NegotiateFromSnoc(env, Negotiation(start, [], false), pairs[..|pairs| - 1], pairs[|pairs| - 1]);
      assert pairs == pairs[..|pairs| - 1] + [pairs[|pairs| - 1]];
    }
  }

  lemma {:induction false} RefusalIsFinal(env: Server, n: Negotiation, pairs: seq<Pair>)
    requires n.refused
    ensures NegotiateFrom(env, n, pairs) == n
  {
    if pairs == [] {
    } else {
      RefusalIsFinal(env, n, pairs[1..]);
    }
  }

  // ----- The walk over the request buffer

  /** The inner loop that advances `cp` to the end of the current string. */
  method SkipString(req: string, start: nat) returns (cp: nat)
    requires start < |req| && req[start] != '\0'
    ensures start < cp <= |req| && cp == EndOf(req, start)
  {
    cp := start + 1;
    NulAtSkip(req, start);
    while cp < |req| && req[cp] != '\0'
      invariant start < cp <= |req|
      invariant cp + NulAt(req[cp..]) == start + NulAt(req[start..])
    {
      NulAtSkip(req, cp);
      cp := cp + 1;
    }
  }

  lemma NulAtSkip(req: string, cp: nat)
    requires cp < |req| && req[cp] != '\0'
    ensures NulAt(req[cp..]) == 1 + NulAt(req[cp + 1..])
  {
    assert req[cp..][1..] == req[cp + 1..];
  }

  /** The byte `cp` points to: one past the packet it is whatever the buffer holds. */
  function ByteAt(req: string, beyond: char, cp: nat): char
    requires cp <= |req|
  {
    if cp < |req| then req[cp] else beyond
  }

  function From(req: string, cp: nat): string {
    if cp <= |req| then req[cp..] else ""
  }

  /** Where the string that starts at `cp` ends. */
  function EndOf(req: string, cp: nat): (e: nat)
    requires cp <= |req|
    ensures cp <= e <= |req|
  {
    cp + NulAt(req[cp..])
  }

  lemma NameStep(req: string, beyond: char, cp: nat)
    requires cp < |req| && req[cp] != '\0'
    ensures var e := EndOf(req, cp);
      && cp < e && NulFree(req[cp..e])
      && ParsePairs(From(req, cp), beyond) ==
         if ByteAt(req, beyond, e) != '\0' then ([], false) else ParseValue(req[cp..e], From(req, e + 1), beyond)
  {
    var e, s := EndOf(req, cp), req[cp..];
    assert req[cp..e] == s[..e - cp];
    assert e < |req| ==> s[e - cp + 1..] == req[e + 1..];
  }

  lemma ValueStep(opt: string, req: string, beyond: char, cp: nat)
    requires cp < |req| && req[cp] != '\0' && opt != "" && NulFree(opt)
    ensures var e := EndOf(req, cp); var (pairs, ok) := ParsePairs(From(req, e + 1), beyond);
      ParseValue(opt, From(req, cp), beyond) ==
        if ByteAt(req, beyond, e) != '\0' then ([], false) else ([(opt, req[cp..e])] + pairs, ok)
  {
    hide ParsePairs, NulAt;
    var e, s := EndOf(req, cp), req[cp..];
    if e < |req| {
      assert req[cp..e] == s[..e - cp] && s[e - cp + 1..] == req[e + 1..];
    } else {
      LastValue(opt, s, beyond);
      hide ParseValue;
      assert req[cp..e] == s;
    }
  }

  /** A value that runs to the end of the packet counts exactly if the byte behind is a NUL. */
  lemma LastValue(opt: string, s: string, beyond: char)
    requires s != "" && NulAt(s) == |s| && opt != "" && NulFree(opt)
    ensures ParsePairs("", beyond) == ([], true)
    ensures ParseValue(opt, s, beyond) == if beyond == '\0' then ([(opt, s)] + [], true) else ([], false)
  {
    assert [(opt, s)] + [] == [(opt, s)];
  }

  /** The pairs found from `cp` on, at a name or, after the name `opt`, at a value. */
  function Remaining(isValue: bool, opt: string, req: string, beyond: char, cp: nat): (seq<Pair>, bool)
    requires isValue ==> opt != "" && NulFree(opt)
  {
    if isValue then ParseValue(opt, From(req, cp), beyond) else ParsePairs(From(req, cp), beyond)
  }

  lemma NothingRemains(isValue: bool, opt: string, req: string, beyond: char, cp: nat)
    requires isValue ==> opt != "" && NulFree(opt)
    requires cp >= |req| || req[cp] == '\0'
    ensures Remaining(isValue, opt, req, beyond, cp) == ([], true)
  {
  }

  lemma NegotiateNone(env: Server, n: Negotiation)
    ensures NegotiateFrom(env, n, []) == n
  {
  }

  lemma NegotiateFirst(env: Server, n: Negotiation, p: Pair, pairs: seq<Pair>)
    ensures NegotiateFrom(env, n, [p] + pairs) == NegotiateFrom(env, DoOpt(env, n, p.0, p.1), pairs)
  {
    assert ([p] + pairs)[1..] == pairs;
  }

  /** The option part of the loop in `tftp`: names and values alternate, and each value triggers `do_opt`. */
  method WalkOptions(req: string, beyond: char, start: nat, neg: Negotiator) returns (terminated: bool, refused: bool)
    requires neg.Valid()
    modifies neg, neg.ackbuf
    ensures neg.Valid()
    ensures var (pairs, ok) := ParsePairs(From(req, start), beyond);
      && neg.View(refused) == NegotiateFrom(neg.env, old(neg.View(false)), pairs)
      && (!refused ==> terminated == ok)
  {
    hide DoOpt, NegotiateFrom, Negotiator.Valid, ParsePairs, ParseValue, NulAt;
    ghost var all := ParsePairs(From(req, start), beyond);
    ghost var goal := NegotiateFrom(neg.env, neg.View(false), all.0);
    var cp, opt, isValue := start, "", false;
    assert all == Remaining(false, opt, req, beyond, cp);
    while cp < |req| && req[cp] != '\0'
      invariant neg.Valid()
      invariant isValue ==> opt != "" && NulFree(opt)
      invariant goal == NegotiateFrom(neg.env, neg.View(false), Remaining(isValue, opt, req, beyond, cp).0)
      invariant Remaining(isValue, opt, req, beyond, cp).1 == all.1
      decreases |req| - cp
    {
      var e := SkipString(req, cp);
      NameStep(req, beyond, cp);
      if isValue {
        ValueStep(opt, req, beyond, cp);
      }
      if ByteAt(req, beyond, e) != '\0' {
        NegotiateNone(neg.env, neg.View(false));
        return false, false;
      }
      var str := req[cp..e];
      cp := e + 1;
      if !isValue {
        opt, isValue := str, true;
      } else {
        ghost var later := ParsePairs(From(req, cp), beyond).0;
        NegotiateFirst(neg.env, neg.View(false), (opt, str), later);
        refused := neg.DoOption(opt, str);
        if refused {
          RefusalIsFinal(neg.env, neg.View(true), later);
          return true, true;
        }
        isValue := false;
      }
    }
    NothingRemains(isValue, opt, req, beyond, cp);
    NegotiateNone(neg.env, neg.View(false));
    return true, false;
  }

  const EACCESS := 2

  datatype Result = Nak(reason: Request) | Denied(code: nat) | NakOption | Serve(filename: string, mode: string)

  /** The two functions of the mode: `f_rewrite` maps the file name or denies it, and `f_validate` returns an error
      code, 0 for none.
   */
  datatype Access = Access(rewrite: string -> Option<string>, validate: string -> nat) {
    function Code(filename: string): nat {
      match rewrite(filename) case None => EACCESS case Some(name) => validate(name)
    }
  }

  /** `tftp` up to the choice of the transfer: a malformed request, a file name that is denied by a mapping rule or by
      validation, and a refused option are answered with their errors, in this order. Any other request starts a
      transfer of the mapped name with the values negotiated from exactly the pairs of the request.
   */
  method HandleRequest(req: string, beyond: char, access: Access, neg: Negotiator) returns (result: Result)
    requires neg.Valid()
    modifies neg, neg.ackbuf
    ensures neg.Valid()
    ensures ParseRequest(req, beyond).Request? && access.rewrite(ParseRequest(req, beyond).filename).None? ==>
      result == Denied(2)
    ensures match ParseRequest(req, beyond)
      case Request(filename, mode, pairs, terminated) =>
        if access.Code(filename) != 0 then
          result == Denied(access.Code(filename)) && neg.View(false) == old(neg.View(false))
        else
          var n := NegotiateFrom(neg.env, old(neg.View(false)), pairs);
          && neg.View(n.refused) == n
          && result == (if n.refused then NakOption else if !terminated then Nak(NotTerminated)
                        else Serve(access.rewrite(filename).value, mode))
      case bad => result == Nak(bad) && neg.View(false) == old(neg.View(false))
  {
    hide Negotiator.Valid, DoOpt, ParsePairs, NegotiateFrom, NulAt, LowerAll, IsMode;
    if req == "" || req[0] == '\0' {
      return Nak(MissingMode);
    }
    var e := SkipString(req, 0);
    assert req[0..] == req;
    if ByteAt(req, beyond, e) != '\0' {
      return Nak(NotTerminated);
    }
    var filename, cp := req[..e], e + 1;
    if cp >= |req| || req[cp] == '\0' {
      return Nak(MissingMode);
    }
    var m := SkipString(req, cp);
    if ByteAt(req, beyond, m) != '\0' {
      return Nak(NotTerminated);
    }
    ghost var t := After(req, e);
    assert t == req[cp..] && t[..m - cp] == req[cp..m];
    var mode := LowerAll(req[cp..m]);
    if !IsMode(mode) {
      return Nak(UnknownMode);
    }
    assert After(t, m - cp) == From(req, m + 1);
    var mapped := access.rewrite(filename);
    if mapped.None? {
      return Denied(EACCESS);
    }
    var ecode := access.validate(mapped.value);
    if ecode != 0 {
      return Denied(ecode);
    }
    var terminated, refused := WalkOptions(req, beyond, m + 1, neg);
    result := if refused then NakOption else if !terminated then Nak(NotTerminated) else Serve(mapped.value, mode);
  }
}
