/** The rule interpreter of the filename remap engine. */
module Remap {
  import opened Maybe
  import opened Substitution

  const DEADMAN_MAX_STEPS := 1024

  /** A parsed rule; `mode` 0 applies to both kinds of request, and `rx` stands for the compiled regular expression:
      the group positions of its match in a string, if any.
   */
  datatype Rule = Rule(rewrite: bool, global: bool, exit: bool, restart: bool, abort: bool, inverse: bool, mode: char,
                       rx: string -> Option<seq<Group>>, pattern: string)

  /** What `parseline` guarantees of a rule, and `regexec` of its positions. */
  ghost predicate WellFormed(r: Rule) {
    && (r.global ==> r.rewrite) && !(r.inverse && r.rewrite)
    && forall s :: r.rx(s).Some? ==> ValidGroups(r.rx(s).value, |s|)
  }

  predicate Applicable(r: Rule, mode: char) {
    r.mode == '\0' || r.mode == mode
  }

  predicate Matches(r: Rule, s: string) {
    r.rx(s).Some? != r.inverse
  }

  /** One rewrite of a matching subject. */
  function Rewritten(r: Rule, s: string, cb: Callback): string
    requires WellFormed(r) && r.rewrite && Matches(r, s)
  {
    Substituted(r.pattern, s, r.rx(s).value, cb.emit)
  }

  // ----- Rules that rewrite until they no longer match

  /** After at most `n` rewrites the rule no longer matches. */
  ghost predicate StopsWithin(r: Rule, s: string, cb: Callback, n: nat)
    requires WellFormed(r) && r.rewrite
    decreases n
  {
    Matches(r, s) ==> n > 0 && StopsWithin(r, Rewritten(r, s, cb), cb, n - 1)
  }

  ghost predicate EventuallyStops(r: Rule, s: string, cb: Callback)
    requires WellFormed(r) && r.rewrite
  {
    exists n: nat :: StopsWithin(r, s, cb, n)
  }

  lemma {:induction false} StopsLonger(r: Rule, s: string, cb: Callback, n: nat, m: nat)
    requires WellFormed(r) && r.rewrite && StopsWithin(r, s, cb, n) && n <= m
    ensures StopsWithin(r, s, cb, m)
    decreases n
  {
    if Matches(r, s) {
      StopsLonger(r, Rewritten(r, s, cb), cb, n - 1, m - 1);
    }
  }

  ghost function Fewest(r: Rule, s: string, cb: Callback, n: nat): (m: nat)
    requires WellFormed(r) && r.rewrite && StopsWithin(r, s, cb, n)
    ensures StopsWithin(r, s, cb, m) && (m > 0 ==> !StopsWithin(r, s, cb, m - 1))
  {
    if n == 0 || !StopsWithin(r, s, cb, n - 1) then n else Fewest(r, s, cb, n - 1)
  }

  /** The number of rewrites until the rule no longer matches. */
  ghost function RewritesLeft(r: Rule, s: string, cb: Callback): (m: nat)
    requires WellFormed(r) && r.rewrite && EventuallyStops(r, s, cb)
    ensures StopsWithin(r, s, cb, m) && (m > 0 ==> !StopsWithin(r, s, cb, m - 1))
  {
    var n: nat :| StopsWithin(r, s, cb, n);
    Fewest(r, s, cb, n)
  }

  lemma RewriteCounts(r: Rule, s: string, cb: Callback)
    requires WellFormed(r) && r.rewrite && EventuallyStops(r, s, cb) && Matches(r, s)
    ensures EventuallyStops(r, Rewritten(r, s, cb), cb)
    ensures RewritesLeft(r, Rewritten(r, s, cb), cb) < RewritesLeft(r, s, cb)
  {
    var m, s' := RewritesLeft(r, s, cb), Rewritten(r, s, cb);
    assert StopsWithin(r, s', cb, m - 1);
    var k := RewritesLeft(r, s', cb);
    if k >= m {
      StopsLonger(r, s', cb, m - 1, k - 1);
    }
  }

  /** Rewriting until the rule no longer matches. */
  ghost function Exhaustively(r: Rule, s: string, cb: Callback): string
    requires WellFormed(r) && r.global && EventuallyStops(r, s, cb)
    decreases RewritesLeft(r, s, cb)
  {
    if Matches(r, s) then
      RewriteCounts(r, s, cb);
      Exhaustively(r, Rewritten(r, s, cb), cb)
    else s
  }

  /** The subject after a rule that neither aborts nor fails to match. */
  ghost function Transformed(r: Rule, s: string, cb: Callback): string
    requires WellFormed(r) && Matches(r, s) && (r.global ==> EventuallyStops(r, s, cb))
  {
    if r.global then Exhaustively(r, s, cb) else if r.rewrite then Rewritten(r, s, cb) else s
  }

  /** The rule does its work on the names in `met`: it does not lead out of them, and if it is global it eventually
      stops matching.
   */
  ghost predicate Settles(r: Rule, cb: Callback, met: string -> bool)
    requires WellFormed(r)
  {
    r.rewrite && !r.abort ==>
      && (forall s :: met(s) && Matches(r, s) ==> met(Rewritten(r, s, cb)))
      && (r.global ==> forall s :: met(s) ==> EventuallyStops(r, s, cb))
  }

  ghost predicate AllFine(rules: seq<Rule>, mode: char, cb: Callback, met: string -> bool) {
    forall i :: 0 <= i < |rules| ==> WellFormed(rules[i]) && (Applicable(rules[i], mode) ==> Settles(rules[i], cb, met))
  }

  lemma {:induction false} ExhaustivelyMet(r: Rule, s: string, cb: Callback, met: string -> bool)
    requires WellFormed(r) && r.global && !r.abort && Settles(r, cb, met) && met(s)
    ensures met(Exhaustively(r, s, cb))
    decreases RewritesLeft(r, s, cb)
  {
    if Matches(r, s) {
      RewriteCounts(r, s, cb);
      ExhaustivelyMet(r, Rewritten(r, s, cb), cb, met);
    }
  }

  lemma TransformedMet(r: Rule, s: string, cb: Callback, met: string -> bool)
    requires WellFormed(r) && !r.abort && Settles(r, cb, met) && met(s) && Matches(r, s)
    ensures met(Transformed(r, s, cb))
  {
    if r.global {
      ExhaustivelyMet(r, s, cb, met);
    }
  }

  /** The message of an abort. It is undefined for an inverted rule that has one: with the group positions cleared, the
      substitution would copy a prefix of -1 bytes.
   */
  datatype Message = NoMessage | Text(text: string) | Undefined

  /** How a rule set can end: with a name, stopped by abort rule `rule` on `subject`, or out of steps. */
  datatype Outcome = Name(name: string) | Aborted(rule: nat, subject: string, message: Message) | OutOfSteps

  function AbortMessage(r: Rule, s: string, cb: Callback): Message
    requires WellFormed(r) && Matches(r, s) && r.abort
  {
    if r.pattern == "" then NoMessage
    else if r.inverse then Undefined
    else Text(Substituted(r.pattern, s, r.rx(s).value, cb.emit))
  }

  // ----- The interpreter

  datatype Continuation =
    | Done(out: Outcome, evaluated: seq<nat>)
    | More(i: nat, s: string, budget: nat, evaluated: seq<nat>)

  /** One step of the interpreter: it is done, or goes on elsewhere after evaluating at most one rule. A restart sets
      the pointer to the first rule and the loop then moves on, so it continues with the second.
   */
  ghost function Evaluate(rules: seq<Rule>, mode: char, cb: Callback, met: string -> bool, i: nat, s: string,
                          budget: nat): (c: Continuation)
    requires AllFine(rules, mode, cb, met) && met(s)
    ensures |c.evaluated| <= 1 && (forall k :: k in c.evaluated ==> k == i < |rules| && Applicable(rules[k], mode))
    ensures c.More? ==>
      && met(c.s)
      && c.budget + |c.evaluated| == budget && (c.budget < budget || |rules| - c.i < |rules| - i)
      && (c.i == i + 1 || (c.i == 1 && i < |rules| && rules[i].restart)) && i < |rules|
    ensures c.Done? && c.out.OutOfSteps? ==> budget == 0 && i < |rules|
    ensures c.Done? && c.out.Aborted? ==>
      && c.out.rule == i < |rules| && c.evaluated == [i]
      && rules[i].abort && Applicable(rules[i], mode) && Matches(rules[i], c.out.subject)
      && (c.out.message == Undefined <==> rules[i].inverse && rules[i].pattern != "")
    ensures c.Done? ==> |c.evaluated| <= budget
  {
    if i >= |rules| then Done(Name(s), [])
    else
      var r := rules[i];
      if !Applicable(r, mode) then More(i + 1, s, budget, [])
      else if budget == 0 then Done(OutOfSteps, [])
      else if !Matches(r, s) then More(i + 1, s, budget - 1, [i])
      else if r.abort then Done(Aborted(i, s, AbortMessage(r, s, cb)), [i])
      else
        TransformedMet(r, s, cb, met);
        var s' := Transformed(r, s, cb);
        if r.exit then Done(Name(s'), [i]) else More(if r.restart then 1 else i + 1, s', budget - 1, [i])
  }

  /** Interpret from rule `i` with `budget` evaluations left; also list the rules evaluated, in order. */
  ghost function Interpret(rules: seq<Rule>, mode: char, cb: Callback, met: string -> bool, i: nat, s: string,
                           budget: nat): (Outcome, seq<nat>)
    requires AllFine(rules, mode, cb, met) && met(s)
    decreases budget, |rules| - i
  {
    match Evaluate(rules, mode, cb, met, i, s, budget)
    case Done(out, evaluated) => (out, evaluated)
    case More(i', s', budget', evaluated) => Join(evaluated, Interpret(rules, mode, cb, met, i', s', budget'))
  }

  function Join(evaluated: seq<nat>, rest: (Outcome, seq<nat>)): (Outcome, seq<nat>) {
    (rest.0, evaluated + rest.1)
  }

  // ----- What the interpreter guarantees

  /** At most `budget` rules are evaluated, all of them applicable, and only an exhausted budget runs out of steps. */
  lemma {:induction false} StepsWithinBudget(rules: seq<Rule>, mode: char, cb: Callback, met: string -> bool,
                                             i: nat, s: string, budget: nat)
    requires AllFine(rules, mode, cb, met) && met(s)
    ensures var (out, trace) := Interpret(rules, mode, cb, met, i, s, budget);
      && |trace| <= budget
      && (forall k :: k in trace ==> k < |rules| && Applicable(rules[k], mode))
      && (out.OutOfSteps? ==> |trace| == budget)
    decreases budget, |rules| - i
  {
    hide AllFine, Applicable, Matches;
    var next := Evaluate(rules, mode, cb, met, i, s, budget);
    if next.More? {
      StepsWithinBudget(rules, mode, cb, met, next.i, next.s, next.budget);
    }
  }

  /** An abort is the work of an applicable abort rule that matched, and it was the last rule evaluated. */
  lemma {:induction false} AbortsOnlyByRule(rules: seq<Rule>, mode: char, cb: Callback, met: string -> bool,
                                            i: nat, s: string, budget: nat)
    requires AllFine(rules, mode, cb, met) && met(s)
    ensures var (out, trace) := Interpret(rules, mode, cb, met, i, s, budget);
      out.Aborted? ==>
        && out.rule < |rules| && trace != [] && trace[|trace| - 1] == out.rule
        && rules[out.rule].abort && Applicable(rules[out.rule], mode) && Matches(rules[out.rule], out.subject)
        && (out.message == Undefined <==> rules[out.rule].inverse && rules[out.rule].pattern != "")
    decreases budget, |rules| - i
  {
    hide AllFine, Applicable, Matches;
    var next := Evaluate(rules, mode, cb, met, i, s, budget);
    if next.More? {
      AbortsOnlyByRule(rules, mode, cb, met, next.i, next.s, next.budget);
    }
  }

  /** A restart never comes back to the first rule. */
  lemma {:induction false} FirstRuleNotRevisited(rules: seq<Rule>, mode: char, cb: Callback, met: string -> bool,
                                                 i: nat, s: string, budget: nat)
    requires AllFine(rules, mode, cb, met) && met(s) && i > 0
    ensures 0 !in Interpret(rules, mode, cb, met, i, s, budget).1
    decreases budget, |rules| - i
  {
    hide AllFine, Applicable, Matches;
    var next := Evaluate(rules, mode, cb, met, i, s, budget);
    if next.More? {
      FirstRuleNotRevisited(rules, mode, cb, met, next.i, next.s, next.budget);
    }
  }

  /** Without restart rules, evaluation goes through the rules once in order, so a table that fits the budget never
      runs out of steps. */
  lemma {:induction false} StraightThrough(rules: seq<Rule>, mode: char, cb: Callback, met: string -> bool,
                                           i: nat, s: string, budget: nat)
    requires AllFine(rules, mode, cb, met) && met(s) && i <= |rules|
    requires forall k :: 0 <= k < |rules| ==> !rules[k].restart
    ensures var (out, trace) := Interpret(rules, mode, cb, met, i, s, budget);
      && Rising(i, trace)
      && (|rules| - i <= budget ==> !out.OutOfSteps?)
    decreases budget, |rules| - i
  {
    hide AllFine, Applicable, Matches;
    var next := Evaluate(rules, mode, cb, met, i, s, budget);
    if next.More? {
      StraightThrough(rules, mode, cb, met, next.i, next.s, next.budget);
      var (out, later) := Interpret(rules, mode, cb, met, next.i, next.s, next.budget);
      assert !rules[i].restart;
      assert next.i == i + 1;
      hide Evaluate, Interpret;
      RisingJoin(i, next.evaluated, later);
    }
  }

  /** From `i` on, each rule after the ones before it. */
  predicate Rising(i: nat, trace: seq<nat>) {
    && (forall k :: 0 <= k < |trace| ==> i <= trace[k])
    && (forall j, k :: 0 <= j < k < |trace| ==> trace[j] < trace[k])
  }

  lemma RisingJoin(i: nat, first: seq<nat>, later: seq<nat>)
    requires |first| <= 1 && (first != [] ==> first[0] == i) && Rising(i + 1, later)
    ensures Rising(i, first + later)
  {
    assert forall k :: |first| <= k < |first + later| ==> (first + later)[k] == later[k - |first|];
  }

  /** A name that no applicable rule matches comes out as it went in, unless the table is longer than the budget. */
  lemma {:induction false} UnmatchedNameUnchanged(rules: seq<Rule>, mode: char, cb: Callback, met: string -> bool,
                                                  i: nat, s: string, budget: nat)
    requires AllFine(rules, mode, cb, met) && met(s) && i <= |rules| && |rules| - i <= budget
    requires forall k :: i <= k < |rules| && Applicable(rules[k], mode) ==> !Matches(rules[k], s)
    ensures Interpret(rules, mode, cb, met, i, s, budget).0 == Name(s)
    decreases |rules| - i
  {
    if i < |rules| {
      UnmatchedNameUnchanged(rules, mode, cb, met, i + 1, s, if Applicable(rules[i], mode) then budget - 1 else budget);
    }
  }

  /** A global rule leaves a subject that it no longer matches. */
  lemma {:induction false} ExhaustivelyStops(r: Rule, s: string, cb: Callback)
    requires WellFormed(r) && r.global && EventuallyStops(r, s, cb)
    ensures !Matches(r, Exhaustively(r, s, cb))
    decreases RewritesLeft(r, s, cb)
  {
    if Matches(r, s) {
      RewriteCounts(r, s, cb);
      ExhaustivelyStops(r, Rewritten(r, s, cb), cb);
    }
  }

  /** A one-rule table never restarts: its rule is evaluated at most once. */
  lemma SingleRuleRunsOnce(r: Rule, mode: char, cb: Callback, met: string -> bool, s: string, budget: nat)
    requires AllFine([r], mode, cb, met) && met(s)
    ensures |Interpret([r], mode, cb, met, 0, s, budget).1| <= 1
  {
    var rules := [r];
    if Applicable(r, mode) && budget > 0 {
      assert forall s' :: met(s') ==> Interpret(rules, mode, cb, met, 1, s', budget - 1) == (Name(s'), []);
    } else if !Applicable(r, mode) {
      assert Interpret(rules, mode, cb, met, 1, s, budget) == (Name(s), []);
    }
  }

  // ----- The code

  /** The callback keeps its contract on the patterns of all applicable rules. */
  ghost predicate ContractKept(rules: seq<Rule>, mode: char, cb: Callback) {
    forall i :: 0 <= i < |rules| && Applicable(rules[i], mode) ==> KeepsContract(cb, rules[i].pattern)
  }

  /** The inner `do ... while` loop of `rewrite_string` for one rule. */
  method EvaluateRule(r: Rule, subject: string, cb: Callback)
    returns (current: string, wasMatch: bool, aborted: bool, message: Message)
    requires WellFormed(r) && KeepsContract(cb, r.pattern) && (r.global && !r.abort ==> EventuallyStops(r, subject, cb))
    ensures wasMatch == Matches(r, subject) && aborted == (wasMatch && r.abort)
    ensures aborted ==> current == subject && message == AbortMessage(r, subject, cb)
    ensures !wasMatch ==> current == subject
    ensures wasMatch && !aborted ==> current == Transformed(r, subject, cb)
  {
    hide RewritesLeft, EventuallyStops;
    current, wasMatch, aborted, message := subject, false, false, NoMessage;
    while true
      invariant !aborted && (wasMatch ==> r.global && !r.abort && Matches(r, subject))
      invariant !wasMatch ==> current == subject
      invariant r.global && !r.abort ==> EventuallyStops(r, current, cb)
      invariant wasMatch ==> Exhaustively(r, current, cb) == Exhaustively(r, subject, cb)
      decreases if r.global && !r.abort then RewritesLeft(r, current, cb) else 0
    {
      if r.rx(current).Some? == r.inverse {
        break;
      }
      wasMatch := true;
      if r.abort {
        aborted := true;
        if r.pattern != "" && r.inverse {
          message := Undefined;
        } else if r.pattern != "" {
          var text := SubstituteMatch(r.pattern, current, r.rx(current).value, cb);
          message := Text(text);
        }
        break;
      }
      if r.global {
        RewriteCounts(r, current, cb);
      }
      if r.rewrite {
        current := SubstituteMatch(r.pattern, current, r.rx(current).value, cb);
      }
      if !r.global {
        break;
      }
    }
  }

  /** The body of the `for` loop of `rewrite_string`, and its step to the next rule. */
  method EvaluateNext(rules: seq<Rule>, mode: char, cb: Callback, ghost met: string -> bool, ruleptr: nat,
                      subject: string, deadman: nat) returns (next: Continuation)
    requires AllFine(rules, mode, cb, met) && met(subject) && ContractKept(rules, mode, cb) && ruleptr < |rules|
    ensures next == Evaluate(rules, mode, cb, met, ruleptr, subject, deadman)
  {
    hide Transformed;
    var r := rules[ruleptr];
    if !Applicable(r, mode) {
      return More(ruleptr + 1, subject, deadman, []);
    }
    if deadman == 0 {
      return Done(OutOfSteps, []);
    }
    var current, wasMatch, aborted, message := EvaluateRule(r, subject, cb);
    if aborted {
      return Done(Aborted(ruleptr, subject, message), [ruleptr]);
    }
    var i := ruleptr;
    if wasMatch {
      if r.exit {
        return Done(Name(current), [ruleptr]);
      } else if r.restart {
        i := 0;
      }
    }
    return More(i + 1, current, deadman - 1, [ruleptr]);
  }

  /** `rewrite_string` refines the interpreter: the same outcome and the same rules evaluated. */
  method RewriteString(input: string, rules: seq<Rule>, mode: char, cb: Callback, ghost met: string -> bool)
    returns (out: Outcome, trace: seq<nat>)
    requires AllFine(rules, mode, cb, met) && met(input) && ContractKept(rules, mode, cb)
    ensures (out, trace) == Interpret(rules, mode, cb, met, 0, input, DEADMAN_MAX_STEPS)
    ensures |trace| <= DEADMAN_MAX_STEPS
    ensures out.OutOfSteps? ==> |trace| == DEADMAN_MAX_STEPS
    ensures out.Aborted? ==> out.rule < |rules| && rules[out.rule].abort && Matches(rules[out.rule], out.subject)
  {
    StepsWithinBudget(rules, mode, cb, met, 0, input, DEADMAN_MAX_STEPS);
    AbortsOnlyByRule(rules, mode, cb, met, 0, input, DEADMAN_MAX_STEPS);
    hide AllFine, Evaluate, ContractKept;
    var current, deadman: nat, ruleptr: nat := input, DEADMAN_MAX_STEPS, 0;
    trace := [];
    ghost var all := Interpret(rules, mode, cb, met, 0, input, DEADMAN_MAX_STEPS);
    assert [] + all.1 == all.1;
    while ruleptr < |rules|
      invariant met(current)
      invariant all == Join(trace, Interpret(rules, mode, cb, met, ruleptr, current, deadman))
      decreases deadman, |rules| - ruleptr
    {
      var next := EvaluateNext(rules, mode, cb, met, ruleptr, current, deadman);
      match next {
        case Done(o, evaluated) =>
          return o, trace + evaluated;
        case More(i, s, budget, evaluated) =>
          JoinTwice(trace, evaluated, Interpret(rules, mode, cb, met, i, s, budget));
          ruleptr, current, deadman, trace := i, s, budget, trace + evaluated;
      }
    }
    PastTheEnd(rules, mode, cb, met, ruleptr, current, deadman);
    assert trace + [] == trace;
    return Name(current), trace;
  }

  lemma PastTheEnd(rules: seq<Rule>, mode: char, cb: Callback, met: string -> bool, i: nat, s: string, budget: nat)
    requires AllFine(rules, mode, cb, met) && met(s) && i >= |rules|
    ensures Interpret(rules, mode, cb, met, i, s, budget) == (Name(s), [])
  {
  }

  lemma JoinTwice(a: seq<nat>, b: seq<nat>, rest: (Outcome, seq<nat>))
    ensures Join(a, Join(b, rest)) == Join(a + b, rest)
  {
    assert a + (b + rest.1) == (a + b) + rest.1;
  }

  // ----- The engine in the server

  /** `rewrite_access` on values: the name that the rules lead to, if they lead to one. */
  ghost function MappedName(rules: seq<Rule>, isWrite: bool, cb: Callback, met: string -> bool, s: string)
    : Option<string>
    requires AllFine(rules, Direction(isWrite), cb, met) && met(s)
  {
    match Interpret(rules, Direction(isWrite), cb, met, 0, s, DEADMAN_MAX_STEPS).0
    case Name(name) => Some(name)
    case _ => None
  }

  function Direction(isWrite: bool): char {
    if isWrite then 'P' else 'G'
  }

  /** No applicable rule uses the macro on which the server's callback breaks its contract, or has an undefined message.
   */
  predicate Servable(rules: seq<Rule>, mode: char) {
    forall i :: 0 <= i < |rules| && Applicable(rules[i], mode) ==>
      MacroUses(rules[i].pattern, 'x') == 0 && !(rules[i].inverse && rules[i].abort && rules[i].pattern != "")
  }

  /** `rewrite_access`: with the server's own macros the name is mapped or denied as the rules say. */
  method RewriteAccess(filename: string, isWrite: bool, rules: seq<Rule>, ip: string, hex: string,
                       ghost met: string -> bool) returns (mapped: Option<string>)
    requires AllFine(rules, Direction(isWrite), RewriteMacros(ip, hex), met) && met(filename)
    requires |hex| > 0 && Servable(rules, Direction(isWrite))
    ensures mapped == MappedName(rules, isWrite, RewriteMacros(ip, hex), met, filename)
  {
    hide AllFine, Interpret;
    var cb := RewriteMacros(ip, hex);
    assert ContractKept(rules, Direction(isWrite), cb) by {
      forall i | 0 <= i < |rules| && Applicable(rules[i], Direction(isWrite))
        ensures KeepsContract(cb, rules[i].pattern)
      {
        ServerMacrosKeep(rules[i].pattern, ip, hex);
      }
    }
    var out, trace := RewriteString(filename, rules, Direction(isWrite), cb, met);
    mapped := match out case Name(name) => Some(name) case _ => None;
  }
}
