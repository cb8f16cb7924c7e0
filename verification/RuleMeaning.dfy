/** What a rule table does to a name, told by its first matching rule. */
module RuleMeaning {
  import opened Maybe
  import opened Substitution
  import opened Remap

  /** How many of the rules from `i` up to `k` apply to a kind of request. */
  function CountApplicable(rules: seq<Rule>, mode: char, i: nat, k: nat): nat
    requires i <= k <= |rules|
    decreases k - i
  {
    if i == k then 0
    else (if rules[i].mode == '\0' || rules[i].mode == mode then 1 else 0) + CountApplicable(rules, mode, i + 1, k)
  }

  /** No rule from `i` up to `k` both applies to the kind of request and matches the name, or fails to if it is
      inverted.
   */
  predicate NoneHits(rules: seq<Rule>, mode: char, s: string, i: nat, k: nat)
    requires i <= k <= |rules|
  {
    forall j :: i <= j < k && (rules[j].mode == '\0' || rules[j].mode == mode) ==>
      rules[j].rx(s).Some? == rules[j].inverse
  }

  /** The first rule that hits is the one at `k`. */
  predicate FirstHit(rules: seq<Rule>, mode: char, s: string, i: nat, k: nat) {
    && i <= k < |rules| && NoneHits(rules, mode, s, i, k)
    && (rules[k].mode == '\0' || rules[k].mode == mode) && rules[k].rx(s).Some? != rules[k].inverse
  }

  lemma RulePassed(rules: seq<Rule>, mode: char, cb: Callback, met: string -> bool, i: nat, s: string, budget: nat)
    requires AllFine(rules, mode, cb, met) && met(s) && i < |rules| && NoneHits(rules, mode, s, i, i + 1)
    ensures var applies := rules[i].mode == '\0' || rules[i].mode == mode;
      && (applies && budget == 0 ==> Interpret(rules, mode, cb, met, i, s, budget).0 == OutOfSteps)
      && (!applies || budget > 0 ==>
            Interpret(rules, mode, cb, met, i, s, budget).0 ==
            Interpret(rules, mode, cb, met, i + 1, s, if applies then budget - 1 else budget).0)
  {
    hide AllFine, Transformed, AbortMessage;
  }

  /** Rules that do not hit cost one step each if they apply, and leave the name alone. */
  lemma {:induction false} SkipRules(rules: seq<Rule>, mode: char, cb: Callback, met: string -> bool, i: nat, k: nat,
                                     s: string, budget: nat)
    requires AllFine(rules, mode, cb, met) && met(s) && i <= k <= |rules| && NoneHits(rules, mode, s, i, k)
    requires CountApplicable(rules, mode, i, k) <= budget
    ensures Interpret(rules, mode, cb, met, i, s, budget).0
         == Interpret(rules, mode, cb, met, k, s, budget - CountApplicable(rules, mode, i, k)).0
    decreases k - i
  {
    hide AllFine, Interpret;
    if i < k {
      RulePassed(rules, mode, cb, met, i, s, budget);
      var applies := rules[i].mode == '\0' || rules[i].mode == mode;
      SkipRules(rules, mode, cb, met, i + 1, k, s, if applies then budget - 1 else budget);
    }
  }

  /** If the first rule that hits is an abort rule the name is denied, with the rule's message. */
  lemma FirstHitAborts(rules: seq<Rule>, mode: char, cb: Callback, met: string -> bool, i: nat, k: nat, s: string,
                       budget: nat)
    requires AllFine(rules, mode, cb, met) && met(s) && FirstHit(rules, mode, s, i, k) && rules[k].abort
    requires CountApplicable(rules, mode, i, k) < budget
    ensures var r := rules[k];
      Interpret(rules, mode, cb, met, i, s, budget).0 ==
        Aborted(k, s,
                if r.pattern == "" then NoMessage
                else if r.inverse then Undefined
                else Text(Substituted(r.pattern, s, r.rx(s).value, cb.emit)))
  {
    hide Interpret;
    SkipRules(rules, mode, cb, met, i, k, s, budget);
    AbortTaken(rules, mode, cb, met, k, s, budget - CountApplicable(rules, mode, i, k));
  }

  lemma AbortTaken(rules: seq<Rule>, mode: char, cb: Callback, met: string -> bool, k: nat, s: string, budget: nat)
    requires AllFine(rules, mode, cb, met) && met(s) && FirstHit(rules, mode, s, k, k) && rules[k].abort && budget > 0
    ensures Interpret(rules, mode, cb, met, k, s, budget).0 == Aborted(k, s, AbortMessage(rules[k], s, cb))
  {
    hide Transformed, AbortMessage;
  }

  /** What one rule that hits makes of a name: nothing without `r`; one substitution with it; with `g`, substitutions
      until it hits no more.
   */
  predicate Makes(r: Rule, cb: Callback, s: string, t: string, steps: seq<string>)
    requires WellFormed(r)
  {
    && |steps| > 0 && steps[0] == s && steps[|steps| - 1] == t
    && (forall j :: 0 <= j < |steps| - 1 ==>
          r.rx(steps[j]).Some? && steps[j + 1] == Substituted(r.pattern, steps[j], r.rx(steps[j]).value, cb.emit))
    && (!r.rewrite ==> |steps| == 1)
    && (r.rewrite && !r.global ==> |steps| == 2)
    && (r.global ==> r.rx(t).None?)
  }

  lemma {:induction false} ExhaustivelyMakes(r: Rule, s: string, cb: Callback) returns (steps: seq<string>)
    requires WellFormed(r) && r.global && EventuallyStops(r, s, cb)
    ensures Makes(r, cb, s, Exhaustively(r, s, cb), steps)
    decreases RewritesLeft(r, s, cb)
  {
    if Matches(r, s) {
      RewriteCounts(r, s, cb);
      var s' := Rewritten(r, s, cb);
      var later := ExhaustivelyMakes(r, s', cb);
      steps := [s] + later;
      assert forall j :: 0 < j < |steps| ==> steps[j] == later[j - 1];
    } else {
      steps := [s];
    }
  }

  /** Otherwise the rule makes something of the name. With an exit rule that is the result; with a restart rule the
      work goes on with it at the second rule, else at the next one.
   */
  lemma FirstHitRewrites(rules: seq<Rule>, mode: char, cb: Callback, met: string -> bool, i: nat, k: nat, s: string,
                         budget: nat) returns (t: string, steps: seq<string>)
    requires AllFine(rules, mode, cb, met) && met(s) && FirstHit(rules, mode, s, i, k) && !rules[k].abort
    requires CountApplicable(rules, mode, i, k) < budget
    ensures met(t) && Makes(rules[k], cb, s, t, steps)
    ensures rules[k].exit ==> Interpret(rules, mode, cb, met, i, s, budget).0 == Name(t)
    ensures !rules[k].exit ==>
      Interpret(rules, mode, cb, met, i, s, budget).0 ==
      Interpret(rules, mode, cb, met, if rules[k].restart then 1 else k + 1, t,
                budget - CountApplicable(rules, mode, i, k) - 1).0
  {
    hide Interpret, Transformed, Makes;
    SkipRules(rules, mode, cb, met, i, k, s, budget);
    assert rules[k].global ==> EventuallyStops(rules[k], s, cb);
    t := Transformed(rules[k], s, cb);
    TransformedMet(rules[k], s, cb, met);
    steps := TransformedMakes(rules[k], s, cb);
    HitTaken(rules, mode, cb, met, k, s, budget - CountApplicable(rules, mode, i, k));
  }

  lemma TransformedMakes(r: Rule, s: string, cb: Callback) returns (steps: seq<string>)
    requires WellFormed(r) && Matches(r, s) && (r.global ==> EventuallyStops(r, s, cb))
    ensures Makes(r, cb, s, Transformed(r, s, cb), steps)
  {
    if r.global {
      steps := ExhaustivelyMakes(r, s, cb);
    } else if r.rewrite {
      steps := [s, Transformed(r, s, cb)];
    } else {
      steps := [s];
    }
  }

  lemma HitTaken(rules: seq<Rule>, mode: char, cb: Callback, met: string -> bool, k: nat, s: string, budget: nat)
    requires AllFine(rules, mode, cb, met) && met(s) && FirstHit(rules, mode, s, k, k) && !rules[k].abort && budget > 0
    requires rules[k].global ==> EventuallyStops(rules[k], s, cb)
    requires met(Transformed(rules[k], s, cb))
    ensures var t := Transformed(rules[k], s, cb);
      Interpret(rules, mode, cb, met, k, s, budget).0 ==
        if rules[k].exit then Name(t)
        else Interpret(rules, mode, cb, met, if rules[k].restart then 1 else k + 1, t, budget - 1).0
  {
    hide AllFine, Transformed;
  }

  /** If no rule hits the name comes out as it went in; with more applicable rules than steps there is no result. */
  lemma NothingHits(rules: seq<Rule>, mode: char, cb: Callback, met: string -> bool, s: string, budget: nat)
    requires AllFine(rules, mode, cb, met) && met(s) && NoneHits(rules, mode, s, 0, |rules|)
    ensures Interpret(rules, mode, cb, met, 0, s, budget).0 ==
      if CountApplicable(rules, mode, 0, |rules|) <= budget then Name(s) else OutOfSteps
  {
    if CountApplicable(rules, mode, 0, |rules|) <= budget {
      SkipRules(rules, mode, cb, met, 0, |rules|, s, budget);
    } else {
      RunsOut(rules, mode, cb, met, 0, s, budget);
    }
  }

  lemma {:induction false} RunsOut(rules: seq<Rule>, mode: char, cb: Callback, met: string -> bool, i: nat, s: string,
                                   budget: nat)
    requires AllFine(rules, mode, cb, met) && met(s) && i <= |rules| && NoneHits(rules, mode, s, i, |rules|)
    requires CountApplicable(rules, mode, i, |rules|) > budget
    ensures Interpret(rules, mode, cb, met, i, s, budget).0 == OutOfSteps
    decreases |rules| - i
  {
    hide AllFine, Interpret;
    RulePassed(rules, mode, cb, met, i, s, budget);
    var applies := rules[i].mode == '\0' || rules[i].mode == mode;
    if !applies {
      RunsOut(rules, mode, cb, met, i + 1, s, budget);
    } else if budget > 0 {
      RunsOut(rules, mode, cb, met, i + 1, s, budget - 1);
    }
  }

  // ----- In the server

  /** A read request is denied if the first rule for reading, or for both kinds of request, that hits is an abort rule;
      for a write request the rules for writing count.
   */
  lemma NameDenied(rules: seq<Rule>, isWrite: bool, cb: Callback, met: string -> bool, k: nat, s: string)
    requires AllFine(rules, if isWrite then 'P' else 'G', cb, met) && met(s)
    requires FirstHit(rules, if isWrite then 'P' else 'G', s, 0, k) && rules[k].abort
    requires CountApplicable(rules, if isWrite then 'P' else 'G', 0, k) < 1024
    ensures MappedName(rules, isWrite, cb, met, s) == None
  {
    FirstHitAborts(rules, if isWrite then 'P' else 'G', cb, met, 0, k, s, 1024);
    hide Interpret;
  }

  /** It is served under the name that the first rule that hits makes of it, if that is an exit rule. */
  lemma NameMapped(rules: seq<Rule>, isWrite: bool, cb: Callback, met: string -> bool, k: nat, s: string)
    returns (t: string, steps: seq<string>)
    requires AllFine(rules, if isWrite then 'P' else 'G', cb, met) && met(s)
    requires FirstHit(rules, if isWrite then 'P' else 'G', s, 0, k) && !rules[k].abort && rules[k].exit
    requires CountApplicable(rules, if isWrite then 'P' else 'G', 0, k) < 1024
    ensures Makes(rules[k], cb, s, t, steps) && MappedName(rules, isWrite, cb, met, s) == Some(t)
  {
    t, steps := FirstHitRewrites(rules, if isWrite then 'P' else 'G', cb, met, 0, k, s, 1024);
    hide Interpret;
  }

  /** Rules for the other kind of request do not touch it. */
  lemma OtherRulesIgnored(rules: seq<Rule>, isWrite: bool, cb: Callback, met: string -> bool, s: string)
    requires AllFine(rules, if isWrite then 'P' else 'G', cb, met) && met(s)
    requires forall i :: 0 <= i < |rules| ==> rules[i].mode == if isWrite then 'G' else 'P'
    ensures MappedName(rules, isWrite, cb, met, s) == Some(s)
  {
    NoneCounts(rules, if isWrite then 'P' else 'G', 0);
    NothingHits(rules, if isWrite then 'P' else 'G', cb, met, s, 1024);
    hide Interpret;
  }

  lemma {:induction false} NoneCounts(rules: seq<Rule>, mode: char, i: nat)
    requires i <= |rules| && forall j :: i <= j < |rules| ==> rules[j].mode != '\0' && rules[j].mode != mode
    ensures CountApplicable(rules, mode, i, |rules|) == 0
    decreases |rules| - i
  {
    if i < |rules| {
      NoneCounts(rules, mode, i + 1);
    }
  }
}
