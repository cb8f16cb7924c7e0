/** The waiting budget of `recv_time`. */
module Timing {

  /** How one `select` ends, `dt` microseconds after the call of `recv_time` began, and what `recv` then reports. */
  datatype Wakeup = Interrupted(dt: nat) | Expired(dt: nat) | Spurious(dt: nat) | Received(dt: nat) | Failed(dt: nat)

  datatype Result = TimedOut | Packet | Failure | Waiting

  /** What is left of a budget after `dt` microseconds; it never gets down to nothing. */
  function Remaining(budget: nat, dt: nat): (left: nat)
    ensures left >= 1
    ensures left + dt >= budget && (left > 1 ==> left + dt == budget)
  {
    if dt >= budget then 1 else budget - dt
  }

  /** The wake-ups that end the call. */
  predicate Ends(w: Wakeup) {
    w.Expired? || w.Received? || w.Failed?
  }

  /** `recv_time` on a sequence of wake-ups: interrupted or spurious ones only use up time, and the caller's timeout is
      left at what the last one leaves of the whole budget.
   */
  method RecvTime(budget: nat, wakeups: seq<Wakeup>) returns (result: Result, left: nat, used: nat)
    ensures used <= |wakeups|
    ensures left == if used == 0 then budget else Remaining(budget, wakeups[used - 1].dt)
    ensures forall i :: 0 <= i < used - 1 ==> !Ends(wakeups[i])
    ensures result == Waiting <==> forall i :: 0 <= i < |wakeups| ==> !Ends(wakeups[i])
    ensures result == Waiting ==> used == |wakeups|
    ensures result == TimedOut <==> used > 0 && wakeups[used - 1].Expired?
    ensures result == Packet <==> used > 0 && wakeups[used - 1].Received?
    ensures result == Failure <==> used > 0 && wakeups[used - 1].Failed?
  {
    left, used := budget, 0;
    while used < |wakeups|
      invariant used <= |wakeups|
      invariant left == if used == 0 then budget else Remaining(budget, wakeups[used - 1].dt)
      invariant forall i :: 0 <= i < used ==> !Ends(wakeups[i])
    {
      var w := wakeups[used];
      left := Remaining(budget, w.dt);
      used := used + 1;
      match w {
        case Expired(_) => return TimedOut, left, used;
        case Received(_) => return Packet, left, used;
        case Failed(_) => return Failure, left, used;
        case _ =>
      }
    }
    result := Waiting;
  }

  function Total(dts: seq<nat>): nat {
    if dts == [] then 0 else Total(dts[..|dts| - 1]) + dts[|dts| - 1]
  }

  /** The budget after calls that took `dts`, each starting with what the one before left. */
  function BudgetAfter(start: nat, dts: seq<nat>): nat {
    if dts == [] then start else Remaining(BudgetAfter(start, dts[..|dts| - 1]), dts[|dts| - 1])
  }

  /** After any number of stray packets the budget of an attempt is what the total elapsed time leaves, but at least 1.
   */
  lemma {:induction false} BudgetAfterStrays(start: nat, dts: seq<nat>)
    requires start >= 1
    ensures BudgetAfter(start, dts) == if Total(dts) >= start then 1 else start - Total(dts)
  {
    if dts == [] {
    } else {
      BudgetAfterStrays(start, dts[..|dts| - 1]);
    }
  }
}
