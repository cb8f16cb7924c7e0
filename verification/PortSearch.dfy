/** The search for a free local port. */
module PortSearch {

  datatype BindResult = Bound | InUse | OtherError

  /** Port number `k` of the wrap-around order that starts at `first`. */
  function Probe(lo: nat, hi: nat, first: nat, k: nat): nat
    requires lo <= first <= hi
  {
    if first + k <= hi then first + k else first + k - (hi - lo + 1)
  }

  predicate NoRepeats(s: seq<nat>) {
    forall i, j :: 0 <= i < j < |s| ==> s[i] != s[j]
  }

  /** `pick_port_bind` with a random number and what `bind` answers for each port. With a range it tries every port of
      the range before it gives up on ports in use, and none of them twice.
   */
  method PickPortBind(lo: nat, hi: nat, random: nat, bind: nat -> BindResult)
    returns (ok: bool, probes: seq<nat>)
    requires lo <= hi <= 65535
    ensures NoRepeats(probes) && 0 < |probes| <= hi - lo + 1
    ensures forall i :: 0 <= i < |probes| - 1 ==> bind(probes[i]) == InUse
    ensures ok <==> bind(probes[|probes| - 1]) == Bound
    ensures lo == 0 ==> probes == [0]
    ensures lo > 0 ==> probes[0] == lo + random % (hi - lo + 1)
    ensures lo > 0 ==> forall i :: 0 <= i < |probes| - 1 ==>
      probes[i + 1] == if probes[i] == hi then lo else probes[i] + 1
    ensures lo > 0 ==> forall i :: 0 <= i < |probes| ==> lo <= probes[i] <= hi
    ensures lo > 0 && !ok && bind(probes[|probes| - 1]) == InUse ==> forall p :: lo <= p <= hi ==> p in probes
  {
    var range := lo != 0 && hi != 0;
    var first := if range then lo + random % (hi - lo + 1) else 0;
    var port := first;
    probes := [];
    while true
      invariant range ==> lo <= first <= hi && |probes| <= hi - lo && port == Probe(lo, hi, first, |probes|)
      invariant range ==> forall i :: 0 <= i < |probes| ==> probes[i] == Probe(lo, hi, first, i)
      invariant !range ==> probes == [] && port == 0 && lo == 0
      invariant forall i :: 0 <= i < |probes| ==> bind(probes[i]) == InUse
      decreases hi - lo + 1 - |probes|
    {
      probes := probes + [port];
      if range {
        InOrder(lo, hi, first, probes);
      }
      if bind(port) == Bound {
        return true, probes;
      }
      if !(range && bind(port) == InUse) {
        return false, probes;
      }
      port := port + 1;
      if port > hi {
        port := lo;
      }
      if port == first {
        break;
      }
    }
    AllProbed(lo, hi, first, probes);
    ok := false;
  }

  /** Each port is the one after the port before it, and none comes twice in one round. */
  lemma InOrder(lo: nat, hi: nat, first: nat, probes: seq<nat>)
    requires lo <= first <= hi && 0 < |probes| <= hi - lo + 1
    requires forall i :: 0 <= i < |probes| ==> probes[i] == Probe(lo, hi, first, i)
    ensures probes[0] == first && NoRepeats(probes)
    ensures forall i :: 0 <= i < |probes| ==> lo <= probes[i] <= hi
    ensures forall i :: 0 <= i < |probes| - 1 ==> probes[i + 1] == if probes[i] == hi then lo else probes[i] + 1
  {
  }

  /** A full round of the wrap-around order covers the range. */
  lemma AllProbed(lo: nat, hi: nat, first: nat, probes: seq<nat>)
    requires lo <= first <= hi && |probes| == hi - lo + 1
    requires forall i :: 0 <= i < |probes| ==> probes[i] == Probe(lo, hi, first, i)
    ensures forall p :: lo <= p <= hi ==> p in probes
  {
    forall p | lo <= p <= hi ensures p in probes {
      var k := if p >= first then p - first else p - first + (hi - lo + 1);
      assert probes[k] == p;
    }
  }
}
