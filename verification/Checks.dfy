/** Checks in the order of their error codes: the first that fails decides. */
module Checks {

  /** Check `k` fails, and none before it does. */
  predicate FirstFailing(checks: seq<bool>, k: nat) {
    k < |checks| && !checks[k] && forall j :: 0 <= j < k ==> checks[j]
  }

  predicate AllPass(checks: seq<bool>) {
    forall j :: 0 <= j < |checks| ==> checks[j]
  }

  lemma FailingIn(a: seq<bool>, b: seq<bool>, k: nat)
    ensures FirstFailing(a + b, k) <==>
            if k < |a| then FirstFailing(a, k) else AllPass(a) && FirstFailing(b, k - |a|)
    ensures AllPass(a + b) <==> AllPass(a) && AllPass(b)
  {
    assert forall j :: 0 <= j < |a| ==> (a + b)[j] == a[j];
    assert forall j :: 0 <= j < |b| ==> (a + b)[|a| + j] == b[j];
    assert AllPass(a + b) ==> AllPass(b) by {
      if AllPass(a + b) {
        assert forall j :: 0 <= j < |b| ==> b[j] == (a + b)[|a| + j];
      }
    }
  }

  lemma PassingDoesNotFail(checks: seq<bool>, k: nat)
    requires AllPass(checks)
    ensures !FirstFailing(checks, k)
  {
  }
}
