/**
  The per-user request throttle. A table maps each user name seen in the
  current window to the number of its requests counted so far; the whole
  table is emptied when the window elapses. A request is refused when its
  user's count already exceeds the threshold, so six requests per user and
  window get through and the seventh is refused.
 */
module RateLimiter {
  /** The refusal test is `count > Threshold`. */
  const Threshold: int := 5

  type Counts = map<string, int>

  datatype Decision = Allow | Deny

  datatype Admission = Admission(decision: Decision, counts: Counts)

  function Min(a: int, b: int): int
  {
    if a <= b then a else b
  }

  /** The count recorded for `u`, zero when `u` has no entry yet. */
  function Used(c: Counts, u: string): int
  {
    if u in c then c[u] else 0
  }

  /** Every recorded count lies between 1 and Threshold + 1. */
  ghost predicate InBounds(c: Counts)
  {
    forall u :: u in c ==> 1 <= c[u] <= Threshold + 1
  }

  /** Counts one request from `u` and decides whether it may proceed. */
  function Admit(c: Counts, u: string): (r: Admission)
    ensures r.decision == Allow <==> Used(c, u) <= Threshold
    ensures r.decision == Allow ==> u in r.counts && r.counts[u] == Used(c, u) + 1
    ensures r.decision == Deny ==> r.counts == c
    ensures r.counts - {u} == c - {u}
    ensures r.counts.Keys == c.Keys + {u}
    ensures InBounds(c) ==> InBounds(r.counts)
  {
    if u in c then
      if c[u] > Threshold then Admission(Deny, c)
      else Admission(Allow, c[u := c[u] + 1])
    else Admission(Allow, c[u := 1])
  }

  /** The table as it is after the window elapses: every user's next request proceeds. */
  function Reset(): (r: Counts)
    ensures forall u :: Used(r, u) == 0
    ensures forall u :: Admit(r, u).decision == Allow
    ensures InBounds(r)
  {
    map[]
  }

  /** `n` consecutive requests from `u` in one window: the decisions in order and the final table. */
  function Burst(c: Counts, u: string, n: nat): (r: (seq<Decision>, Counts))
    decreases n
  {
    if n == 0 then ([], c)
    else
      var a := Admit(c, u);
      var rest := Burst(a.counts, u, n - 1);
      ([a.decision] + rest.0, rest.1)
  }

  /**
    Within a window the i-th of a run of requests from `u` proceeds iff the
    count already recorded plus i does not exceed the threshold; the count
    saturates at Threshold + 1 and no other user's count changes.
   */
  lemma {:induction false} BurstBoundary(c: Counts, u: string, n: nat)
    requires InBounds(c)
    ensures |Burst(c, u, n).0| == n
    ensures forall i :: 0 <= i < n ==> (Burst(c, u, n).0[i] == Allow <==> Used(c, u) + i <= Threshold)
    ensures Used(Burst(c, u, n).1, u) == Min(Used(c, u) + n, Threshold + 1)
    ensures Burst(c, u, n).1 - {u} == c - {u}
    ensures InBounds(Burst(c, u, n).1)
    decreases n
  {
    if n > 0 {
      var a := Admit(c, u);
      BurstBoundary(a.counts, u, n - 1);
      var ds := Burst(c, u, n).0;
      var rest := Burst(a.counts, u, n - 1).0;
      assert ds == [a.decision] + rest;
      forall i | 0 <= i < n
        ensures ds[i] == Allow <==> Used(c, u) + i <= Threshold
      {
        if i > 0 {
          assert ds[i] == rest[i - 1];
        }
      }
    }
  }

  /** From an empty entry, the first six requests of a window proceed and the seventh is refused. */
  lemma SixAdmittedSeventhDenied(c: Counts, u: string)
    requires u !in c
    ensures Burst(c, u, 7).0 == [Allow, Allow, Allow, Allow, Allow, Allow, Deny]
  {
  }

  /**
    After the reset every user, including one refused in the old window, gets
    a full fresh window: six requests proceed and the seventh is refused.
   */
  lemma ResetGrantsFreshWindow(u: string)
    ensures Admit(Reset(), u).counts == map[u := 1]
    ensures Burst(Reset(), u, 7).0 == [Allow, Allow, Allow, Allow, Allow, Allow, Deny]
  {
    SixAdmittedSeventhDenied(Reset(), u);
  }
}
