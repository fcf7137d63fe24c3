/**
  The rate table as the server actually stores it: a plain JavaScript object
  literal. Two user names behave unlike ordinary keys there:
  - "__proto__": assigning a number to it goes to the prototype setter,
    which ignores non-object values, so the name never gains an own entry
    and is never throttled;
  - "hasOwnProperty": once stored as an own entry it shadows the method
    the limiter calls on the table, so every later lookup in the window
    throws, and the server's catch-all answers 400.
  The rest of the model uses the plain map of RateLimiter, which is what the
  table is evidently meant to be.
 */
module JsCounterTable {
  import opened RateLimiter

  const ProtoKey: string := "__proto__"
  const OwnCheckKey: string := "hasOwnProperty"

  datatype JsOutcome = Passed | Rejected | Threw

  datatype JsAdmission = JsAdmission(outcome: JsOutcome, table: Counts)

  /** One call of the limiter against the object-literal table, as written. */
  function JsAdmit(t: Counts, u: string): (r: JsAdmission)
    ensures OwnCheckKey in t ==> r.outcome == Threw && r.table == t
    ensures OwnCheckKey !in t && u == ProtoKey && ProtoKey !in t ==> r.outcome == Passed && r.table == t
    ensures OwnCheckKey !in t && u != ProtoKey ==>
              && (r.outcome == Passed <==> Admit(t, u).decision == Allow)
              && r.outcome != Threw
              && r.table == Admit(t, u).counts
  {
    if OwnCheckKey in t then JsAdmission(Threw, t)
    else if u in t then
      if t[u] > Threshold then JsAdmission(Rejected, t)
      else JsAdmission(Passed, t[u := t[u] + 1])
    else if u == ProtoKey then JsAdmission(Passed, t)
    else JsAdmission(Passed, t[u := 1])
  }

  function JsBurst(t: Counts, u: string, n: nat): (r: (seq<JsOutcome>, Counts))
    decreases n
  {
    if n == 0 then ([], t)
    else
      var a := JsAdmit(t, u);
      var rest := JsBurst(a.table, u, n - 1);
      ([a.outcome] + rest.0, rest.1)
  }

  /** As written, every request from "__proto__" passes, however many arrive in a window. */
  lemma {:induction false} ProtoKeyNeverThrottled(t: Counts, n: nat)
    requires OwnCheckKey !in t && ProtoKey !in t
    ensures |JsBurst(t, ProtoKey, n).0| == n
    ensures forall i :: 0 <= i < n ==> JsBurst(t, ProtoKey, n).0[i] == Passed
    ensures JsBurst(t, ProtoKey, n).1 == t
    decreases n
  {
    if n > 0 {
      ProtoKeyNeverThrottled(t, n - 1);
      var ds := JsBurst(t, ProtoKey, n).0;
      assert ds == [Passed] + JsBurst(t, ProtoKey, n - 1).0;
      assert forall i :: 1 <= i < n ==> ds[i] == JsBurst(t, ProtoKey, n - 1).0[i - 1];
    }
  }

  /** Seven requests from "__proto__" in a fresh window: all pass as written; with a plain map the seventh is refused. */
  lemma ProtoKeyCounterexample()
    ensures JsBurst(map[], ProtoKey, 7).0[6] == Passed
    ensures Burst(map[], ProtoKey, 7).0[6] == Deny
  {
    ProtoKeyNeverThrottled(map[], 7);
    SixAdmittedSeventhDenied(map[], ProtoKey);
  }

  /** As written, after one request from "hasOwnProperty" every user's next request in the window throws; with a plain map it proceeds. */
  lemma OwnCheckKeyBreaksLimiter(v: string)
    ensures JsAdmit(map[], OwnCheckKey).outcome == Passed
    ensures JsAdmit(JsAdmit(map[], OwnCheckKey).table, v).outcome == Threw
    ensures Admit(Admit(map[], OwnCheckKey).counts, v).decision == Allow
  {
  }
}
