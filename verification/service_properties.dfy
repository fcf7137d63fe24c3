/** Properties of the pipeline over single requests and over request sequences. */
module ServiceProperties {
  import opened Wrappers
  import opened Validation
  import opened RateLimiter
  import opened Accounts
  import opened Tokens
  import opened Registration
  import opened Service

  /** The request's body validates and names user `u`, so the rate limiter counts it against `u`. */
  ghost predicate KeyedBy(isEmail: string -> bool, q: Request, u: string)
  {
    Validate(isEmail, q.body).Some? && Validate(isEmail, q.body).value.userName == u
  }

  /** How many of the arriving requests in `evs` are counted against `u`. */
  ghost function KeyedCount(isEmail: string -> bool, evs: seq<Event>, u: string): nat
    decreases |evs|
  {
    if |evs| == 0 then 0
    else (if evs[0].Arrive? && KeyedBy(isEmail, evs[0].request, u) then 1 else 0) + KeyedCount(isEmail, evs[1..], u)
  }

  /**
    Independent description of a 429: the request validates, and the count its
    user had at the start of the window plus the number of earlier requests of
    that user in the window exceeds the threshold.
   */
  ghost predicate Throttled(isEmail: string -> bool, start: Counts, prior: seq<Event>, q: Request)
  {
    && Validate(isEmail, q.body).Some?
    && Used(start, Validate(isEmail, q.body).value.userName)
       + KeyedCount(isEmail, prior, Validate(isEmail, q.body).value.userName) > Threshold
  }

  /** One handled request moves the count of `v` up by one exactly when it is counted against `v` and was admitted. */
  lemma HandleUsedStep(isEmail: string -> bool, st: State, q: Request, v: string, k: nat)
    ensures Used(Handle(isEmail, st, q).state.counts, v) + k > Threshold
        <==> Used(st.counts, v) + (if KeyedBy(isEmail, q, v) then 1 else 0) + k > Threshold
  {
  }

  /**
    Within one window (no reset among the events), the i-th request is
    refused with 429 exactly when it is Throttled given the requests before it.
   */
  lemma {:induction false} WindowThrottle(isEmail: string -> bool, st: State, evs: seq<Event>)
    requires forall i :: 0 <= i < |evs| ==> evs[i].Arrive?
    ensures |Run(isEmail, st, evs).replies| == |evs|
    ensures forall i :: 0 <= i < |evs| ==>
              (Run(isEmail, st, evs).replies[i] == TooManyRequests <==> Throttled(isEmail, st.counts, evs[..i], evs[i].request))
    decreases |evs|
  {
    if |evs| > 0 {
      var q := evs[0].request;
      var h := Handle(isEmail, st, q);
      var rest := evs[1..];
      WindowThrottle(isEmail, h.state, rest);
      var t := Run(isEmail, st, evs);
      var tr := Run(isEmail, h.state, rest);
      assert t.replies == [h.reply] + tr.replies;
      forall i | 0 <= i < |evs|
        ensures t.replies[i] == TooManyRequests <==> Throttled(isEmail, st.counts, evs[..i], evs[i].request)
      {
        if i > 0 {
          assert t.replies[i] == tr.replies[i - 1];
          assert rest[i - 1] == evs[i];
          assert evs[..i][1..] == rest[..i - 1];
          var qi := evs[i].request;
          if Validate(isEmail, qi.body).Some? {
            var v := Validate(isEmail, qi.body).value.userName;
            assert KeyedCount(isEmail, evs[..i], v)
                == (if KeyedBy(isEmail, q, v) then 1 else 0) + KeyedCount(isEmail, rest[..i - 1], v);
            HandleUsedStep(isEmail, st, q, v, KeyedCount(isEmail, rest[..i - 1], v));
          }
        }
      }
    }
  }

  lemma {:induction false} KeyedCountAll(isEmail: string -> bool, evs: seq<Event>, u: string)
    requires forall i :: 0 <= i < |evs| ==> evs[i].Arrive? && KeyedBy(isEmail, evs[i].request, u)
    ensures KeyedCount(isEmail, evs, u) == |evs|
    decreases |evs|
  {
    if |evs| > 0 {
      KeyedCountAll(isEmail, evs[1..], u);
    }
  }

  /**
    A run of valid requests for one user name in a fresh window: the first
    six get past the rate limiter and every later one is refused with 429.
   */
  lemma SeventhRequestThrottled(isEmail: string -> bool, st: State, evs: seq<Event>, u: string)
    requires u !in st.counts
    requires forall i :: 0 <= i < |evs| ==> evs[i].Arrive? && KeyedBy(isEmail, evs[i].request, u)
    ensures |Run(isEmail, st, evs).replies| == |evs|
    ensures forall i :: 0 <= i < |evs| ==> (Run(isEmail, st, evs).replies[i] == TooManyRequests <==> i >= Threshold + 1)
  {
    WindowThrottle(isEmail, st, evs);
    forall i | 0 <= i < |evs|
      ensures KeyedCount(isEmail, evs[..i], u) == i
    {
      KeyedCountAll(isEmail, evs[..i], u);
    }
  }

  /** Any sequence of requests and window resets keeps the rate table bounded and the store free of duplicate names. */
  lemma {:induction false} RunPreservesInv(isEmail: string -> bool, st: State, evs: seq<Event>)
    requires Inv(st)
    ensures Inv(Run(isEmail, st, evs).final)
    ensures forall u :: Count(Run(isEmail, st, evs).final.store, u) <= 1
    decreases |evs|
  {
    if |evs| > 0 {
      match evs[0]
      case WindowElapsed => RunPreservesInv(isEmail, ResetWindow(st), evs[1..]);
      case Arrive(q) => RunPreservesInv(isEmail, Handle(isEmail, st, q).state, evs[1..]);
    } else {
      forall u
        ensures Count(st.store, u) <= 1
      {
        UniqueCountAtMostOne(st.store, u);
      }
    }
  }

  /**
    The status of every reply, by its cause: 422 for a body that fails the
    input check, 429 for a valid body whose user is over the limit, 401 for an
    admitted login whose token does not verify, and 200 for everything else.
   */
  lemma StatusByCause(isEmail: string -> bool, st: State, q: Request)
    ensures var code := Handle(isEmail, st, q).reply.Status();
            var v := Validate(isEmail, q.body);
            && (code == 422 <==> v.None?)
            && (code == 429 <==> v.Some? && Used(st.counts, v.value.userName) > Threshold)
            && (code == 401 <==>
                  v.Some? && Used(st.counts, v.value.userName) <= Threshold
                  && q.LoginRequest? && Verify(q.authorization, q.password).Failure?)
            && (code == 200 <==>
                  v.Some? && Used(st.counts, v.value.userName) <= Threshold
                  && (q.SignUpRequest? || Verify(q.authorization, q.password).Success?))
  {
  }

  /** A request whose body fails the input check gets 422 whatever the rate table holds, and consumes no slot. */
  lemma InvalidInputBeforeRateLimit(isEmail: string -> bool, st: State, q: Request, u: string)
    requires Validate(isEmail, q.body).None?
    requires q.body.Object? && q.body.userName == JStr(u)
    requires Used(st.counts, u) > Threshold
    ensures Handle(isEmail, st, q).reply.Status() == 422
    ensures Handle(isEmail, st, q).state == st
  {
  }

  /** After the window elapses, a valid request is never refused with 429, whatever came before. */
  lemma ResetReadmits(isEmail: string -> bool, st: State, q: Request)
    requires Validate(isEmail, q.body).Some?
    ensures Handle(isEmail, ResetWindow(st), q).reply != TooManyRequests
    ensures Handle(isEmail, ResetWindow(st), q).state.counts == map[Validate(isEmail, q.body).value.userName := 1]
  {
  }

  /**
    Two identical sign-ups for a new name that the limiter still admits twice:
    the first issues a token signed with the password, the second reports
    the existing account, and the store gains exactly one record.
   */
  lemma SignUpTwice(isEmail: string -> bool, st: State, b: Body)
    requires Validate(isEmail, b).Some?
    requires !Exists(st.store, Validate(isEmail, b).value.userName)
    requires Used(st.counts, Validate(isEmail, b).value.userName) < Threshold
    ensures var reg := Validate(isEmail, b).value;
            var h1 := Handle(isEmail, st, SignUpRequest(b));
            var h2 := Handle(isEmail, h1.state, SignUpRequest(b));
            && h1.reply == TokenIssued(Sign(reg.userName, reg.password))
            && h2.reply == AlreadyExists
            && h2.state.store == st.store + [Account(reg.userName, reg.password, reg.email, reg.age)]
            && Count(h2.state.store, reg.userName) == 1
  {
    var reg := Validate(isEmail, b).value;
    SignUpTwiceOneRecord(st.store, reg);
  }

  /**
    The token returned by a sign-up logs in (200) exactly when the login
    presents the registered password, provided the login request itself
    passes the input check and the rate limiter; otherwise the reply is 401.
   */
  lemma LoginWithIssuedToken(isEmail: string -> bool, st: State, b: Body, st2: State, lb: Body, pw: Option<string>)
    requires Handle(isEmail, st, SignUpRequest(b)).reply.TokenIssued?
    requires Validate(isEmail, lb).Some?
    requires Used(st2.counts, Validate(isEmail, lb).value.userName) <= Threshold
    ensures var t := Handle(isEmail, st, SignUpRequest(b)).reply.token;
            var r := Handle(isEmail, st2, LoginRequest(lb, Some(t), pw)).reply;
            && (r == LoggedIn <==> pw == Some(Validate(isEmail, b).value.password))
            && (r.Status() == 200 || r.Status() == 401)
  {
  }
}
