/**
  The request pipeline as one sequential state machine. Every request first
  passes the input check, then the rate limiter keyed by the body's user
  name, and only then reaches the sign-up or login handler. The state is the
  rate table together with the account store; the window reset is an
  explicit event.
 */
module Service {
  import opened Wrappers
  import opened Validation
  import opened RateLimiter
  import opened Accounts
  import opened Tokens
  import opened Registration

  /** Both routes carry a body; login additionally presents a token and a secret in its headers. */
  datatype Request =
    | SignUpRequest(body: Body)
    | LoginRequest(body: Body, authorization: Option<Token>, password: Option<string>)

  datatype Reply =
    | InvalidInput
    | TooManyRequests
    | TokenIssued(token: Token)
    | AlreadyExists
    | LoggedIn
    | Unauthorised
  {
    /** The HTTP status sent with the reply. */
    function Status(): int
    {
      match this
      case InvalidInput => 422
      case TooManyRequests => 429
      case Unauthorised => 401
      case _ => 200
    }
  }

  datatype State = State(counts: Counts, store: Store)

  datatype Outcome = Outcome(reply: Reply, state: State)

  datatype Event = Arrive(request: Request) | WindowElapsed

  datatype Trace = Trace(replies: seq<Reply>, final: State)

  /** What a reachable state satisfies: bounded counts and no duplicate accounts. */
  ghost predicate Inv(st: State)
  {
    InBounds(st.counts) && Unique(st.store)
  }

  /**
    The state a server starts in: an empty rate table over whatever records
    the persistent store already holds.
   */
  function Initial(store: Store): (st: State)
    ensures st.store == store
    ensures forall u :: Used(st.counts, u) == 0
    ensures Unique(store) ==> Inv(st)
  {
    State(map[], store)
  }

  /** Maps the token check of the login route onto its two replies. */
  function LoginReply(authorization: Option<Token>, password: Option<string>): (r: Reply)
    ensures r == LoggedIn <==> authorization.Some? && password == Some(authorization.value.secret) && authorization.value.secret != ""
    ensures r != LoggedIn ==> r == Unauthorised
  {
    match Verify(authorization, password)
    case Success(_) => LoggedIn
    case Failure(_) => Unauthorised
  }

  /** Handles one request: input check, then rate limiter, then the route. */
  function Handle(isEmail: string -> bool, st: State, q: Request): (r: Outcome)
    ensures r.reply == InvalidInput <==> Validate(isEmail, q.body).None?
    ensures r.reply == TooManyRequests <==>
              Validate(isEmail, q.body).Some? && Used(st.counts, Validate(isEmail, q.body).value.userName) > Threshold
    ensures r.reply in {InvalidInput, TooManyRequests} ==> r.state == st
    ensures Validate(isEmail, q.body).Some? ==>
              r.state.counts == Admit(st.counts, Validate(isEmail, q.body).value.userName).counts
    ensures q.LoginRequest? ==> r.state.store == st.store
    ensures r.reply.TokenIssued? ==> q.SignUpRequest? && r.state.store == st.store + [Account(Validate(isEmail, q.body).value.userName, Validate(isEmail, q.body).value.password,
                                                   Validate(isEmail, q.body).value.email, Validate(isEmail, q.body).value.age)]
    ensures !r.reply.TokenIssued? ==> r.state.store == st.store
    ensures Validate(isEmail, q.body).Some? && Used(st.counts, Validate(isEmail, q.body).value.userName) <= Threshold ==>
              var reg := Validate(isEmail, q.body).value;
              q.SignUpRequest? ==>
                r.reply == (if Exists(st.store, reg.userName) then AlreadyExists else TokenIssued(Sign(reg.userName, reg.password)))
    ensures Validate(isEmail, q.body).Some? && Used(st.counts, Validate(isEmail, q.body).value.userName) <= Threshold ==>
              q.LoginRequest? ==>
                && (r.reply == LoggedIn <==>
                      q.authorization.Some? && q.password == Some(q.authorization.value.secret) && q.authorization.value.secret != "")
                && (r.reply != LoggedIn ==> r.reply == Unauthorised)
    ensures Inv(st) ==> Inv(r.state)
  {
    match Validate(isEmail, q.body)
    case None => Outcome(InvalidInput, st)
    case Some(reg) =>
      var a := Admit(st.counts, reg.userName);
      if a.decision == Deny then Outcome(TooManyRequests, st)
      else
        match q
        case SignUpRequest(_) =>
          var s := SignUp(st.store, reg);
          var reply := match s.reply
            case Created(t) => TokenIssued(t)
            case Duplicate => AlreadyExists;
          Outcome(reply, State(a.counts, s.store))
        case LoginRequest(_, tok, pw) =>
          Outcome(LoginReply(tok, pw), State(a.counts, st.store))
  }

  /** The window elapses: the rate table is emptied and the store is untouched. */
  function ResetWindow(st: State): (r: State)
    ensures r.store == st.store
    ensures forall u :: Used(r.counts, u) == 0
    ensures forall u :: Admit(r.counts, u).decision == Allow
    ensures Inv(st) ==> Inv(r)
  {
    State(Reset(), st.store)
  }

  /** The number of arriving requests among the events. */
  function Arrivals(evs: seq<Event>): nat
    decreases |evs|
  {
    if |evs| == 0 then 0 else (if evs[0].Arrive? then 1 else 0) + Arrivals(evs[1..])
  }

  /**
    Processes events in order; each arriving request contributes one reply,
    and records are only ever appended, never changed or removed.
   */
  function Run(isEmail: string -> bool, st: State, evs: seq<Event>): (r: Trace)
    ensures |r.replies| == Arrivals(evs)
    ensures st.store <= r.final.store
    ensures |r.final.store| - |st.store| <= |r.replies|
    decreases |evs|
  {
    if |evs| == 0 then Trace([], st)
    else match evs[0]
      case WindowElapsed => Run(isEmail, ResetWindow(st), evs[1..])
      case Arrive(q) =>
        var h := Handle(isEmail, st, q);
        var t := Run(isEmail, h.state, evs[1..]);
        Trace([h.reply] + t.replies, t.final)
  }
}
