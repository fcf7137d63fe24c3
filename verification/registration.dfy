/**
  The sign-up handler: look the user name up, and either report that the
  account exists or append the new record and issue a token signed with the
  user's own password. Record creation is taken to complete within the step.
 */
module Registration {
  import opened Wrappers
  import opened Validation
  import opened Accounts
  import opened Tokens

  datatype SignUpReply = Created(token: Token) | Duplicate

  datatype SignUpOutcome = SignUpOutcome(reply: SignUpReply, store: Store)

  function SignUp(store: Store, reg: SignUpData): (r: SignUpOutcome)
    ensures Exists(store, reg.userName) ==> r.reply == Duplicate && r.store == store
    ensures !Exists(store, reg.userName) ==>
              && r.reply == Created(Sign(reg.userName, reg.password))
              && r.store == store + [Account(reg.userName, reg.password, reg.email, reg.age)]
    ensures Count(r.store, reg.userName) == Count(store, reg.userName) + (if r.reply.Created? then 1 else 0)
    ensures forall v :: v != reg.userName ==> Count(r.store, v) == Count(store, v)
    ensures Unique(store) ==> Unique(r.store)
  {
    if DoesExist(store, reg.userName) then SignUpOutcome(Duplicate, store)
    else
      var a := Account(reg.userName, reg.password, reg.email, reg.age);
      AppendFreshPreserves(store, a);
      SignUpOutcome(Created(Sign(reg.userName, reg.password)), store + [a])
  }

  lemma AppendFreshPreserves(store: Store, a: Account)
    requires !Exists(store, a.userName)
    ensures Count(store + [a], a.userName) == Count(store, a.userName) + 1
    ensures forall v :: v != a.userName ==> Count(store + [a], v) == Count(store, v)
    ensures Unique(store) ==> Unique(store + [a])
  {
    CountAppend(store, a, a.userName);
    forall v | v != a.userName
      ensures Count(store + [a], v) == Count(store, v)
    {
      CountAppend(store, a, v);
    }
    if Unique(store) {
      AppendFreshKeepsUnique(store, a);
    }
  }

  /** Signing up the same data twice in a row leaves exactly one record for a name that was new. */
  lemma SignUpTwiceOneRecord(store: Store, reg: SignUpData)
    requires !Exists(store, reg.userName)
    ensures SignUp(store, reg).reply == Created(Sign(reg.userName, reg.password))
    ensures SignUp(SignUp(store, reg).store, reg).reply == Duplicate
    ensures SignUp(SignUp(store, reg).store, reg).store == store + [Account(reg.userName, reg.password, reg.email, reg.age)]
    ensures Count(SignUp(SignUp(store, reg).store, reg).store, reg.userName) == 1
  {
    var s1 := SignUp(store, reg).store;
    assert s1[|store|].userName == reg.userName;
    CountPositiveIffExists(store, reg.userName);
  }

  /** The token issued at sign-up verifies with the password that was registered and with nothing else. */
  lemma IssuedTokenVerifiesOnlyWithPassword(store: Store, reg: SignUpData, presented: string)
    requires SignUp(store, reg).reply.Created?
    ensures Verify(Some(SignUp(store, reg).reply.token), Some(presented)).Success? <==> presented == reg.password && presented != ""
  {
  }
}
