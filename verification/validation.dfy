/**
  The structural input check applied to every request body before anything
  else runs. A body is a JSON object whose four relevant fields each hold
  some JSON kind; the email grammar is a parameter `isEmail` because its
  definition lives in the validation library, outside this model.
 */
module Validation {
  import opened Wrappers

  /** The kind of JSON value a body field holds; `JNum` stands for any number the validator accepts. */
  datatype Json = Missing | JStr(s: string) | JNum(n: int) | JOther

  /** A parsed request body: a JSON object with the four fields of interest, or some other JSON value. */
  datatype Body =
    | Object(email: Json, userName: Json, password: Json, age: Json)
    | NotAnObject

  /** The data of a body that passed validation. */
  datatype SignUpData = SignUpData(email: string, userName: string, password: string, age: int)

  const MinPasswordLength: nat := 8

  /** The body that carries exactly the data of `reg`. */
  function Encode(reg: SignUpData): Body
  {
    Object(JStr(reg.email), JStr(reg.userName), JStr(reg.password), JNum(reg.age))
  }

  /**
    Accepts a body iff its email is a string the email grammar accepts, its
    user name is a string (the empty string included), its password is a
    string of at least eight characters and its age is a number.
   */
  function Validate(isEmail: string -> bool, b: Body): (r: Option<SignUpData>)
    ensures r.Some? <==>
              && b.Object?
              && b.email.JStr? && isEmail(b.email.s)
              && b.userName.JStr?
              && b.password.JStr? && |b.password.s| >= MinPasswordLength
              && b.age.JNum?
    ensures r.Some? ==> Encode(r.value) == b
  {
    if b.NotAnObject? then None
    else match (b.email, b.userName, b.password, b.age)
      case (JStr(e), JStr(u), JStr(p), JNum(a)) =>
        if isEmail(e) && |p| >= MinPasswordLength then Some(SignUpData(e, u, p, a)) else None
      case _ => None
  }

  /** Encoding registration data and validating it gives the data back exactly when the email and password rules hold. */
  lemma EncodeThenValidate(isEmail: string -> bool, reg: SignUpData)
    ensures Validate(isEmail, Encode(reg)).Some? <==> isEmail(reg.email) && |reg.password| >= MinPasswordLength
    ensures Validate(isEmail, Encode(reg)).Some? ==> Validate(isEmail, Encode(reg)).value == reg
  {
  }
}
