/**
  Session tokens, kept symbolic. A signed token is modelled as the claim it
  carries (the user name) together with the secret that signed it; the
  cryptography of the signing scheme is not modelled. Verification succeeds
  exactly when the presented secret is the one the token was signed with.
 */
module Tokens {
  import opened Wrappers

  datatype Token = Token(userName: string, secret: string)

  /** Why a presented token was refused. */
  datatype VerifyError = MissingToken | MissingSecret | InvalidSignature

  /**
    Signs the claim set `{userName}` with `secret`. The token carries the
    user name and verifies with exactly its signing secret, provided that
    secret is not empty.
   */
  function Sign(userName: string, secret: string): (t: Token)
    ensures forall s :: Verify(Some(t), Some(s)).Success? <==> s == secret && s != ""
    ensures forall s :: Verify(Some(t), Some(s)).Success? ==> Verify(Some(t), Some(s)).value == userName
  {
    Token(userName, secret)
  }

  /**
    Verifies a presented token (absent when the header is missing or does not
    parse as a token) against a presented secret (absent when that header is
    missing). A missing or empty secret is refused outright. On success yields
    the user name the token claims.
   */
  function Verify(token: Option<Token>, secret: Option<string>): (r: Result<string, VerifyError>)
    ensures r.Success? <==> token.Some? && secret.Some? && secret.value != "" && secret.value == token.value.secret
    ensures token.Some? && (secret.None? || secret == Some("")) ==> r == Failure(MissingSecret)
    ensures r.Success? ==> r.value == token.value.userName
    ensures token.None? ==> r == Failure(MissingToken)
  {
    match token
    case None => Failure(MissingToken)
    case Some(t) =>
      match secret
      case None => Failure(MissingSecret)
      case Some(s) =>
        if s == "" then Failure(MissingSecret)
        else if s == t.secret then Success(t.userName) else Failure(InvalidSignature)
  }

  /** A token signed with a non-empty `secret` verifies with `presented` iff the two secrets agree, and then yields the signed user name. */
  lemma SignThenVerify(userName: string, secret: string, presented: string)
    requires secret != ""
    ensures Verify(Some(Sign(userName, secret)), Some(presented)).Success? <==> presented == secret
    ensures presented == secret ==> Verify(Some(Sign(userName, secret)), Some(presented)) == Success(userName)
  {
  }
}
