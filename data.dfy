/** The data layer: `AuthRepositoryImpl`, the only repository the app wires in. */
module Data {
  import opened CoreResult
  import opened Domain

  /** The one email address the repository accepts. */
  const AcceptedEmail: string := "jlbusr@jollibee.com"

  /** The one password the repository accepts. */
  const AcceptedPassword: string := "p@ssw0rd#1234"

  /** The token every successful sign-in hands out. */
  const SessionToken: string := "token"

  /** `AuthRepositoryImpl.login`. The repository holds no state; the localized
      "invalid credentials" string that its resource provider would look up is
      the parameter `invalidCredentials`. */
  function Login(invalidCredentials: string, email: string, password: string): (r: Result<User>)
    ensures r.Success? <==> email == AcceptedEmail && password == AcceptedPassword
    ensures r.Success? ==> r.data == User(email, SessionToken)
    ensures r.Error? ==> r.exception.message == Some(invalidCredentials)
  {
    if email == AcceptedEmail && password == AcceptedPassword then
      Success(User(email, SessionToken))
    else
      Error(Exception(Some(invalidCredentials)))
  }

  /** The repository as the `AuthRepository` value the use case is built with. */
  function Repository(invalidCredentials: string): AuthRepository
  {
    (email, password) => Login(invalidCredentials, email, password)
  }

  /** The accepted email with any other password is refused, and so is the
      accepted password with any other email: both literals are needed. */
  lemma BothLiteralsRequired(invalidCredentials: string, email: string, password: string)
    ensures email == AcceptedEmail && password != AcceptedPassword ==>
      Login(invalidCredentials, email, password) == Error(Exception(Some(invalidCredentials)))
    ensures email != AcceptedEmail && password == AcceptedPassword ==>
      Login(invalidCredentials, email, password) == Error(Exception(Some(invalidCredentials)))
  {
  }

  /** Whether a pair is refused does not depend on the message, and two
      refusals of the same pair are equal exactly when their messages are. */
  lemma RefusalDependsOnlyOnMessage(m1: string, m2: string, email: string, password: string)
    requires Login(m1, email, password).Error?
    ensures Login(m2, email, password).Error?
    ensures Login(m1, email, password) == Login(m2, email, password) <==> m1 == m2
  {
  }

  /** The end-to-end check the view model calls: the use case composed with
      this repository. */
  function Authenticate(invalidCredentials: string, email: string, password: string): (r: Result<User>)
    ensures r.Success? <==> email == AcceptedEmail && password == AcceptedPassword
    ensures r.Success? ==> r.data.email == email && r.data.token == SessionToken
    ensures r.Error? ==> r.exception.message == Some(invalidCredentials)
  {
    Invoke(Repository(invalidCredentials), email, password)
  }
}
