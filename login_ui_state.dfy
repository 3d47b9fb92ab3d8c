/** `LoginUiState`: the immutable record the login screen renders. */
module LoginState {
  import opened CoreResult

  /** The message `validateEmail` puts under the email field. */
  const InvalidEmailFormat: string := "Invalid email format"

  datatype LoginUiState = LoginUiState(
    email: string,
    password: string,
    isLoading: bool,
    error: Option<string>,
    emailError: Option<string>,
    isLoggedIn: bool)

  /** `LoginUiState()`: the record with every field at its default. */
  function Initial(): (s: LoginUiState)
    ensures s.email == "" && s.password == ""
    ensures !s.isLoading && !s.isLoggedIn
    ensures s.error == None && s.emailError == None
  {
    LoginUiState("", "", false, None, None, false)
  }
}
