/** The domain layer: the authenticated user, the repository boundary and the
    login use case. */
module Domain {
  import opened CoreResult

  /** A signed-in user: the email used to sign in and an opaque session token. */
  datatype User = User(email: string, token: string)

  /** The `AuthRepository` interface: any function from (email, password) to an
      outcome. The app binds it to `Data.Login`; the tests bind it to mocks. */
  type AuthRepository = (string, string) -> Result<User>

  /** A login use case as the view model sees it: something it calls with an
      email and a password. */
  type LoginUseCase = (string, string) -> Result<User>

  /** `LoginUseCase.invoke`: hands email and password to the repository,
      untouched, and returns its outcome, untouched. */
  function Invoke(authRepository: AuthRepository, email: string, password: string): (r: Result<User>)
    ensures r.Success? <==> authRepository(email, password).Success?
    ensures r.Success? ==> r.data == authRepository(email, password).data
    ensures r.Error? ==> r.exception == authRepository(email, password).exception
  {
    authRepository(email, password)
  }

  /** `LoginUseCase(authRepository)`: the use case object, built over a
      repository, as the view model receives it. */
  function UseCase(authRepository: AuthRepository): LoginUseCase
  {
    (email, password) => Invoke(authRepository, email, password)
  }
}
