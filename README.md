# Login flow of the JollibeeExam client

A Dafny model of the sign-in path of a small Android app. The app has a login
screen backed by a view model. The view model validates the email format and
calls a login use case. The use case passes the call to a repository, which
accepts one fixed email and password pair.

- `CoreResult` (core_result.dfy): `Result<T>` (`Success(data)` or
  `Error(exception)`), an exception with a nullable message, and `Option` for
  Kotlin's nullable values. The app's `core.utils.Result` source is not part
  of this model; its shape follows how the repository builds it and how the
  tests take it apart.
- `Domain` (domain.dfy): the `User` record. The `AuthRepository` interface and
  the `LoginUseCase` the view model calls are function types. `Invoke` is the
  login use case, and `UseCase` builds one over a repository.
- `Data` (data.dfy): `AuthRepositoryImpl.login` as the pure function `Login`.
  `Authenticate` composes the use case with this repository.
- `LoginState` (login_ui_state.dfy): the `LoginUiState` record and its
  defaults.
- `LoginFlow` (login_view_model.dfy): one pure function per view-model event,
  giving the new state and, where the source returns one, a value. An `Event`
  sequence with `Run` describes whole sessions, and the lemmas about sessions
  are stated over `Run`. The class `LoginViewModel` holds the state as a
  mutable field and updates it in place. Each of its methods is proved equal
  to the matching function. A ghost `history` field records the calls the
  object has received, and `Valid()` states that the current state is
  `Run` of that history.

`login()` launches a coroutine. It is modelled as two steps:
- `LoginStart` validates the email, raises the loading flag and returns the
  credentials to authenticate.
- `LoginComplete` applies the use case's outcome to the state as it is when
  the outcome arrives.
`Login` runs both steps in a row with the view model's own use case.

The email validator wraps a platform pattern that is not part of this model.
It is a `string -> bool` value given to the view model. The localized
"invalid credentials" message comes from a resource lookup. It is the
parameter `invalidCredentials`.

## Model

| member | source | states |
|---|---|---|
| `Domain.Invoke` | domain/src/main/java/com/plearn/domain/usecase/LoginUseCase.kt:8-10 | the use case returns the repository's outcome for the same email and password: a success with the same user, an error with the same exception |
| `Data.Login` | data/src/main/java/com/plearn/data/repository/AuthRepositoryImpl.kt:10-16 | success exactly when the email and password both equal the two literals; the user carries the input email and the token "token"; a failure carries the invalid-credentials message |
| `Data.BothLiteralsRequired` | data/src/main/java/com/plearn/data/repository/AuthRepositoryImpl.kt:11 | the accepted email with any other password fails, and the accepted password with any other email fails |
| `Data.RefusalDependsOnlyOnMessage` | data/src/main/java/com/plearn/data/repository/AuthRepositoryImpl.kt:9-16 | a refused pair is refused whatever the message, and two refusals differ only when their messages differ |
| `Data.Authenticate` | domain/src/main/java/com/plearn/domain/usecase/LoginUseCase.kt:9 | the use case wired to this repository succeeds exactly on the accepted pair, returns the input email with the session token, and otherwise fails with the invalid-credentials message |
| `LoginState.Initial` | feature/src/main/java/com/plearn/feature/ui/login/LoginUiState.kt:3-10 | the default state has empty email and password, is neither loading nor logged in, and has no general error and no email error |
| `LoginFlow.EmailChanged` | feature/src/main/java/com/plearn/feature/ui/login/LoginViewModel.kt:20-22 | the email is replaced, both error messages are cleared, and password, loading and logged-in are kept |
| `LoginFlow.PasswordChanged` | feature/src/main/java/com/plearn/feature/ui/login/LoginViewModel.kt:24-26 | the password is replaced, the general error is cleared, and email, email error, loading and logged-in are kept |
| `LoginFlow.EmailValidation` | feature/src/main/java/com/plearn/feature/ui/login/LoginViewModel.kt:28-37 | the verdict is false exactly when the email is non-empty and the validator rejects it; the email error becomes the format message on a refusal and is cleared otherwise; no other field changes |
| `LoginFlow.LoginStarted` | feature/src/main/java/com/plearn/feature/ui/login/LoginViewModel.kt:39-43 | a request is made exactly when the email passes validation, and it carries the current email and password; on a request loading is raised; on a refusal only the email error changes, so loading and logged-in are kept |
| `LoginFlow.LoginCompleted` | feature/src/main/java/com/plearn/feature/ui/login/LoginViewModel.kt:44-51 | loading ends down; logged-in becomes true on a success and is kept otherwise; on an error the general error becomes the exception's message; email, password and email error are kept |
| `LoginFlow.ValidationIdempotent` | feature/src/main/java/com/plearn/feature/ui/login/LoginViewModel.kt:28-37 | validating a second time gives the same verdict and the same state |
| `LoginFlow.EmptyEmailSkipsValidator` | feature/src/main/java/com/plearn/feature/ui/login/LoginViewModel.kt:30 | on an empty email every validator gives the same accepting verdict and the email error is cleared, so the validator's answer is never used |
| `LoginFlow.LoggedInNeverReset` | feature/src/main/java/com/plearn/feature/ui/login/LoginViewModel.kt:20-51 | once logged in, no sequence of events logs the user out |
| `LoginFlow.LoggedInIffSucceeded` | feature/src/main/java/com/plearn/feature/ui/login/LoginViewModel.kt:44-50 | from the default state, the user is logged in exactly when some authentication outcome was a success |
| `LoginFlow.LoadingIffOutstanding` | feature/src/main/java/com/plearn/feature/ui/login/LoginViewModel.kt:39-50 | from the default state, loading is up exactly when some submission passed validation, so requested authentication, and no outcome has arrived after it |
| `LoginFlow.EmailErrorIsFormatMessage` | feature/src/main/java/com/plearn/feature/ui/login/LoginViewModel.kt:20-37 | from the default state, the email error is only ever absent or "Invalid email format" |
| `LoginFlow.SubmitThenAuthenticate` | feature/src/main/java/com/plearn/feature/ui/login/LoginViewModel.kt:39-50 | a submission that passes validation, answered by the app's repository, logs the user in exactly on the accepted pair and otherwise shows the repository's message; loading ends down either way |
| `LoginFlow.SignedInOnlyAfterSuccess` | feature/src/main/java/com/plearn/feature/ui/login/LoginViewModel.kt:44-50 | a view model is logged in exactly when one of the outcomes it has received was a success |
| `LoginFlow.SignIn` | feature/src/main/java/com/plearn/feature/di/FeatureModule.kt:9-13 | a view model wired to the use case over the app's repository, given an email and a password and asked to log in, calls the repository exactly when the email passes validation, with those credentials; it then logs in exactly on the accepted pair and otherwise shows the repository's message; on a refused email it makes no call, shows the format message and stays logged out; loading ends down in every case |
| `LoginFlow.LoginViewModel.constructor` | feature/src/main/java/com/plearn/feature/ui/login/LoginViewModel.kt:12-18 | a new view model starts in the default state with an empty history and keeps the use case and validator it is given |
| `LoginFlow.LoginViewModel.OnEmailChange` | feature/src/main/java/com/plearn/feature/ui/login/LoginViewModel.kt:20-22 | the state in place becomes `EmailChanged` of the old state |
| `LoginFlow.LoginViewModel.OnPasswordChange` | feature/src/main/java/com/plearn/feature/ui/login/LoginViewModel.kt:24-26 | the state in place becomes `PasswordChanged` of the old state |
| `LoginFlow.LoginViewModel.ValidateEmail` | feature/src/main/java/com/plearn/feature/ui/login/LoginViewModel.kt:28-37 | the verdict returned and the state in place are `EmailValidation` of the old state |
| `LoginFlow.LoginViewModel.LoginStart` | feature/src/main/java/com/plearn/feature/ui/login/LoginViewModel.kt:39-42 | the request returned and the state in place are `LoginStarted` of the old state, reached through `ValidateEmail` as in the source |
| `LoginFlow.LoginViewModel.LoginComplete` | feature/src/main/java/com/plearn/feature/ui/login/LoginViewModel.kt:44-51 | the state in place becomes `LoginCompleted` of the old state and the outcome |
| `LoginFlow.LoginViewModel.Login` | feature/src/main/java/com/plearn/feature/ui/login/LoginViewModel.kt:39-54 | the use case is called exactly when validation passes, once, with the current email and password, and its outcome is applied to the started state; on a refusal nothing but the email error changes |

## Left out

- The coroutine (`viewModelScope.launch`), suspension and `StateFlow` observation. There is no scheduling and no concurrency. The launched block reads the email and password when it runs. The model reads them when the request starts, so edits made between the launch and the block's execution are not modelled.
- No double-submit guard is modelled, because the view model has none. The login button is disabled while loading, but that is in the Compose screen, which is not part of this model.
- `EmailValidator` wraps `android.util.Patterns.EMAIL_ADDRESS`. That pattern is not visible, so the validator is an arbitrary `string -> bool`.
- `ResourceProvider.getString` is an Android resource lookup. The message it returns is the parameter `invalidCredentials`.
- Domain.Invoke: "exactly one repository call and no other interactions", as the use-case tests verify with mocks, is not stated. A pure function has no observable calls. The model's only use of the repository is the single application in its body.
- Compose UI (`LoginScreen`, `HomeScreen`), the application class and the activity are rendering and wiring only. The Koin modules are not modelled as such; `SignIn` builds the same chain of objects by hand.
