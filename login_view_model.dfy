/** `LoginViewModel`: the state machine behind the login screen.

    Each input event replaces the current `LoginUiState` with a modified copy.
    The pure functions below say what each event does to a state; the class
    `LoginViewModel` performs the same updates in place and is proved against
    them. `login()` launches a coroutine in the app; here it is split into
    `LoginStart` (validate, raise the loading flag, hand back the credentials
    to authenticate) and `LoginComplete` (apply the outcome to whatever the
    state is by then), and `Login` runs the two back to back. */
module LoginFlow {
  import opened CoreResult
  import opened Domain
  import opened LoginState
  import Data

  /** The email and password `login()` hands to the use case. */
  datatype Credentials = Credentials(email: string, password: string)

  /** `onEmailChange`: the new email replaces the old one and both error
      messages are cleared; nothing else changes. */
  function EmailChanged(s: LoginUiState, email: string): (r: LoginUiState)
    ensures r.email == email && r.emailError == None && r.error == None
    ensures r.password == s.password && r.isLoading == s.isLoading && r.isLoggedIn == s.isLoggedIn
  {
    s.(email := email, emailError := None, error := None)
  }

  /** `onPasswordChange`: the new password replaces the old one and the
      general error is cleared; nothing else changes. */
  function PasswordChanged(s: LoginUiState, password: string): (r: LoginUiState)
    ensures r.password == password && r.error == None
    ensures r.email == s.email && r.emailError == s.emailError
    ensures r.isLoading == s.isLoading && r.isLoggedIn == s.isLoggedIn
  {
    s.(password := password, error := None)
  }

  /** `validateEmail`: the verdict and the state it leaves behind. The
      validator is consulted only for a non-empty email. */
  function EmailValidation(isValidEmail: string -> bool, s: LoginUiState): (r: (bool, LoginUiState))
    ensures !r.0 <==> s.email != "" && !isValidEmail(s.email)
    ensures r.1 == s.(emailError := if r.0 then None else Some(InvalidEmailFormat))
  {
    var email := s.email;
    if |email| > 0 && !isValidEmail(email) then
      (false, s.(emailError := Some(InvalidEmailFormat)))
    else
      (true, s.(emailError := None))
  }

  /** The first half of `login()`: validate; on a refusal stop there, with no
      request; otherwise raise the loading flag and request authentication of
      the current email and password. */
  function LoginStarted(isValidEmail: string -> bool, s: LoginUiState): (r: (Option<Credentials>, LoginUiState))
    ensures r.0.Some? <==> s.email == "" || isValidEmail(s.email)
    ensures r.0.Some? ==> r.0.value == Credentials(s.email, s.password)
    ensures r.0.Some? ==> r.1 == s.(emailError := None, isLoading := true)
    ensures r.0.None? ==> r.1 == s.(emailError := Some(InvalidEmailFormat))
  {
    var (valid, validated) := EmailValidation(isValidEmail, s);
    if valid then
      (Some(Credentials(validated.email, validated.password)), validated.(isLoading := true))
    else
      (None, validated)
  }

  /** The second half of `login()`: the outcome lowers the loading flag; a
      success signs the user in, an error shows the exception's message. */
  function LoginCompleted(s: LoginUiState, result: Result<User>): (r: LoginUiState)
    ensures !r.isLoading
    ensures r.isLoggedIn <==> s.isLoggedIn || result.Success?
    ensures r.error == if result.Success? then s.error else result.exception.message
    ensures r.email == s.email && r.password == s.password && r.emailError == s.emailError
  {
    match result
    case Success(_) => s.(isLoading := false, isLoggedIn := true)
    case Error(exception) => s.(isLoading := false, error := exception.message)
  }

  /** The calls the view model receives, in the order it receives them. */
  datatype Event =
    | EmailInput(email: string)
    | PasswordInput(password: string)
    | Validate
    | Submit
    | Outcome(result: Result<User>)

  /** The state after one event. */
  function Step(isValidEmail: string -> bool, s: LoginUiState, e: Event): LoginUiState
  {
    match e
    case EmailInput(email) => EmailChanged(s, email)
    case PasswordInput(password) => PasswordChanged(s, password)
    case Validate => EmailValidation(isValidEmail, s).1
    case Submit => LoginStarted(isValidEmail, s).1
    case Outcome(result) => LoginCompleted(s, result)
  }

  /** The state after a sequence of events, the last one applied last. */
  function Run(isValidEmail: string -> bool, s: LoginUiState, events: seq<Event>): LoginUiState
    decreases |events|
  {
    if events == [] then s
    else Step(isValidEmail, Run(isValidEmail, s, events[..|events| - 1]), events[|events| - 1])
  }

  lemma RunAppend(isValidEmail: string -> bool, s: LoginUiState, events: seq<Event>, e: Event)
    ensures Run(isValidEmail, s, events + [e]) == Step(isValidEmail, Run(isValidEmail, s, events), e)
  {
    assert (events + [e])[..|events|] == events;
  }

  /** Some authentication in `events` came back a success. */
  predicate Succeeded(events: seq<Event>)
  {
    exists i :: 0 <= i < |events| && events[i].Outcome? && events[i].result.Success?
  }

  /** The submission at index `i` passed validation, so it requested
      authentication, and no outcome has arrived after it. */
  predicate RequestOutstandingAt(isValidEmail: string -> bool, events: seq<Event>, i: nat)
    requires i < |events|
  {
    events[i].Submit? &&
    LoginStarted(isValidEmail, Run(isValidEmail, Initial(), events[..i])).0.Some? &&
    forall j :: i < j < |events| ==> !events[j].Outcome?
  }

  /** Some authentication request in `events` still awaits its outcome. */
  predicate Outstanding(isValidEmail: string -> bool, events: seq<Event>)
  {
    exists i: nat :: i < |events| && RequestOutstandingAt(isValidEmail, events, i)
  }

  /** `validateEmail` twice in a row gives the same verdict and the same state
      as once. */
  lemma ValidationIdempotent(isValidEmail: string -> bool, s: LoginUiState)
    ensures EmailValidation(isValidEmail, EmailValidation(isValidEmail, s).1) == EmailValidation(isValidEmail, s)
  {
  }

  /** On an empty email the validator is never consulted: every validator
      gives the same, accepting, verdict and state. */
  lemma EmptyEmailSkipsValidator(v1: string -> bool, v2: string -> bool, s: LoginUiState)
    requires s.email == ""
    ensures EmailValidation(v1, s) == EmailValidation(v2, s)
    ensures EmailValidation(v1, s) == (true, s.(emailError := None))
  {
  }

  /** No event ever signs the user out. */
  lemma {:induction false} LoggedInNeverReset(isValidEmail: string -> bool, s: LoginUiState, events: seq<Event>)
    requires s.isLoggedIn
    ensures Run(isValidEmail, s, events).isLoggedIn
  {
    if events != [] {
      LoggedInNeverReset(isValidEmail, s, events[..|events| - 1]);
    }
  }

  /** From the initial state, the user is signed in exactly when some
      authentication outcome was a success. */
  lemma {:induction false} LoggedInIffSucceeded(isValidEmail: string -> bool, events: seq<Event>)
    ensures Run(isValidEmail, Initial(), events).isLoggedIn <==> Succeeded(events)
  {
    if events != [] {
      var n := |events| - 1;
      var prefix := events[..n];
      LoggedInIffSucceeded(isValidEmail, prefix);
      if Succeeded(prefix) {
        var i :| 0 <= i < |prefix| && prefix[i].Outcome? && prefix[i].result.Success?;
        assert events[i] == prefix[i];
      }
      if Succeeded(events) && !(events[n].Outcome? && events[n].result.Success?) {
        var i :| 0 <= i < |events| && events[i].Outcome? && events[i].result.Success?;
        assert prefix[i] == events[i];
      }
    }
  }

  /** What one event does to the loading flag. */
  lemma StepLoading(isValidEmail: string -> bool, s: LoginUiState, e: Event)
    ensures Step(isValidEmail, s, e).isLoading ==
      if e.Outcome? then false
      else if e.Submit? && LoginStarted(isValidEmail, s).0.Some? then true
      else s.isLoading
  {
  }

  /** A request outstanding before a non-outcome event is still outstanding
      after it, and the requests outstanding after an event other than an
      accepted submission were outstanding before it. */
  lemma OutstandingAppend(isValidEmail: string -> bool, prefix: seq<Event>, e: Event)
    ensures !e.Outcome? && Outstanding(isValidEmail, prefix) ==> Outstanding(isValidEmail, prefix + [e])
    ensures e.Outcome? ==> !Outstanding(isValidEmail, prefix + [e])
    ensures e.Submit? && LoginStarted(isValidEmail, Run(isValidEmail, Initial(), prefix)).0.Some? ==>
      Outstanding(isValidEmail, prefix + [e])
    ensures (Outstanding(isValidEmail, prefix + [e]) &&
             !(e.Submit? && LoginStarted(isValidEmail, Run(isValidEmail, Initial(), prefix)).0.Some?)) ==>
      Outstanding(isValidEmail, prefix)
  {
    var events := prefix + [e];
    var n := |prefix|;
    assert events[..n] == prefix;
    if !e.Outcome? && Outstanding(isValidEmail, prefix) {
      var i: nat :| i < n && RequestOutstandingAt(isValidEmail, prefix, i);
      assert events[..i] == prefix[..i];
      assert RequestOutstandingAt(isValidEmail, events, i);
    }
    if e.Outcome? {
      forall i: nat | i < |events| ensures !RequestOutstandingAt(isValidEmail, events, i) {
        if i < n { assert events[n].Outcome?; }
      }
    }
    if e.Submit? && LoginStarted(isValidEmail, Run(isValidEmail, Initial(), prefix)).0.Some? {
      assert RequestOutstandingAt(isValidEmail, events, n);
    }
    if Outstanding(isValidEmail, events) &&
      !(e.Submit? && LoginStarted(isValidEmail, Run(isValidEmail, Initial(), prefix)).0.Some?) {
      var i: nat :| i < |events| && RequestOutstandingAt(isValidEmail, events, i);
      assert i < n;
      assert events[..i] == prefix[..i];
      assert RequestOutstandingAt(isValidEmail, prefix, i);
    }
  }

  /** From the initial state, the loading flag is up exactly while an
      authentication request awaits its outcome. */
  lemma {:induction false} LoadingIffOutstanding(isValidEmail: string -> bool, events: seq<Event>)
    ensures Run(isValidEmail, Initial(), events).isLoading <==> Outstanding(isValidEmail, events)
  {
    if events != [] {
      var n := |events| - 1;
      var prefix, e := events[..n], events[n];
      assert events == prefix + [e];
      LoadingIffOutstanding(isValidEmail, prefix);
      RunAppend(isValidEmail, Initial(), prefix, e);
      StepLoading(isValidEmail, Run(isValidEmail, Initial(), prefix), e);
      OutstandingAppend(isValidEmail, prefix, e);
    }
  }

  /** The email error is only ever absent or the format message. */
  lemma {:induction false} EmailErrorIsFormatMessage(isValidEmail: string -> bool, events: seq<Event>)
    ensures var r := Run(isValidEmail, Initial(), events);
      r.emailError == None || r.emailError == Some(InvalidEmailFormat)
  {
    if events != [] {
      EmailErrorIsFormatMessage(isValidEmail, events[..|events| - 1]);
    }
  }

  /** A submission followed by the app's own authentication: it signs the user
      in exactly on the accepted pair, and otherwise shows the repository's
      message; either way the loading flag ends down. */
  lemma SubmitThenAuthenticate(isValidEmail: string -> bool, invalidCredentials: string, s: LoginUiState)
    requires s.email == "" || isValidEmail(s.email)
    ensures var (request, started) := LoginStarted(isValidEmail, s);
      request.Some? &&
      var accepted := s.email == Data.AcceptedEmail && s.password == Data.AcceptedPassword;
      var r := LoginCompleted(started, Data.Authenticate(invalidCredentials, request.value.email, request.value.password));
      !r.isLoading &&
      (r.isLoggedIn <==> s.isLoggedIn || accepted) &&
      r.error == (if accepted then s.error else Some(invalidCredentials))
  {
  }

  /** A view model whose state matches the calls it received has signed the
      user in exactly when one of its authentications succeeded. */
  lemma SignedInOnlyAfterSuccess(vm: LoginViewModel)
    requires vm.Valid()
    ensures vm.uiState.isLoggedIn <==> Succeeded(vm.history)
  {
    LoggedInIffSucceeded(vm.emailValidator, vm.history);
  }

  /** The view model: the current `LoginUiState`, the use case it calls and
      the email validator it consults. `history` records the calls received
      so far; `Valid` ties the state to them. */
  class LoginViewModel {
    const loginUseCase: LoginUseCase
    const emailValidator: string -> bool
    var uiState: LoginUiState
    ghost var history: seq<Event>

    ghost predicate Valid()
      reads this
    {
      uiState == Run(emailValidator, Initial(), history)
    }

    constructor (loginUseCase: LoginUseCase, emailValidator: string -> bool)
      ensures Valid() && history == []
      ensures uiState == Initial()
      ensures this.loginUseCase == loginUseCase && this.emailValidator == emailValidator
    {
      this.loginUseCase := loginUseCase;
      this.emailValidator := emailValidator;
      uiState := Initial();
      history := [];
    }

    method OnEmailChange(email: string)
      requires Valid()
      modifies this
      ensures Valid() && history == old(history) + [EmailInput(email)]
      ensures uiState == EmailChanged(old(uiState), email)
    {
      uiState := uiState.(email := email, emailError := None, error := None);
      RunAppend(emailValidator, Initial(), history, EmailInput(email));
      history := history + [EmailInput(email)];
    }

    method OnPasswordChange(password: string)
      requires Valid()
      modifies this
      ensures Valid() && history == old(history) + [PasswordInput(password)]
      ensures uiState == PasswordChanged(old(uiState), password)
    {
      uiState := uiState.(password := password, error := None);
      RunAppend(emailValidator, Initial(), history, PasswordInput(password));
      history := history + [PasswordInput(password)];
    }

    method ValidateEmail() returns (valid: bool)
      requires Valid()
      modifies this
      ensures Valid() && history == old(history) + [Validate]
      ensures (valid, uiState) == EmailValidation(emailValidator, old(uiState))
    {
      var email := uiState.email;
      if |email| > 0 && !emailValidator(email) {
        uiState := uiState.(emailError := Some(InvalidEmailFormat));
        valid := false;
      } else {
        uiState := uiState.(emailError := None);
        valid := true;
      }
      RunAppend(emailValidator, Initial(), history, Validate);
      history := history + [Validate];
    }

    /** `login()` up to the launch of its coroutine. */
    method LoginStart() returns (request: Option<Credentials>)
      requires Valid()
      modifies this
      ensures Valid() && history == old(history) + [Submit]
      ensures (request, uiState) == LoginStarted(emailValidator, old(uiState))
    {
      ghost var before := history;
      var valid := ValidateEmail();
      if valid {
        uiState := uiState.(isLoading := true);
        request := Some(Credentials(uiState.email, uiState.password));
      } else {
        request := None;
      }
      RunAppend(emailValidator, Initial(), before, Submit);
      history := before + [Submit];
    }

    /** The body of `login()`'s coroutine once the use case has answered. */
    method LoginComplete(result: Result<User>)
      requires Valid()
      modifies this
      ensures Valid() && history == old(history) + [Outcome(result)]
      ensures uiState == LoginCompleted(old(uiState), result)
    {
      match result {
        case Success(_) =>
          uiState := uiState.(isLoading := false, isLoggedIn := true);
        case Error(exception) =>
          uiState := uiState.(isLoading := false, error := exception.message);
      }
      RunAppend(emailValidator, Initial(), history, Outcome(result));
      history := history + [Outcome(result)];
    }

    /** `login()` with its coroutine run to completion straight away: the use
      case is called once, with the current email and password, exactly when
      the email passes validation. */
    method Login() returns (request: Option<Credentials>)
      requires Valid()
      modifies this
      ensures Valid()
      ensures request == LoginStarted(emailValidator, old(uiState)).0
      ensures request.None? ==>
        history == old(history) + [Submit] && uiState == LoginStarted(emailValidator, old(uiState)).1
      ensures request.Some? ==>
        var result := loginUseCase(request.value.email, request.value.password);
        history == old(history) + [Submit, Outcome(result)] &&
        uiState == LoginCompleted(LoginStarted(emailValidator, old(uiState)).1, result)
    {
      request := LoginStart();
      if request.Some? {
        var result := loginUseCase(uiState.email, uiState.password);
        LoginComplete(result);
      }
    }
  }

  /** The app as wired: a view model over the use case over the repository.
      Typing an email and a password and pressing the login button calls the
      repository exactly when the email passes validation, and then signs the
      user in exactly on the accepted pair; otherwise the user sees the
      repository's message, or the email-format message if no call was made. */
  method SignIn(invalidCredentials: string, emailValidator: string -> bool, email: string, password: string)
    returns (request: Option<Credentials>, state: LoginUiState)
    ensures request.Some? <==> email == "" || emailValidator(email)
    ensures request.Some? ==>
      var accepted := email == Data.AcceptedEmail && password == Data.AcceptedPassword;
      request.value == Credentials(email, password) &&
      !state.isLoading && state.emailError == None &&
      (state.isLoggedIn <==> accepted) &&
      state.error == (if accepted then None else Some(invalidCredentials))
    ensures request.None? ==>
      !state.isLoggedIn && !state.isLoading &&
      state.emailError == Some(InvalidEmailFormat) && state.error == None
  {
    var vm := new LoginViewModel(UseCase(Data.Repository(invalidCredentials)), emailValidator);
    vm.OnEmailChange(email);
    vm.OnPasswordChange(password);
    request := vm.Login();
    state := vm.uiState;
  }
}
