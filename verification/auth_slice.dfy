/**
 * The auth slice of the front end's store: the signed-in user, the token,
 * a loading flag and the last error. Login and signup share one shape of
 * pending, fulfilled and rejected cases and differ only in the fallback
 * message of a rejection. Storing and removing the token in the browser's
 * storage is a side effect outside the state and is not modelled.
 */
module AuthSlice {
  import opened Text

  /** The user record the server sends with a token. */
  datatype User = User(id: int, name: string, email: string)

  datatype AuthState = AuthState(user: Option<User>, token: Option<string>, loading: bool, error: Option<string>)

  /** Which request a pending, fulfilled or rejected action belongs to. */
  datatype Request = Login | Signup

  /** The actions the slice reacts to. A rejection's payload is `None` when it is `undefined`. */
  datatype Action =
    | Logout
    | Pending(req: Request)
    | Fulfilled(req: Request, user: User, token: string)
    | Rejected(req: Request, reason: Option<string>)
    | Other

  const Initial := AuthState(None, None, false, None)

  /** The message a rejection shows when it carries none. */
  function Fallback(req: Request): string {
    match req
    case Login => "Login failed"
    case Signup => "Signup failed"
  }

  /** `logout`: every field goes back to its starting value. */
  function LoggedOut(s: AuthState): (r: AuthState)
    ensures r.user.None? && r.token.None? && !r.loading && r.error.None?
  {
    s.(user := None, token := None, loading := false, error := None)
  }

  /** Login or signup pending: loading starts and the last error is cleared; the session stays. */
  function StartLoading(s: AuthState): (r: AuthState)
    ensures r.user == s.user && r.token == s.token && r.loading && r.error.None?
  {
    s.(loading := true, error := None)
  }

  /** Login or signup fulfilled: the payload's user and token become the session. */
  function SignedIn(s: AuthState, user: User, token: string): (r: AuthState)
    ensures r.user == Some(user) && r.token == Some(token) && !r.loading && r.error.None?
  {
    s.(user := Some(user), token := Some(token), loading := false, error := None)
  }

  /** Login or signup rejected: the session stays; the error is the payload or the fallback. */
  function Failed(s: AuthState, req: Request, reason: Option<string>): (r: AuthState)
    ensures r.user == s.user && r.token == s.token && !r.loading && r.error.Some?
    ensures reason.Some? && reason.value != "" ==> r.error.value == reason.value
    ensures reason.None? || reason.value == "" ==> r.error.value == Fallback(req)
  {
    s.(loading := false, error := Some(OrElse(reason, Fallback(req))))
  }

  /**
   * The slice's reducer. Only a logout or a fulfilled request changes the
   * session: logout empties it and a fulfilled request installs its user
   * and token. Loading is on exactly after a pending request, or when it
   * was on and an ignored action follows. An error is shown exactly after
   * a rejection, or when one was shown and an ignored action follows.
   */
  function Reduce(s: AuthState, a: Action): (r: AuthState)
    ensures a.Other? ==> r == s
    ensures r.user != s.user || r.token != s.token ==> a.Logout? || a.Fulfilled?
    ensures a.Logout? ==> r == Initial
    ensures a.Fulfilled? ==> r.user == Some(a.user) && r.token == Some(a.token)
    ensures r.loading <==> a.Pending? || (s.loading && a.Other?)
    ensures r.error.Some? <==> a.Rejected? || (s.error.Some? && a.Other?)
  {
    match a
    case Logout => LoggedOut(s)
    case Pending(_) => StartLoading(s)
    case Fulfilled(_, user, token) => SignedIn(s, user, token)
    case Rejected(req, reason) => Failed(s, req, reason)
    case Other => s
  }

  /** A user and a token are held together or not at all. */
  predicate Whole(s: AuthState) {
    s.user.Some? <==> s.token.Some?
  }

  /** Every action keeps the session whole. */
  lemma KeepsSessionWhole(s: AuthState, a: Action)
    requires Whole(s)
    ensures Whole(Reduce(s, a))
  {
  }

  /** From any state, logging out gives the initial state. */
  lemma LogoutResets(s: AuthState)
    ensures Reduce(s, Logout) == Initial
  {
  }

  /** A successful login and a successful signup with the same payload leave the same state. */
  lemma LoginAndSignupAgree(s: AuthState, user: User, token: string)
    ensures Reduce(s, Fulfilled(Login, user, token)) == Reduce(s, Fulfilled(Signup, user, token))
  {
  }

  /** A failed request after a sign-in keeps the signed-in user. */
  lemma FailureKeepsSession(s: AuthState, user: User, token: string, req: Request, reason: Option<string>)
    ensures var r := Reduce(Reduce(Reduce(s, Fulfilled(Login, user, token)), Pending(req)), Rejected(req, reason));
            r.user == Some(user) && r.token == Some(token) && !r.loading && r.error.Some?
  {
  }
}
