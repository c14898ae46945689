/** The client's user store: the signed-in user's profile (the cached result of
    the `getSelf` query) next to the access-token store, with `login`, `clear`
    and `logout`. The server is a parameter: `getSelf` gives the response the
    profile endpoint sends back for a given access token. */
module UserStore {
  import opened Wrappers
  import opened Json
  import AuthStore

  /** A response as the HTTP client returns it. */
  datatype Response = Response(status: int, body: JsValue)

  /** The store's state: the access-token store and the cached profile. */
  datatype Session = Session(auth: AuthStore.Store, user: Option<JsValue>)

  /** The state when the application starts. */
  const Start: Session := Session(AuthStore.Initial, None)

  datatype Failure =
    | WrongCredentials  // the login endpoint did not answer 200
    | LogoutFailed      // the logout endpoint answered 400 or above

  /** The query's `select`: the profile of a 200 response, nothing otherwise. */
  function SelectProfile(res: Response): (user: Option<JsValue>)
    ensures user.Some? <==> res.status == 200
    ensures user.Some? ==> user.value == res.body
  {
    if res.status == 200 then Some(res.body) else None
  }

  /** A 2xx status: the query client hands such an answer to `select`; any other
      status makes its query function throw. */
  predicate IsSuccess(status: int) {
    200 <= status <= 299
  }

  /** Re-running the profile query. The query client reads the token from the
      store at the moment it sends, so the current token is the one used. A 2xx
      answer goes through `select`; any other answer makes the query fail, and
      a failed query keeps the data it held before. */
  function Refetch(s: Session, getSelf: string -> Response): (r: Session)
    ensures r.auth == s.auth
    ensures IsSuccess(getSelf(s.auth.accessToken).status) ==>
              r.user == SelectProfile(getSelf(s.auth.accessToken))
    ensures !IsSuccess(getSelf(s.auth.accessToken).status) ==> r.user == s.user
  {
    var res := getSelf(s.auth.accessToken);
    if IsSuccess(res.status) then Session(s.auth, SelectProfile(res)) else s
  }

  /** `login`: a 200 from the login endpoint stores its access token and then
      reloads the profile with it; any other status throws before anything is
      stored. */
  function Login(s: Session, loginStatus: int, loginToken: string, getSelf: string -> Response)
    : (r: Result<Session, Failure>)
    ensures r.Err? <==> loginStatus != 200
    ensures r.Err? ==> r.error == WrongCredentials
    ensures r.Ok? ==> r.value.auth.accessToken == loginToken
    ensures r.Ok? && IsSuccess(getSelf(loginToken).status) ==> r.value.user == SelectProfile(getSelf(loginToken))
    ensures r.Ok? && !IsSuccess(getSelf(loginToken).status) ==> r.value.user == s.user
  {
    if loginStatus == 200 then
      Ok(Refetch(Session(AuthStore.SetAccessToken(s.auth, loginToken), s.user), getSelf))
    else Err(WrongCredentials)
  }

  /** `clear`: empty token and no cached profile. */
  function Clear(s: Session): (r: Session)
    ensures r.auth.accessToken == "" && r.user.None?
  {
    Session(AuthStore.SetAccessToken(s.auth, ""), None)
  }

  /** `logout`: a status of 400 or above throws and leaves the state alone;
      otherwise the state is cleared and the profile is reloaded without a
      token. */
  function Logout(s: Session, logoutStatus: int, getSelf: string -> Response)
    : (r: Result<Session, Failure>)
    ensures r.Err? <==> logoutStatus >= 400
    ensures r.Err? ==> r.error == LogoutFailed
    ensures r.Ok? ==> r.value.auth.accessToken == ""
    ensures r.Ok? ==> (r.value.user.Some? <==> getSelf("").status == 200)
    ensures r.Ok? && r.value.user.Some? ==> r.value.user.value == getSelf("").body
  {
    if logoutStatus >= 400 then Err(LogoutFailed) else Ok(Refetch(Clear(s), getSelf))
  }

  /** Clearing is idempotent and brings back the start state. */
  lemma ClearIdempotent(s: Session)
    ensures Clear(Clear(s)) == Clear(s)
    ensures Clear(s) == Start
  {
  }

  /** When the profile query succeeds, the outcome of logging in does not depend
      on what the state was before. */
  lemma LoginForgetsPreviousSession(s1: Session, s2: Session, loginStatus: int, loginToken: string,
                                    getSelf: string -> Response)
    requires IsSuccess(getSelf(loginToken).status)
    ensures Login(s1, loginStatus, loginToken, getSelf) == Login(s2, loginStatus, loginToken, getSelf)
  {
  }

  /** When the profile query fails, logging in stores the new token but keeps the
      profile of the session before, whoever it belonged to. */
  lemma LoginKeepsStaleProfile(s: Session, loginToken: string, getSelf: string -> Response)
    requires !IsSuccess(getSelf(loginToken).status)
    ensures Login(s, 200, loginToken, getSelf) == Ok(Session(AuthStore.Store(loginToken), s.user))
  {
  }

  /** Logging in and then out leaves the same state as logging out from the
      start: nothing of the session survives. */
  lemma LoginThenLogout(loginToken: string, logoutStatus: int, getSelf: string -> Response)
    requires logoutStatus < 400
    ensures var afterLogin := Login(Start, 200, loginToken, getSelf).value;
            Logout(afterLogin, logoutStatus, getSelf) == Logout(Start, logoutStatus, getSelf)
  {
  }

  /** A server that turns away requests without a token leaves no profile after
      logout. */
  lemma LogoutLeavesNoProfile(s: Session, logoutStatus: int, getSelf: string -> Response)
    requires logoutStatus < 400 && getSelf("").status != 200
    ensures Logout(s, logoutStatus, getSelf) == Ok(Start)
  {
  }
}
