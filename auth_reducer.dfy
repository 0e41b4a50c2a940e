/** The authentication slice of the store (src/app/auth/auth.reducer.ts). */
module AuthReducer {
  import opened Wrappers
  import opened Actions

  /** `uid` and `email` are None while nobody is signed in; `error` is None when the property is absent. */
  datatype State = State(
    isAuthenticated: bool,
    isLoading: bool,
    uid: Option<string>,
    email: Option<string>,
    error: Option<string>)

  /** Nobody signed in, nothing loading, no error. */
  const Initial: State := State(false, false, None, None, None)

  /** The state every sign-in failure leads to: signed out, idle, with the failure's message. */
  function SignedOutWith(error: Option<string>): State
  {
    State(false, false, None, None, error)
  }

  /**
   * authReducer: one case per handled action type; every other action
   * leaves the state as it is. Each step keeps the session invariant (given
   * a SET_AUTHENTICATED payload with a uid), and only SET_AUTHENTICATED
   * signs a user in.
   */
  function Reduce(state: State, action: Action): (r: State)
    ensures Consistent(state) && CarriesUid(action) ==> Consistent(r)
    ensures r.isAuthenticated && !state.isAuthenticated ==> action.SetAuthenticated?
  {
    match action
    case SetAuthenticated(user) => State(true, false, user.uid, user.email, None)
    case SetUnauthenticated => SignedOutWith(None)
    case LoginError(message) => SignedOutWith(Some(message))
    case RegisterError(message) => SignedOutWith(Some(message))
    case GetAuthenticationError(message) => SignedOutWith(Some(message))
    case LogoutError(message) => state.(isLoading := false, error := Some(message))
    case Login => state.(isLoading := true)
    case Register => state.(isLoading := true)
    case GetAuthentication => state.(isLoading := true)
    case _ => state
  }

  /** The action types the switch of authReducer names. */
  predicate Handles(a: Action)
  {
    a.SetAuthenticated? || a.SetUnauthenticated? || a.LoginError? || a.RegisterError?
    || a.GetAuthenticationError? || a.LogoutError? || a.Login? || a.Register? || a.GetAuthentication?
  }

  /** The session is signed out exactly when neither a uid nor an email is recorded. */
  predicate Consistent(s: State)
  {
    !s.isAuthenticated <==> (s.uid.None? && s.email.None?)
  }

  /** Only SET_AUTHENTICATED payloads with a uid are admitted by the session invariant. */
  predicate CarriesUid(a: Action)
  {
    a.SetAuthenticated? ==> a.user.uid.Some?
  }

  /** The initial state: nobody signed in, not loading, uid and email null, which keeps the session invariant. */
  lemma InitialIsSignedOut()
    ensures !Initial.isAuthenticated && !Initial.isLoading
    ensures Initial.uid.None? && Initial.email.None? && Consistent(Initial)
  {
  }

  /**
   * SET_AUTHENTICATED signs the payload's user in, whatever the state was:
   * not loading, uid and email from the payload, no error.
   */
  lemma SetAuthenticatedSignsIn(s: State, t: State, user: UserModel)
    ensures Reduce(s, SetAuthenticated(user)).isAuthenticated
    ensures !Reduce(s, SetAuthenticated(user)).isLoading
    ensures Reduce(s, SetAuthenticated(user)).uid == user.uid
    ensures Reduce(s, SetAuthenticated(user)).email == user.email
    ensures Reduce(s, SetAuthenticated(user)).error.None?
    ensures Reduce(s, SetAuthenticated(user)) == Reduce(t, SetAuthenticated(user))
  {
  }

  /**
   * SET_UNAUTHENTICATED and the three sign-in errors leave nobody signed in,
   * nothing loading, uid and email null; the errors record their payload and
   * SET_UNAUTHENTICATED records none.
   */
  lemma SignOutActions(s: State, a: Action)
    requires a.SetUnauthenticated? || a.LoginError? || a.RegisterError? || a.GetAuthenticationError?
    ensures var r := Reduce(s, a);
      && !r.isAuthenticated && !r.isLoading && r.uid.None? && r.email.None?
      && r.error == (if a.SetUnauthenticated? then None else Some(a.message))
  {
  }

  /** LOGOUT_ERROR keeps the session as it was, stops loading and records the error. */
  lemma LogoutErrorKeepsSession(s: State, message: string)
    ensures var r := Reduce(s, LogoutError(message));
      && r.isAuthenticated == s.isAuthenticated && r.uid == s.uid && r.email == s.email
      && !r.isLoading && r.error == Some(message)
  {
  }

  /** LOGIN, REGISTER and GET_AUTHENTICATION raise the loading flag and change nothing else. */
  lemma PendingActionsOnlyRaiseLoading(s: State, a: Action)
    requires a.Login? || a.Register? || a.GetAuthentication?
    ensures Reduce(s, a).isLoading
    ensures Reduce(s, a) == s.(isLoading := true)
  {
  }

  /**
   * LOGOUT, the three *_SUCESSFUL actions and every action of another
   * feature leave the authentication state as it is.
   */
  lemma UnhandledActionsKeepState(s: State, a: Action)
    requires !Handles(a) && Foreign(a)
    ensures Reduce(s, a) == s
  {
  }
  /** No case of the switch has the logout-success type, so that action leaves the state as it is. */
  lemma LogoutSuccessKeepsState(s: State, a: Action)
    requires IsLogoutSuccess(a)
    ensures Reduce(s, a) == s
  {
    OnlyLogoutSuccessfulClears(a);
  }


  /**
   * In every state reachable from the initial one, the session is signed out
   * exactly when uid and email are null, as long as every SET_AUTHENTICATED
   * carries a uid.
   */
  lemma ReachableStatesAreConsistent(actions: seq<Action>)
    requires forall i :: 0 <= i < |actions| ==> CarriesUid(actions[i])
    ensures Consistent(Replay(Reduce, Initial, actions))
  {
    assert forall t, a :: Consistent(t) && CarriesUid(a) ==> Consistent(Reduce(t, a));
    ReplayPreserves(Reduce, Consistent, CarriesUid, Initial, actions);
  }
}
