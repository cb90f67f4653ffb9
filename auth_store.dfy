/** The authentication store: in-memory session state, the snapshot persisted
    under the storage key 'auth', and the single session-expiry timer. */
module Auth {
  import opened Wrappers
  import opened ApiTypes
  import Api

  /** Fifteen minutes, in milliseconds. */
  const SessionTimeout: nat := 15 * 60 * 1000

  /** What `login` persists: the (password-free) user, the flag and the permissions. */
  datatype Snapshot = Snapshot(user: Option<User>, isAuthenticated: bool, permissions: Option<seq<string>>)

  /** How the awaited `mockApi.login` call settled: resolved with a reply (the
      fields the store reads from it) or rejected with a thrown object's message. */
  datatype LoginOutcome =
    | Resolved(isSuccess: bool, message: string, user: Option<User>, permissions: Option<seq<string>>)
    | Rejected(message: string)

  /** The service resolves only with a success and throws on every failure. */
  function OutcomeOf(r: Result<Api.Reply<Api.LoginData>>): (o: LoginOutcome)
    ensures o.Resolved? <==> r.Success?
    ensures o.Resolved? ==>
      && o.isSuccess
      && o.message == r.value.message
      && o.user == Some(r.value.value.user)
      && o.permissions == Some(r.value.value.permissions)
    ensures o.Rejected? ==> o.message == r.message
  {
    match r
    case Success(reply) => Resolved(true, reply.message, Some(reply.value.user), Some(reply.value.permissions))
    case Failure(m) => Rejected(m)
  }

  class AuthStore {
    var isAuthenticated: bool
    var user: Option<User>
    var permissions: Option<seq<string>>
    var error: Option<string>
    /** The handle of the session timer, as `timeoutId` holds it. */
    var timeoutId: Option<nat>
    /** The runtime's pending timers created by this store: handle to deadline, in
        milliseconds on the clock the `now` parameters read. */
    var timers: map<nat, int>
    /** The handle the next `setTimeout` hands out. */
    var nextHandle: nat
    /** The storage entry 'auth'. */
    var storage: Option<Snapshot>
    /** The paths handed to `router.push`, oldest first. */
    var navigations: seq<string>

    /** No pending timer but the one `timeoutId` names (which may already have
        fired), and handles are fresh. */
    ghost predicate Valid()
      reads this
    {
      && (timeoutId.None? ==> timers == map[])
      && (timeoutId.Some? ==> timers.Keys <= {timeoutId.value} && timeoutId.value < nextHandle)
    }

    /** The state `logout` leaves, whatever came before. */
    ghost predicate LoggedOut()
      reads this
    {
      && user.None?
      && permissions == Some([])
      && !isAuthenticated
      && error.None?
      && timeoutId.None?
      && timers == map[]
      && storage.None?
    }

    /** The session timer exists and its deadline has passed by `now`. */
    ghost predicate Expired(now: int)
      reads this
    {
      timeoutId.Some? && timeoutId.value in timers && timers[timeoutId.value] <= now
    }

    /** The store's state once `login` has seen `outcome` at time `now`. */
    twostate predicate Settled(outcome: LoginOutcome, now: int)
      reads this
    {
      && navigations == old(navigations)
      && !isAuthenticated == !(outcome.Resolved? && outcome.isSuccess)
      && if outcome.Resolved? && outcome.isSuccess then
           && user == outcome.user
           && permissions == outcome.permissions
           && error.None?
           && storage == Some(Snapshot(outcome.user, true, outcome.permissions))
           && timeoutId == Some(old(nextHandle))
           && timers == map[old(nextHandle) := now + SessionTimeout]
           && nextHandle == old(nextHandle) + 1
         else
           && user.None?
           && permissions == (if outcome.Rejected? then Some([]) else None)
           && error == Some(outcome.message)
           && storage == old(storage)
           && timeoutId == old(timeoutId)
           && timers == old(timers)
           && nextHandle == old(nextHandle)
    }

    /** A fresh store over whatever storage already holds. */
    constructor (persisted: Option<Snapshot>)
      ensures Valid()
      ensures !isAuthenticated && user.None? && permissions.None? && error.None?
      ensures timeoutId.None? && timers == map[]
      ensures storage == persisted && navigations == []
    {
      isAuthenticated := false;
      user := None;
      permissions := None;
      error := None;
      timeoutId := None;
      timers := map[];
      nextHandle := 1;
      storage := persisted;
      navigations := [];
    }

    /** The persisted snapshot the store exposes; the in-memory fields play no part. */
    function AuthenticatedUserData(): (r: Option<Snapshot>)
      reads this
      ensures r == storage
    {
      storage
    }

    /** Cancels the pending session timer and starts a new one of `SessionTimeout`. */
    method ResetSessionTimeout(now: int)
      requires Valid()
      modifies this
      ensures Valid()
      ensures timeoutId == Some(old(nextHandle))
      ensures timers == map[old(nextHandle) := now + SessionTimeout]
      ensures nextHandle == old(nextHandle) + 1
      ensures isAuthenticated == old(isAuthenticated) && user == old(user)
      ensures permissions == old(permissions) && error == old(error)
      ensures storage == old(storage) && navigations == old(navigations)
    {
      if timeoutId.Some? {
        timers := timers - {timeoutId.value};
      }
      assert timers == map[];
      timeoutId := Some(nextHandle);
      timers := timers[nextHandle := now + SessionTimeout];
      nextHandle := nextHandle + 1;
    }

    method Logout()
      requires Valid()
      modifies this
      ensures Valid() && LoggedOut()
      ensures nextHandle == old(nextHandle) && navigations == old(navigations)
      ensures old(LoggedOut()) ==> unchanged(this)
    {
      user := None;
      permissions := Some([]);
      isAuthenticated := false;
      error := None;
      if timeoutId.Some? {
        timers := timers - {timeoutId.value};
      }
      timeoutId := None;
      storage := None;
    }

    /** The continuation of `login` once the awaited call has settled. */
    method Settle(outcome: LoginOutcome, now: int)
      requires Valid()
      modifies this
      ensures Valid()
      ensures Settled(outcome, now)
    {
      match outcome {
        case Resolved(isSuccess, message, loggedInUser, userPermissions) =>
          if isSuccess {
            user := loggedInUser;
            permissions := userPermissions;
            isAuthenticated := true;
            error := None;
            storage := Some(Snapshot(user, isAuthenticated, permissions));
            ResetSessionTimeout(now);
          } else {
            user := None;
            permissions := None;
            isAuthenticated := false;
            error := Some(message);
          }
        case Rejected(message) =>
          user := None;
          permissions := Some([]);
          isAuthenticated := false;
          error := Some(message);
      }
    }

    /** `login` against the service: the call, then its continuation. */
    method Login(api: Api.MockApi, email: string, password: string, now: int)
      requires Valid()
      modifies this, api
      ensures Valid()
      ensures api.users == old(api.users) && !api.simulatedError
      ensures Settled(OutcomeOf(
        if old(api.simulatedError) then Failure(Api.LoginFailed)
        else Api.Authenticate(old(api.users), email, password)), now)
    {
      var reply := api.Login(email, password);
      Settle(OutcomeOf(reply), now);
    }

    /** The clock reaches `now`: a session timer whose deadline has passed fires,
        logs out and navigates to '/login'; otherwise nothing happens. */
    method Elapse(now: int)
      requires Valid()
      modifies this
      ensures Valid()
      ensures old(Expired(now)) ==>
        LoggedOut() && navigations == old(navigations) + ["/login"] && nextHandle == old(nextHandle)
      ensures !old(Expired(now)) ==> unchanged(this)
    {
      if timeoutId.Some? && timeoutId.value in timers && timers[timeoutId.value] <= now {
        timers := timers - {timeoutId.value};
        Logout();
        navigations := navigations + ["/login"];
      }
    }
  }

  /** A manager who logs in at `t` is signed in with the manager's permissions; the
      clock reaching one millisecond before `t + SessionTimeout` leaves the session
      alone, reaching the deadline logs out and navigates to '/login', and a further
      logout changes nothing. */
  method SessionExpiry(t: int) returns (signedIn: bool, held: Option<seq<string>>, beforeDeadline: bool,
                                        atDeadline: bool, pushed: seq<string>, loggedOutTwice: bool)
    ensures signedIn && held == Some(Api.RolePermissions(Manager))
    ensures beforeDeadline && !atDeadline
    ensures pushed == ["/login"] && loggedOutTwice
  {
    var api := new Api.MockApi([User(1, "Ann", "ann@example.com", Manager, Active, "2024-01-01", Some("secret"))]);
    var store := new AuthStore(None);
    store.Login(api, "ann@example.com", "secret", t);
    signedIn, held := store.isAuthenticated, store.storage.value.permissions;
    store.Elapse(t + SessionTimeout - 1);
    beforeDeadline := store.isAuthenticated;
    store.Elapse(t + SessionTimeout);
    atDeadline, pushed := store.isAuthenticated, store.navigations;
    store.Logout();
    loggedOutTwice := && store.user.None? && !store.isAuthenticated && store.storage.None?
                      && store.timeoutId.None? && store.navigations == ["/login"];
  }
}
