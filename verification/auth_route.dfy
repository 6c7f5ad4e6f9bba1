/** `POST /api/auth/phantom`: get or create the user for a wallet address. */
module AuthRoute {
  import opened Wrappers
  import opened Text
  import opened ApiErrors
  import opened NationModel
  import opened UserModel
  import opened Store

  /** The new state and the user record the response describes (`address`, `createdAt`). */
  datatype Authenticated = Authenticated(state: State, user: User)

  /**
   * Looks the user up by the lower-cased address and creates it when absent.
   * `now` is the creation timestamp the store would assign.
   */
  function Authenticate(s: State, address: string, now: nat): (r: Result<Authenticated, ApiError>)
    ensures address == "" ==> r == Failure(WalletAddressRequired)
    ensures address != "" ==> r.Success?
    ensures r.Success? ==>
              && Lower(address) in r.value.state.users
              && r.value.user == r.value.state.users[Lower(address)]
              && r.value.state.users.Keys == s.users.Keys + {Lower(address)}
              && r.value.state.nations == s.nations
              && r.value.state.nextId == s.nextId
    ensures r.Success? && Lower(address) in s.users ==>
              r.value.state == s && r.value.user == s.users[Lower(address)]
    ensures r.Success? && Lower(address) !in s.users ==>
              && r.value.user.address == Lower(address)
              && StoredAddress(r.value.user.address)
              && r.value.user.nationId.None?
              && r.value.state.users == s.users[Lower(address) := r.value.user]
  {
    if address == "" then Failure(WalletAddressRequired)
    else
      var key := Lower(address);
      if key in s.users then Success(Authenticated(s, s.users[key]))
      else
        var user := NewUser(address, now);
        Success(Authenticated(s.(users := s.users[key := user]), user))
  }

  /** Authenticating twice is the same as authenticating once, whatever the second timestamp. */
  lemma AuthenticateIdempotent(s: State, address: string, first: nat, second: nat)
    requires address != ""
    ensures Authenticate(Authenticate(s, address, first).value.state, address, second)
            == Authenticate(s, address, first)
  {
  }

  /** Addresses that differ only in case authenticate the same user. */
  lemma AuthenticateIgnoresCase(s: State, a: string, b: string, now: nat)
    requires a != "" && b != "" && Lower(a) == Lower(b)
    ensures Authenticate(s, a, now) == Authenticate(s, b, now)
  {
  }

  /** In a valid state the returned user is stored under, and echoes, the lower-cased address. */
  lemma AuthenticateEchoesAddress(s: State, address: string, now: nat)
    requires Valid(s) && address != ""
    ensures Authenticate(s, address, now).value.user.address == Lower(address)
  {
    assert UsersStored(s.users);
  }

  lemma AuthenticatePreservesValid(s: State, address: string, now: nat)
    requires Valid(s)
    requires Authenticate(s, address, now).Success?
    ensures Valid(Authenticate(s, address, now).value.state)
  {
    var key := Lower(address);
    if key !in s.users {
      var t := Authenticate(s, address, now).value.state;
      AddUnaffiliatedUser(s, key, t.users[key]);
      assert t == s.(users := s.users[key := t.users[key]]);
    }
  }

  /** Adding a user with no nation under a fresh lower-case key keeps the user-side invariants. */
  lemma AddUnaffiliatedUser(s: State, key: string, u: User)
    requires UsersStored(s.users) && UsersInTheirNation(s.users, s.nations) && MembersAreUsers(s.users, s.nations)
    requires key !in s.users && u.address == key && StoredAddress(key) && u.nationId.None?
    ensures UsersStored(s.users[key := u])
    ensures UsersInTheirNation(s.users[key := u], s.nations)
    ensures MembersAreUsers(s.users[key := u], s.nations)
  {
    var users := s.users[key := u];
    forall id, a | id in s.nations && a in MemberKeys(s.nations[id].members)
      ensures a in users && users[a].nationId == Some(id)
    {
      assert a in s.users && s.users[a].nationId == Some(id);
    }
  }
}
