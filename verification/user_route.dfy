/** `GET /api/nations/user`: the nation a wallet belongs to, if any. */
module UserRoute {
  import opened Wrappers
  import opened Text
  import opened ApiErrors
  import opened NationModel
  import opened UserModel
  import opened Store
  import opened CreateRoute
  import opened JoinRoute
  import opened LeaveRoute
  import opened DeleteRoute

  /** The successful replies: `hasNation: false`, or `hasNation: true` with the nation. */
  datatype UserNation = NoNation | HasNation(entry: Entry)

  /** Looks the user up by the lower-cased address, then its nation. Reads only. */
  function GetUserNation(s: State, address: string): (r: Result<UserNation, ApiError>)
    ensures address == "" ==> r == Failure(AddressRequired)
    ensures (address != "" && Lower(address) !in s.users) ==> r == Failure(UserNotFound)
    ensures r == Success(NoNation) <==>
              address != "" && Lower(address) in s.users && s.users[Lower(address)].nationId.None?
    ensures r == Failure(NationNotFound) <==>
              && address != "" && Lower(address) in s.users && s.users[Lower(address)].nationId.Some?
              && s.users[Lower(address)].nationId.value !in s.nations
    ensures (&& address != "" && Lower(address) in s.users && s.users[Lower(address)].nationId.Some?
             && s.users[Lower(address)].nationId.value in s.nations)
              ==> r == Success(HasNation(Entry(s.users[Lower(address)].nationId.value,
                                               s.nations[s.users[Lower(address)].nationId.value])))
    ensures r.Success? && r.value.HasNation? ==>
              && Lower(address) in s.users
              && s.users[Lower(address)].nationId == Some(r.value.entry.id)
              && r.value.entry.id in s.nations
              && r.value.entry.nation == s.nations[r.value.entry.id]
  {
    if address == "" then Failure(AddressRequired)
    else
      var key := Lower(address);
      if key !in s.users then Failure(UserNotFound)
      else
        match s.users[key].nationId
        case None => Success(NoNation)
        case Some(id) =>
          if id !in s.nations then Failure(NationNotFound)
          else Success(HasNation(Entry(id, s.nations[id])))
  }

  /** In a valid state a user's nation always exists, so the lookup never answers `NationNotFound`. */
  lemma ValidStateFindsNation(s: State, address: string)
    requires Valid(s)
    ensures GetUserNation(s, address) != Failure(NationNotFound)
  {
    assert UsersInTheirNation(s.users, s.nations);
  }

  /** In a valid state the nation returned lists the user among its members. */
  lemma UserNationListsUser(s: State, address: string)
    requires Valid(s)
    requires GetUserNation(s, address).Success? && GetUserNation(s, address).value.HasNation?
    ensures Lower(address) in MemberKeys(GetUserNation(s, address).value.entry.nation.members)
  {
    assert UsersInTheirNation(s.users, s.nations);
  }

  /** The creator of a nation then finds it as its nation. */
  lemma CreateThenGetUserNation(s: State, name: string, address: string, now: nat)
    requires Create(s, name, address, now).Success?
    ensures GetUserNation(Create(s, name, address, now).value.state, address)
            == Success(HasNation(Entry(Create(s, name, address, now).value.id, Create(s, name, address, now).value.nation)))
  {
  }

  /** A user who joined a nation then finds it as its nation. */
  lemma JoinThenGetUserNation(s: State, id: NationId, address: string)
    requires Join(s, Some(id), address).Success?
    ensures GetUserNation(Join(s, Some(id), address).value.state, address)
            == Success(HasNation(Entry(id, Join(s, Some(id), address).value.nation)))
  {
  }

  /** A user who left has no nation. */
  lemma LeaveThenGetUserNation(s: State, address: string)
    requires Leave(s, address).Success?
    ensures GetUserNation(Leave(s, address).value, address) == Success(NoNation)
  {
  }

  /** Every member of a deleted nation, the founder included, then has no nation. */
  lemma DeleteThenGetUserNation(s: State, id: NationId, founder: string, member: string)
    requires Valid(s)
    requires Delete(s, Some(id), founder).Success?
    requires member != "" && Lower(member) in MemberKeys(s.nations[id].members)
    ensures GetUserNation(Delete(s, Some(id), founder).value, member) == Success(NoNation)
  {
    DeleteFreesMembers(s, id, founder);
  }
}
