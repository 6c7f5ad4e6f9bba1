/** `POST /api/nations/delete`: the founder deletes its nation and every member is detached. */
module DeleteRoute {
  import opened Wrappers
  import opened Text
  import opened ApiErrors
  import opened NationModel
  import opened UserModel
  import opened Store

  /** `User.find({ nationId })` followed by clearing each user's `nationId`. */
  function Detach(users: map<string, User>, id: NationId): (r: map<string, User>)
    ensures r.Keys == users.Keys
    ensures forall a :: a in r ==> r[a].address == users[a].address && r[a].createdAt == users[a].createdAt
    ensures forall a :: a in r ==> r[a].nationId == if users[a].nationId == Some(id) then None else users[a].nationId
  {
    map a | a in users :: if users[a].nationId == Some(id) then users[a].(nationId := None) else users[a]
  }

  /**
   * Checks the fields, then the user (before the nation), the nation and that
   * the requester is its founder, ignoring case; detaches every user of the
   * nation and removes it.
   */
  function Delete(s: State, nationId: Option<NationId>, address: string): (r: Result<State, ApiError>)
    ensures nationId.None? || address == "" ==> r == Failure(NationIdAndAddressRequired)
    ensures (nationId.Some? && address != "" && Lower(address) !in s.users) ==> r == Failure(WalletNotConnected)
    ensures (nationId.Some? && address != "" && Lower(address) in s.users && nationId.value !in s.nations)
              ==> r == Failure(NationNotFound)
    ensures r == Failure(OnlyFounderCanDelete) <==>
              && nationId.Some? && address != ""
              && Lower(address) in s.users && nationId.value in s.nations
              && Lower(s.nations[nationId.value].founderAddress) != Lower(address)
    ensures r.Success? <==>
              && nationId.Some? && address != ""
              && Lower(address) in s.users && nationId.value in s.nations
              && Lower(s.nations[nationId.value].founderAddress) == Lower(address)
    ensures r.Success? ==>
              && r.value.nations == s.nations - {nationId.value}
              && r.value.users == Detach(s.users, nationId.value)
              && r.value.nextId == s.nextId
  {
    if nationId.None? || address == "" then Failure(NationIdAndAddressRequired)
    else
      var key := Lower(address);
      var id := nationId.value;
      if key !in s.users then Failure(WalletNotConnected)
      else if id !in s.nations then Failure(NationNotFound)
      else if Lower(s.nations[id].founderAddress) != key then Failure(OnlyFounderCanDelete)
      else Success(State(Detach(s.users, id), s.nations - {id}, s.nextId))
  }

  /** After a deletion no user refers to the deleted nation, and its former members are all users without a nation. */
  lemma DeleteFreesMembers(s: State, id: NationId, address: string)
    requires Valid(s)
    requires Delete(s, Some(id), address).Success?
    ensures forall a :: a in Delete(s, Some(id), address).value.users ==>
              Delete(s, Some(id), address).value.users[a].nationId != Some(id)
    ensures forall a :: a in MemberKeys(s.nations[id].members) ==>
              a in Delete(s, Some(id), address).value.users
              && Delete(s, Some(id), address).value.users[a].nationId.None?
  {
    assert MembersAreUsers(s.users, s.nations);
  }

  /** The territory of a deleted nation is free again: no remaining nation holds it. */
  lemma DeleteFreesTerritory(s: State, id: NationId, address: string)
    requires Valid(s)
    requires Delete(s, Some(id), address).Success?
    requires s.nations[id].territory.Some?
    ensures !TerritoryTaken(Delete(s, Some(id), address).value, s.nations[id].territory.value)
  {
    assert TerritoriesUnique(s.nations);
  }

  /** The founder who deleted its nation is free to found or join another one. */
  lemma DeleteFreesFounder(s: State, id: NationId, address: string)
    requires Valid(s)
    requires Delete(s, Some(id), address).Success?
    ensures Lower(address) in Delete(s, Some(id), address).value.users
    ensures Delete(s, Some(id), address).value.users[Lower(address)].nationId.None?
  {
    FounderIsAffiliated(s, id);
    assert Consistent(s.nations[id]);
  }

  lemma DeletePreservesValid(s: State, id: NationId, address: string)
    requires Valid(s)
    requires Delete(s, Some(id), address).Success?
    ensures Valid(Delete(s, Some(id), address).value)
  {
    var t := Delete(s, Some(id), address).value;
    RemoveKeepsNationInvariants(s.nations, s.nextId, id);
    DeleteUserSide(s.users, s.nations, id);
  }

  /** Detaching the users of a nation that is then removed keeps the user-side invariants. */
  lemma DeleteUserSide(users: map<string, User>, nations: map<NationId, Nation>, id: NationId)
    requires UsersStored(users) && UsersInTheirNation(users, nations) && MembersAreUsers(users, nations)
    ensures UsersStored(Detach(users, id))
    ensures UsersInTheirNation(Detach(users, id), nations - {id})
    ensures MembersAreUsers(Detach(users, id), nations - {id})
  {
    var users' := Detach(users, id);
    var nations' := nations - {id};
    forall a | a in users' && users'[a].nationId.Some?
      ensures users'[a].nationId.value in nations'
      ensures a in MemberKeys(nations'[users'[a].nationId.value].members)
    {
      assert users'[a] == users[a];
    }
    forall j, a | j in nations' && a in MemberKeys(nations'[j].members)
      ensures a in users' && users'[a].nationId == Some(j)
    {
      assert users[a].nationId == Some(j);
    }
  }
}
