/** `POST /api/nations/create`: an unaffiliated user founds a nation. */
module CreateRoute {
  import opened Wrappers
  import opened Text
  import opened Seqs
  import opened ApiErrors
  import opened NationModel
  import opened UserModel
  import opened Store

  /** The new state, the new nation's id and the nation the response returns. */
  datatype Created = Created(state: State, id: NationId, nation: Nation)

  /** The request passes the handler's own checks: both fields, a known user, in no nation yet. */
  predicate ReadyToFound(s: State, name: string, address: string)
  {
    name != "" && address != "" && Lower(address) in s.users && s.users[Lower(address)].nationId.None?
  }

  /**
   * Checks the fields, the user and its affiliation, then inserts the nation
   * (schema validation first, then the unique `name` index) and points the
   * creator at it. `now` is the creation timestamp.
   */
  function Create(s: State, name: string, address: string, now: nat): (r: Result<Created, ApiError>)
    ensures name == "" || address == "" ==> r == Failure(NameAndAddressRequired)
    ensures name != "" && address != "" && Lower(address) !in s.users ==> r == Failure(WalletNotConnected)
    ensures (name != "" && address != "" && Lower(address) in s.users && s.users[Lower(address)].nationId.Some?)
              ==> r == Failure(AlreadyHasNation)
    ensures ReadyToFound(s, name, address) && Trim(name) == "" ==> r == Failure(NameRequired)
    ensures (ReadyToFound(s, name, address) && Trim(name) != "" && Utf16Length(Trim(name)) > MaxNameLength)
              ==> r == Failure(NameTooLong)
    ensures (ReadyToFound(s, name, address) && StoredName(Trim(name)) && NameTaken(s, Trim(name)))
              ==> r == Failure(DuplicateName)
    ensures r != Failure(FounderRequired)
    ensures r == Failure(DuplicateName) ==> NameTaken(s, Trim(name))
    ensures r.Success? <==> ReadyToFound(s, name, address) && StoredName(Trim(name)) && !NameTaken(s, Trim(name))
    ensures r.Success? ==>
              && r.value.id == s.nextId
              && r.value.nation.name == Trim(name)
              && r.value.nation.founderAddress == Lower(address)
              && r.value.nation.members == [address]
              && r.value.nation.memberCount == 1
              && !HasTerritory(r.value.nation) && r.value.nation.territory.None?
              && r.value.nation.createdAt == now
              && r.value.state.nations == s.nations[r.value.id := r.value.nation]
              && r.value.state.users == s.users[Lower(address) := s.users[Lower(address)].(nationId := Some(r.value.id))]
              && r.value.state.nextId == s.nextId + 1
  {
    if name == "" || address == "" then Failure(NameAndAddressRequired)
    else
      var key := Lower(address);
      if key !in s.users then Failure(WalletNotConnected)
      else if s.users[key].nationId.Some? then Failure(AlreadyHasNation)
      else
        match Build(name, address, 1, [address], now)
        case Failure(e) => Failure(e)
        case Success(n) =>
          if NameTaken(s, n.name) then Failure(DuplicateName)
          else
            var id := s.nextId;
            var users := s.users[key := s.users[key].(nationId := Some(id))];
            Success(Created(State(users, s.nations[id := n], id + 1), id, n))
  }

  /** A nation fresh from create satisfies the per-document invariant: founder listed, count one. */
  lemma CreatedNationConsistent(s: State, name: string, address: string, now: nat)
    requires Create(s, name, address, now).Success?
    ensures Consistent(Create(s, name, address, now).value.nation)
  {
    FoundedNationConsistent(Create(s, name, address, now).value.nation, address);
  }

  /** A nation whose founder is its only member, counted once, with no territory. */
  lemma FoundedNationConsistent(n: Nation, address: string)
    requires StoredName(n.name) && n.founderAddress == Lower(address)
    requires n.members == [address] && n.memberCount == 1 && n.territory.None?
    ensures Consistent(n) && MemberKeys(n.members) == [Lower(address)]
  {
    LowerIdempotent(address);
    assert MemberKeys(n.members) == [Lower(address)];
  }

  lemma CreatePreservesValid(s: State, name: string, address: string, now: nat)
    requires Valid(s)
    requires Create(s, name, address, now).Success?
    ensures Valid(Create(s, name, address, now).value.state)
  {
    var c := Create(s, name, address, now).value;
    var key := Lower(address);
    assert ReadyToFound(s, name, address) && !NameTaken(s, c.nation.name);
    assert c.state == State(s.users[key := s.users[key].(nationId := Some(c.id))], s.nations[c.id := c.nation], c.id + 1);
    FoundedNationConsistent(c.nation, address);
    InsertNationValid(s, c.state, c.id, c.nation, key);
  }

  /** Inserting a fresh, consistent, unclaimed nation with an unused name whose only member is an unaffiliated user. */
  lemma InsertNationValid(s: State, t: State, id: NationId, n: Nation, key: string)
    requires Valid(s)
    requires id == s.nextId && Consistent(n) && !HasTerritory(n) && !NameTaken(s, n.name)
    requires key in s.users && s.users[key].nationId.None? && MemberKeys(n.members) == [key]
    requires t == State(s.users[key := s.users[key].(nationId := Some(id))], s.nations[id := n], id + 1)
    ensures Valid(t)
  {
    assert id !in s.nations;
    InsertKeepsNames(s.nations, id, n);
    InsertKeepsTerritories(s.nations, id, n);
    assert IdsIssued(t.nations, t.nextId);
    assert AllConsistent(t.nations);
    CreateUserSide(s.users, s.nations, t.users, t.nations, key, id);
  }

  /** Pointing the creator at the new nation, of which it is the only member, keeps the user-side invariants. */
  lemma CreateUserSide(
    users: map<string, User>, nations: map<NationId, Nation>,
    users': map<string, User>, nations': map<NationId, Nation>,
    key: string, id: NationId)
    requires UsersStored(users) && UsersInTheirNation(users, nations) && MembersAreUsers(users, nations)
    requires key in users && users[key].nationId.None?
    requires users' == users[key := users[key].(nationId := Some(id))]
    requires id !in nations && id in nations' && nations' == nations[id := nations'[id]]
    requires MemberKeys(nations'[id].members) == [key]
    ensures UsersStored(users') && UsersInTheirNation(users', nations') && MembersAreUsers(users', nations')
  {
    forall a | a in users' && users'[a].nationId.Some?
      ensures users'[a].nationId.value in nations'
      ensures a in MemberKeys(nations'[users'[a].nationId.value].members)
    {
      if a != key {
        assert users'[a] == users[a];
      }
    }
    forall j, a | j in nations' && a in MemberKeys(nations'[j].members)
      ensures a in users' && users'[a].nationId == Some(j)
    {
      if j != id {
        assert a in MemberKeys(nations[j].members);
        assert users[a].nationId == Some(j);
      }
    }
  }
}
