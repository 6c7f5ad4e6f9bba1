/** `POST /api/nations/join`: an unaffiliated user joins an existing nation. */
module JoinRoute {
  import opened Wrappers
  import opened Text
  import opened Seqs
  import opened ApiErrors
  import opened NationModel
  import opened UserModel
  import opened Store

  /** The new state and the updated nation the response returns. */
  datatype Joined = Joined(state: State, nation: Nation)

  /**
   * Checks the fields, the user, its affiliation and the nation, then points
   * the user at the nation, bumps `memberCount` and appends the address as
   * the request spelled it. An absent `nationId` is `None`.
   */
  function Join(s: State, nationId: Option<NationId>, address: string): (r: Result<Joined, ApiError>)
    ensures nationId.None? || address == "" ==> r == Failure(NationIdAndAddressRequired)
    ensures (nationId.Some? && address != "" && Lower(address) !in s.users) ==> r == Failure(WalletNotConnected)
    ensures (nationId.Some? && address != "" && Lower(address) in s.users && s.users[Lower(address)].nationId.Some?)
              ==> r == Failure(AlreadyBelongsToNation)
    ensures r == Failure(NationNotFound) <==>
              && nationId.Some? && address != ""
              && Lower(address) in s.users && s.users[Lower(address)].nationId.None?
              && nationId.value !in s.nations
    ensures r.Success? <==>
              && nationId.Some? && address != ""
              && Lower(address) in s.users && s.users[Lower(address)].nationId.None?
              && nationId.value in s.nations
    ensures r.Success? ==>
              var id := nationId.value;
              && r.value.nation == s.nations[id].(memberCount := s.nations[id].memberCount + 1,
                                                  members := s.nations[id].members + [address])
              && r.value.state.nations == s.nations[id := r.value.nation]
              && r.value.state.users == s.users[Lower(address) := s.users[Lower(address)].(nationId := Some(id))]
              && r.value.state.nextId == s.nextId
  {
    if nationId.None? || address == "" then Failure(NationIdAndAddressRequired)
    else
      var key := Lower(address);
      if key !in s.users then Failure(WalletNotConnected)
      else if s.users[key].nationId.Some? then Failure(AlreadyBelongsToNation)
      else
        var id := nationId.value;
        if id !in s.nations then Failure(NationNotFound)
        else
          var n := s.nations[id];
          var n' := n.(memberCount := n.memberCount + 1, members := n.members + [address]);
          var users := s.users[key := s.users[key].(nationId := Some(id))];
          Success(Joined(s.(users := users, nations := s.nations[id := n']), n'))
  }

  /** Appending an address whose lower-case form is not yet a member keeps the member keys distinct. */
  lemma DistinctSnoc(keys: seq<string>, k: string)
    requires Distinct(keys) && k !in keys
    ensures Distinct(keys + [k])
  {
    var t := keys + [k];
    forall i, j | 0 <= i < j < |t|
      ensures t[i] != t[j]
    {
      assert t[i] == keys[i];
    }
  }

  /**
   * In a valid state the joined nation still satisfies the per-document
   * invariant: the joiner was in no nation, so it is not already a member,
   * and the count grows with the list.
   */
  lemma JoinedNationConsistent(s: State, nationId: Option<NationId>, address: string)
    requires Valid(s)
    requires Join(s, nationId, address).Success?
    ensures Consistent(Join(s, nationId, address).value.nation)
    ensures MemberKeys(Join(s, nationId, address).value.nation.members)
            == MemberKeys(s.nations[nationId.value].members) + [Lower(address)]
  {
    var id := nationId.value;
    var key := Lower(address);
    var n := s.nations[id];
    assert Consistent(n);
    assert key !in MemberKeys(n.members) by {
      assert MembersAreUsers(s.users, s.nations);
    }
    MemberKeysAppend(n.members, address);
    DistinctSnoc(MemberKeys(n.members), key);
  }

  lemma JoinPreservesValid(s: State, nationId: Option<NationId>, address: string)
    requires Valid(s)
    requires Join(s, nationId, address).Success?
    ensures Valid(Join(s, nationId, address).value.state)
  {
    var j := Join(s, nationId, address).value;
    var id := nationId.value;
    JoinedNationConsistent(s, nationId, address);
    ReplaceKeepsConsistent(s.nations, s.nextId, id, j.nation);
    ReplaceKeepsNames(s.nations, id, j.nation);
    ReplaceKeepsTerritories(s.nations, id, j.nation);
    JoinUserSide(s.users, s.nations, j.state.users, j.state.nations, Lower(address), id);
  }

  /** Pointing the joiner at the nation whose members gained the joiner keeps the user-side invariants. */
  lemma JoinUserSide(
    users: map<string, User>, nations: map<NationId, Nation>,
    users': map<string, User>, nations': map<NationId, Nation>,
    key: string, id: NationId)
    requires UsersStored(users) && UsersInTheirNation(users, nations) && MembersAreUsers(users, nations)
    requires key in users && users[key].nationId.None? && id in nations
    requires users' == users[key := users[key].(nationId := Some(id))]
    requires nations'.Keys == nations.Keys
    requires forall j :: j in nations && j != id ==> nations'[j] == nations[j]
    requires MemberKeys(nations'[id].members) == MemberKeys(nations[id].members) + [key]
    ensures UsersStored(users') && UsersInTheirNation(users', nations') && MembersAreUsers(users', nations')
  {
    forall a | a in users' && users'[a].nationId.Some?
      ensures users'[a].nationId.value in nations'
      ensures a in MemberKeys(nations'[users'[a].nationId.value].members)
    {
      if a != key {
        assert users'[a] == users[a];
        var j := users[a].nationId.value;
        assert a in MemberKeys(nations[j].members);
      }
    }
    forall j, a | j in nations' && a in MemberKeys(nations'[j].members)
      ensures a in users' && users'[a].nationId == Some(j)
    {
      if j != id {
        assert a in MemberKeys(nations[j].members);
        assert users[a].nationId == Some(j);
      } else if a != key {
        assert a in MemberKeys(nations[id].members);
        assert users[a].nationId == Some(id);
      }
    }
  }
}
