/** `POST /api/nations/leave`: a member other than the founder leaves its nation. */
module LeaveRoute {
  import opened Wrappers
  import opened Text
  import opened Seqs
  import opened ApiErrors
  import opened NationModel
  import opened UserModel
  import opened Store
  import opened JoinRoute

  /** `Math.max(0, memberCount - 1)`. */
  function Decrement(count: nat): (r: nat)
    ensures count > 0 ==> r + 1 == count
    ensures count == 0 ==> r == 0
  {
    if count == 0 then 0 else count - 1
  }

  /**
   * Checks the address, the user and its affiliation. A user whose nation no
   * longer exists is simply detached. The founder may not leave; anyone else
   * is removed from `members` (every spelling of the address, ignoring case),
   * the count drops by one but not below zero, and the user is detached.
   */
  function Leave(s: State, address: string): (r: Result<State, ApiError>)
    ensures address == "" ==> r == Failure(AddressRequired)
    ensures (address != "" && Lower(address) !in s.users) ==> r == Failure(WalletNotConnected)
    ensures (address != "" && Lower(address) in s.users && s.users[Lower(address)].nationId.None?)
              ==> r == Failure(NotAMember)
    ensures r == Failure(FounderCannotLeave) <==>
              && address != "" && Lower(address) in s.users && s.users[Lower(address)].nationId.Some?
              && s.users[Lower(address)].nationId.value in s.nations
              && Lower(s.nations[s.users[Lower(address)].nationId.value].founderAddress) == Lower(address)
    ensures r.Success? <==>
              && address != "" && Lower(address) in s.users && s.users[Lower(address)].nationId.Some?
              && (|| s.users[Lower(address)].nationId.value !in s.nations
                  || Lower(s.nations[s.users[Lower(address)].nationId.value].founderAddress) != Lower(address))
    ensures r.Success? ==>
              && Lower(address) in s.users && s.users[Lower(address)].nationId.Some?
              && r.value.users == s.users[Lower(address) := s.users[Lower(address)].(nationId := None)]
              && r.value.nextId == s.nextId
    ensures r.Success? && s.users[Lower(address)].nationId.value !in s.nations ==> r.value.nations == s.nations
    ensures r.Success? && s.users[Lower(address)].nationId.value in s.nations ==>
              var id := s.users[Lower(address)].nationId.value;
              var n := s.nations[id];
              && Lower(n.founderAddress) != Lower(address)
              && r.value.nations == s.nations[id := n.(memberCount := Decrement(n.memberCount),
                                                      members := RemoveMember(n.members, Lower(address)))]
  {
    if address == "" then Failure(AddressRequired)
    else
      var key := Lower(address);
      if key !in s.users then Failure(WalletNotConnected)
      else
        var user := s.users[key];
        if user.nationId.None? then Failure(NotAMember)
        else
          var id := user.nationId.value;
          var detached := s.users[key := user.(nationId := None)];
          if id !in s.nations then Success(s.(users := detached))
          else
            var n := s.nations[id];
            if Lower(n.founderAddress) == key then Failure(FounderCannotLeave)
            else
              var n' := n.(memberCount := Decrement(n.memberCount), members := RemoveMember(n.members, key));
              Success(s.(users := detached, nations := s.nations[id := n']))
  }

  /** In a valid state the founder of a nation always gets `FounderCannotLeave`, whatever the case of the address. */
  lemma FounderCannotLeaveOwnNation(s: State, id: NationId, address: string)
    requires Valid(s) && id in s.nations && Lower(address) == s.nations[id].founderAddress
    ensures Leave(s, address) == Failure(FounderCannotLeave)
  {
    FounderIsAffiliated(s, id);
    assert address != "" by {
      assert Consistent(s.nations[id]);
    }
  }

  /**
   * In a valid state, a member who is not the founder leaves: the nation
   * loses exactly that member, and the count still equals the list length.
   */
  lemma LeftNationConsistent(s: State, address: string)
    requires Valid(s)
    requires Leave(s, address).Success?
    ensures s.users[Lower(address)].nationId.value in s.nations
    ensures Consistent(Leave(s, address).value.nations[s.users[Lower(address)].nationId.value])
    ensures forall a :: a in MemberKeys(Leave(s, address).value.nations[s.users[Lower(address)].nationId.value].members)
              <==> a in MemberKeys(s.nations[s.users[Lower(address)].nationId.value].members) && a != Lower(address)
  {
    var key := Lower(address);
    var id := s.users[key].nationId.value;
    assert UsersInTheirNation(s.users, s.nations);
    var n := s.nations[id];
    assert Consistent(n);
    var n' := Leave(s, address).value.nations[id];
    RemoveMemberOnce(n.members, key);
    RemoveMemberKeys(n.members, key);
    assert n.founderAddress in MemberKeys(n'.members);
  }

  lemma LeavePreservesValid(s: State, address: string)
    requires Valid(s)
    requires Leave(s, address).Success?
    ensures Valid(Leave(s, address).value)
  {
    var t := Leave(s, address).value;
    var key := Lower(address);
    LeftNationConsistent(s, address);
    var id := s.users[key].nationId.value;
    ReplaceKeepsConsistent(s.nations, s.nextId, id, t.nations[id]);
    ReplaceKeepsNames(s.nations, id, t.nations[id]);
    ReplaceKeepsTerritories(s.nations, id, t.nations[id]);
    LeaveUserSide(s.users, s.nations, t.users, t.nations, key, id);
  }

  /** Detaching the leaver from the nation that dropped it keeps the user-side invariants. */
  lemma LeaveUserSide(
    users: map<string, User>, nations: map<NationId, Nation>,
    users': map<string, User>, nations': map<NationId, Nation>,
    key: string, id: NationId)
    requires UsersStored(users) && UsersInTheirNation(users, nations) && MembersAreUsers(users, nations)
    requires key in users && users[key].nationId == Some(id) && id in nations
    requires users' == users[key := users[key].(nationId := None)]
    requires nations'.Keys == nations.Keys
    requires forall j :: j in nations && j != id ==> nations'[j] == nations[j]
    requires forall a :: a in MemberKeys(nations'[id].members) <==> a in MemberKeys(nations[id].members) && a != key
    ensures UsersStored(users') && UsersInTheirNation(users', nations') && MembersAreUsers(users', nations')
  {
    forall a | a in users' && users'[a].nationId.Some?
      ensures users'[a].nationId.value in nations'
      ensures a in MemberKeys(nations'[users'[a].nationId.value].members)
    {
      assert a != key;
      assert users'[a] == users[a];
      var j := users[a].nationId.value;
      assert a in MemberKeys(nations[j].members);
    }
    forall j, a | j in nations' && a in MemberKeys(nations'[j].members)
      ensures a in users' && users'[a].nationId == Some(j)
    {
      if j != id {
        assert a in MemberKeys(nations[j].members);
        assert users[a].nationId == Some(j);
      } else {
        assert a in MemberKeys(nations[id].members) && a != key;
        assert users[a].nationId == Some(id);
      }
    }
  }

  /** Leaving right after joining restores the state as it was before the join. */
  lemma JoinThenLeave(s: State, id: NationId, address: string)
    requires Valid(s)
    requires Join(s, Some(id), address).Success?
    ensures Leave(Join(s, Some(id), address).value.state, address) == Success(s)
  {
    var key := Lower(address);
    var n := s.nations[id];
    assert Consistent(n);
    assert key !in MemberKeys(n.members) by {
      assert MembersAreUsers(s.users, s.nations);
    }
    LeaveUndoesJoin(s, Join(s, Some(id), address).value.state, id, address);
  }

  /**
   * From the state a join produced, the joiner's leave detaches it and
   * removes it from the nation, which is the state before the join.
   */
  lemma LeaveUndoesJoin(s: State, t: State, id: NationId, address: string)
    requires id in s.nations && Consistent(s.nations[id]) && Lower(address) !in MemberKeys(s.nations[id].members)
    requires address != "" && Lower(address) in s.users && s.users[Lower(address)].nationId.None?
    requires t.nations == s.nations[id := s.nations[id].(memberCount := s.nations[id].memberCount + 1,
                                                        members := s.nations[id].members + [address])]
    requires t.users == s.users[Lower(address) := s.users[Lower(address)].(nationId := Some(id))]
    requires t.nextId == s.nextId
    ensures Leave(t, address) == Success(s)
  {
    var key := Lower(address);
    var n := s.nations[id];
    UndoJoin(n, address);
    MemberLeaves(t, address, id);
    assert t.users[key := t.users[key].(nationId := None)] == s.users;
    assert t.nations[id := n] == s.nations;
  }

  /** A member who is not the founder of an existing nation leaves it. */
  lemma MemberLeaves(s: State, address: string, id: NationId)
    requires address != "" && Lower(address) in s.users && s.users[Lower(address)].nationId == Some(id)
    requires id in s.nations && Lower(s.nations[id].founderAddress) != Lower(address)
    ensures Leave(s, address) == Success(s.(
              users := s.users[Lower(address) := s.users[Lower(address)].(nationId := None)],
              nations := s.nations[id := s.nations[id].(memberCount := Decrement(s.nations[id].memberCount),
                                                        members := RemoveMember(s.nations[id].members, Lower(address)))]))
  {
  }

  /** Removing the address just appended to a nation that did not list it gives the nation back. */
  lemma UndoJoin(n: Nation, address: string)
    requires Consistent(n) && Lower(address) !in MemberKeys(n.members)
    ensures Lower(n.founderAddress) != Lower(address)
    ensures n.(memberCount := Decrement(n.memberCount + 1),
               members := RemoveMember(n.members + [address], Lower(address))) == n
  {
    var key := Lower(address);
    FilterAppend(n.members, [address], (m: string) => Lower(m) != key);
    RemoveMemberOnce(n.members, key);
  }
}
