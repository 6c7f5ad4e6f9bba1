/**
 * `POST /api/nations/claim`: the founder claims one territory, once, for its
 * nation. The route demands no minimum number of members.
 */
module ClaimRoute {
  import opened Wrappers
  import opened Text
  import opened ApiErrors
  import opened NationModel
  import opened UserModel
  import opened Store

  /** The new state and the updated nation the response returns. */
  datatype Claimed = Claimed(state: State, nation: Nation)

  /**
   * Checks the three fields, the nation, that the requester is its founder
   * ignoring case, that the nation has no territory yet and that no nation
   * holds this one, then records the territory. The user collection is not
   * consulted.
   */
  function Claim(s: State, nationId: Option<NationId>, address: string, territory: string)
    : (r: Result<Claimed, ApiError>)
    ensures nationId.None? || address == "" || territory == "" ==> r == Failure(MissingRequiredFields)
    ensures (nationId.Some? && address != "" && territory != "" && nationId.value !in s.nations)
              ==> r == Failure(NationNotFound)
    ensures r == Failure(OnlyFounderCanClaim) <==>
              && nationId.Some? && address != "" && territory != "" && nationId.value in s.nations
              && Lower(s.nations[nationId.value].founderAddress) != Lower(address)
    ensures r == Failure(NationAlreadyHasTerritory) <==>
              && nationId.Some? && address != "" && territory != "" && nationId.value in s.nations
              && Lower(s.nations[nationId.value].founderAddress) == Lower(address)
              && HasTerritory(s.nations[nationId.value])
    ensures r == Failure(TerritoryAlreadyClaimed) <==>
              && nationId.Some? && address != "" && territory != "" && nationId.value in s.nations
              && Lower(s.nations[nationId.value].founderAddress) == Lower(address)
              && !HasTerritory(s.nations[nationId.value]) && TerritoryTaken(s, territory)
    ensures r.Success? <==>
              && nationId.Some? && address != "" && territory != ""
              && nationId.value in s.nations
              && Lower(s.nations[nationId.value].founderAddress) == Lower(address)
              && !HasTerritory(s.nations[nationId.value])
              && !TerritoryTaken(s, territory)
    ensures r.Success? ==>
              && r.value.nation == s.nations[nationId.value].(territory := Some(territory))
              && r.value.state == s.(nations := s.nations[nationId.value := r.value.nation])
  {
    if nationId.None? || address == "" || territory == "" then Failure(MissingRequiredFields)
    else
      var id := nationId.value;
      if id !in s.nations then Failure(NationNotFound)
      else
        var n := s.nations[id];
        if Lower(n.founderAddress) != Lower(address) then Failure(OnlyFounderCanClaim)
        else if HasTerritory(n) then Failure(NationAlreadyHasTerritory)
        else if TerritoryTaken(s, territory) then Failure(TerritoryAlreadyClaimed)
        else
          var n' := n.(territory := Some(territory));
          Success(Claimed(s.(nations := s.nations[id := n']), n'))
  }

  /** A claim is one-time: once it succeeds, claiming again for the same nation is refused. */
  lemma ClaimIsOneTime(s: State, id: NationId, address: string, territory: string, other: string)
    requires Claim(s, Some(id), address, territory).Success?
    requires other != ""
    ensures Claim(Claim(s, Some(id), address, territory).value.state, Some(id), address, other)
            == Failure(NationAlreadyHasTerritory)
  {
  }

  /** Once a territory is held, another nation's claim of it is refused even when everything else is in order. */
  lemma ClaimedTerritoryIsTaken(s: State, id: NationId, address: string, territory: string,
                                other: NationId, otherFounder: string)
    requires Claim(s, Some(id), address, territory).Success?
    requires other in s.nations && other != id && !HasTerritory(s.nations[other])
    requires otherFounder != "" && Lower(otherFounder) == Lower(s.nations[other].founderAddress)
    ensures Claim(Claim(s, Some(id), address, territory).value.state, Some(other), otherFounder, territory)
            == Failure(TerritoryAlreadyClaimed)
  {
    var t := Claim(s, Some(id), address, territory).value.state;
    assert t.nations[id].territory == Some(territory);
  }

  /**
   * The number of members plays no part: a founder whose nation has only the
   * founder as member gets its claim through.
   */
  lemma ClaimWithSingleMember()
    ensures
      var founder := "0xab";
      var n := Nation("Solo", founder, 1, [founder], None, 0);
      var s := State(map[founder := User(founder, Some(0), 0)], map[0 := n], 1);
      && Valid(s)
      && Claim(s, Some(0), founder, "Texas").Success?
  {
    var founder := "0xab";
    var n := Nation("Solo", founder, 1, [founder], None, 0);
    var s := State(map[founder := User(founder, Some(0), 0)], map[0 := n], 1);
    assert Lower(founder) == founder;
    assert MemberKeys(n.members) == [founder];
    assert Trimmed(n.name);
    assert !TerritoryTaken(s, "Texas");
  }

  lemma ClaimPreservesValid(s: State, nationId: Option<NationId>, address: string, territory: string)
    requires Valid(s)
    requires Claim(s, nationId, address, territory).Success?
    ensures Valid(Claim(s, nationId, address, territory).value.state)
  {
    var c := Claim(s, nationId, address, territory).value;
    var id := nationId.value;
    assert Consistent(s.nations[id]);
    assert Consistent(c.nation);
    ReplaceKeepsConsistent(s.nations, s.nextId, id, c.nation);
    ReplaceKeepsNames(s.nations, id, c.nation);
    ReplaceKeepsTerritories(s.nations, id, c.nation);
    ClaimUserSide(s.users, s.nations, id, c.nation);
  }

  /** Changing only a nation's territory keeps the user-side invariants. */
  lemma ClaimUserSide(users: map<string, User>, nations: map<NationId, Nation>, id: NationId, n: Nation)
    requires UsersInTheirNation(users, nations) && MembersAreUsers(users, nations)
    requires id in nations && n.members == nations[id].members
    ensures UsersInTheirNation(users, nations[id := n]) && MembersAreUsers(users, nations[id := n])
  {
    var nations' := nations[id := n];
    forall a | a in users && users[a].nationId.Some?
      ensures users[a].nationId.value in nations'
      ensures a in MemberKeys(nations'[users[a].nationId.value].members)
    {
    }
    forall j, a | j in nations' && a in MemberKeys(nations'[j].members)
      ensures a in users && users[a].nationId == Some(j)
    {
      assert a in MemberKeys(nations[j].members);
    }
  }
}
