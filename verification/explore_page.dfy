/**
 * The explore page's client-side logic: the member requirement of a state,
 * the map colour, the claim guard, the claimed-territories map, the search
 * box and the updates it applies to its nation list after a successful join,
 * leave, delete or claim.
 */
module ExplorePage {
  import opened Wrappers
  import opened Text
  import opened Seqs
  import opened Sorting
  import opened NationModel
  import opened UserModel
  import opened Store
  import opened StateTable
  import opened Listing
  import opened JoinRoute
  import opened LeaveRoute
  import opened DeleteRoute
  import opened ClaimRoute

  /** The value of the first entry named `name`, if any. */
  function FindRequirement(rows: seq<(string, nat)>, name: string): (r: Option<nat>)
    ensures r.None? <==> forall i :: 0 <= i < |rows| ==> rows[i].0 != name
    decreases |rows|
  {
    if rows == [] then None
    else if rows[0].0 == name then Some(rows[0].1)
    else FindRequirement(rows[1..], name)
  }

  /** With distinct names, the lookup of an entry's name finds that entry. */
  lemma {:induction false} FindRequirementAt(rows: seq<(string, nat)>, k: nat)
    requires k < |rows|
    requires forall i, j :: 0 <= i < j < |rows| ==> rows[i].0 != rows[j].0
    ensures FindRequirement(rows, rows[k].0) == Some(rows[k].1)
    decreases k
  {
    if k > 0 {
      assert rows[0].0 != rows[k].0;
      assert rows[1..][k - 1] == rows[k];
      FindRequirementAt(rows[1..], k - 1);
    }
  }

  /** `stateRequirements[name] || 1`: a missing (or zero) entry counts as one member. */
  function RequiredMembers(stateName: string): (r: nat)
    ensures r >= 1
    ensures FindRequirement(Requirements, stateName).None? ==> r == 1
  {
    match FindRequirement(Requirements, stateName)
    case Some(v) => if v != 0 then v else 1
    case None => 1
  }

  /** Every state of the table needs exactly the number the table gives it. */
  lemma RequiredMembersOfTable(k: nat)
    requires k < |Requirements|
    ensures RequiredMembers(Requirements[k].0) == Requirements[k].1
  {
    RequirementNamesDistinct();
    RequirementsAtLeastOne();
    FindRequirementAt(Requirements, k);
  }

  /** The explore page and the reward table agree on every state's requirement. */
  lemma RequiredMembersMatchesRewards(k: nat)
    requires k < |Rewards|
    ensures RequiredMembers(Rewards[k].state) == Rewards[k].requirement
  {
    TablesAgree();
    RequiredMembersOfTable(k);
  }

  /** The four map shades, darkest first. */
  datatype Shade = DarkBlue | MediumBlue | LightBlue | VeryLightBlue
  {
    function Hex(): string
    {
      match this
      case DarkBlue => "#1e40af"
      case MediumBlue => "#3b82f6"
      case LightBlue => "#60a5fa"
      case VeryLightBlue => "#93c5fd"
    }

    /** 3 for the darkest shade down to 0 for the lightest. */
    function Depth(): nat
    {
      match this
      case DarkBlue => 3
      case MediumBlue => 2
      case LightBlue => 1
      case VeryLightBlue => 0
    }
  }

  /** `getStateColor`'s buckets: at least 10, at least 5, at least 3, and the rest. */
  function ShadeFor(requirement: nat): (c: Shade)
    ensures c == DarkBlue <==> requirement >= 10
    ensures c == MediumBlue <==> 5 <= requirement < 10
    ensures c == LightBlue <==> 3 <= requirement < 5
    ensures c == VeryLightBlue <==> requirement < 3
  {
    if requirement >= 10 then DarkBlue
    else if requirement >= 5 then MediumBlue
    else if requirement >= 3 then LightBlue
    else VeryLightBlue
  }

  /** A state that needs more members is never drawn lighter. */
  lemma ShadeMonotone(a: nat, b: nat)
    requires a <= b
    ensures ShadeFor(a).Depth() <= ShadeFor(b).Depth()
  {
  }

  function StateColor(stateName: string): string
  {
    ShadeFor(RequiredMembers(stateName)).Hex()
  }

  /** A state missing from the table is drawn in the lightest shade. */
  lemma UnknownStateIsLightest(stateName: string)
    requires forall i :: 0 <= i < |Requirements| ==> Requirements[i].0 != stateName
    ensures StateColor(stateName) == "#93c5fd"
  {
  }

  /** The territories held by the nations of a list (those with a non-empty `territory`). */
  function Territories(list: seq<Entry>): set<string>
  {
    set i | 0 <= i < |list| && HasTerritory(list[i].nation) :: list[i].nation.territory.value
  }

  /**
   * The claimed-territories map: each territory to the nation of the list
   * holding it; when two entries hold the same one, the later wins.
   */
  function ClaimedMap(list: seq<Entry>): (m: map<string, Entry>)
    ensures m.Keys == Territories(list)
    ensures forall t :: t in m ==> m[t] in list && m[t].nation.territory == Some(t)
    decreases |list|
  {
    if list == [] then map[]
    else
      var init := list[..|list| - 1];
      var e := list[|list| - 1];
      var m := ClaimedMap(init);
      assert list == init + [e];
      assert Territories(list) == Territories(init) + (if HasTerritory(e.nation) then {e.nation.territory.value} else {}) by {
        forall t | t in Territories(list)
          ensures t in Territories(init) || (HasTerritory(e.nation) && t == e.nation.territory.value)
        {
          var i :| 0 <= i < |list| && HasTerritory(list[i].nation) && list[i].nation.territory.value == t;
          if i < |init| {
            assert list[i] == init[i];
          }
        }
        forall t | t in Territories(init)
          ensures t in Territories(list)
        {
          var i :| 0 <= i < |init| && HasTerritory(init[i].nation) && init[i].nation.territory.value == t;
          assert list[i] == init[i];
        }
      }
      if HasTerritory(e.nation) then m[e.nation.territory.value := e] else m
  }

  /** Why the page refuses a claim, in the order it checks. */
  datatype ClaimRejection =
    | NotFounder                   // "Only nation founders can claim territory"
    | TooFewMembers(required: nat) // "Your nation needs at least ... members to claim ..."
    | AlreadyClaimed(holder: string)   // "... is already claimed by ..."
    | NationHasTerritory           // "Your nation has already claimed a territory"

  datatype ClaimDecision =
    | NoAction
    | Reject(reason: ClaimRejection)
    | SendClaim(nationId: NationId, address: string, territory: string)

  /**
   * `handleClaimTerritory` up to the request: nothing without a connection, a
   * nation and an address; then founder, member threshold, territory already
   * claimed, nation already holding one; otherwise the claim request.
   */
  function ClaimGuard(connected: bool, userNation: Option<Entry>, address: string, stateName: string,
                      claimed: map<string, Entry>): (d: ClaimDecision)
    ensures d == NoAction <==> !connected || userNation.None? || address == ""
    ensures d == Reject(NotFounder) <==>
              connected && userNation.Some? && address != ""
              && Lower(userNation.value.nation.founderAddress) != Lower(address)
    ensures d.Reject? && d.reason.TooFewMembers? ==>
              && Lower(userNation.value.nation.founderAddress) == Lower(address)
              && d.reason.required == RequiredMembers(stateName)
              && userNation.value.nation.memberCount < d.reason.required
    ensures d.Reject? && d.reason.AlreadyClaimed? ==>
              && Lower(userNation.value.nation.founderAddress) == Lower(address)
              && userNation.value.nation.memberCount >= RequiredMembers(stateName)
              && stateName in claimed && d.reason.holder == claimed[stateName].nation.name
    ensures d == Reject(NationHasTerritory) ==>
              && Lower(userNation.value.nation.founderAddress) == Lower(address)
              && userNation.value.nation.memberCount >= RequiredMembers(stateName)
              && stateName !in claimed && HasTerritory(userNation.value.nation)
    ensures d.SendClaim? <==>
              && connected && userNation.Some? && address != ""
              && Lower(userNation.value.nation.founderAddress) == Lower(address)
              && userNation.value.nation.memberCount >= RequiredMembers(stateName)
              && stateName !in claimed
              && !HasTerritory(userNation.value.nation)
    ensures d.SendClaim? ==> d == SendClaim(userNation.value.id, address, stateName)
  {
    if !connected || userNation.None? || address == "" then NoAction
    else
      var n := userNation.value.nation;
      if Lower(n.founderAddress) != Lower(address) then Reject(NotFounder)
      else
        var required := RequiredMembers(stateName);
        if n.memberCount < required then Reject(TooFewMembers(required))
        else if stateName in claimed then Reject(AlreadyClaimed(claimed[stateName].nation.name))
        else if HasTerritory(n) then Reject(NationHasTerritory)
        else SendClaim(userNation.value.id, address, stateName)
  }

  /** The threshold is inclusive: exactly the required number of members passes, one fewer is refused. */
  lemma ThresholdBoundary(e: Entry, address: string, stateName: string, claimed: map<string, Entry>)
    requires address != "" && Lower(e.nation.founderAddress) == Lower(address)
    requires stateName !in claimed && !HasTerritory(e.nation)
    ensures e.nation.memberCount == RequiredMembers(stateName) ==>
              ClaimGuard(true, Some(e), address, stateName, claimed).SendClaim?
    ensures e.nation.memberCount + 1 == RequiredMembers(stateName) ==>
              ClaimGuard(true, Some(e), address, stateName, claimed)
              == Reject(TooFewMembers(RequiredMembers(stateName)))
  {
  }

  /** The page's list shows exactly the nations of the store, each as stored. */
  ghost predicate Shows(list: seq<Entry>, s: State)
  {
    forall e :: e in list <==> e.id in s.nations && e.nation == s.nations[e.id]
  }

  /**
   * A claim the page lets through, from a page showing the current store,
   * for a state with a name, is one the server accepts.
   */
  lemma GuardedClaimSucceeds(s: State, list: seq<Entry>, id: NationId, address: string, stateName: string)
    requires Shows(list, s) && id in s.nations && stateName != ""
    requires ClaimGuard(true, Some(Entry(id, s.nations[id])), address, stateName, ClaimedMap(list)).SendClaim?
    ensures Claim(s, Some(id), address, stateName).Success?
  {
    ShownTerritoriesAreClaimed(s, list, stateName);
  }

  /** Built from a page showing the store, the claimed-territories map knows every territory held. */
  lemma ShownTerritoriesAreClaimed(s: State, list: seq<Entry>, territory: string)
    requires Shows(list, s) && territory != ""
    ensures TerritoryTaken(s, territory) ==> territory in ClaimedMap(list)
  {
    if TerritoryTaken(s, territory) {
      var j :| j in s.nations && s.nations[j].territory == Some(territory);
      var e := Entry(j, s.nations[j]);
      assert e in list;
      var k :| 0 <= k < |list| && list[k] == e;
      assert territory in Territories(list);
    }
  }

  /**
   * The member threshold is the page's alone: the page refuses California to a
   * one-member nation, while the server grants the same claim.
   */
  lemma ThresholdIsClientOnly()
    ensures
      var founder := "0xab";
      var n := Nation("Solo", founder, 1, [founder], None, 0);
      var s := State(map[founder := User(founder, Some(0), 0)], map[0 := n], 1);
      && Valid(s)
      && ClaimGuard(true, Some(Entry(0, n)), founder, "California", ClaimedMap([Entry(0, n)]))
         == Reject(TooFewMembers(15))
      && Claim(s, Some(0), founder, "California").Success?
  {
    var founder := "0xab";
    var n := Nation("Solo", founder, 1, [founder], None, 0);
    ClaimWithSingleMember();
    assert Requirements[0] == ("California", 15);
    RequiredMembersOfTable(0);
    assert !HasTerritory(n);
    assert Territories([Entry(0, n)]) == {};
  }

  /** The search box: a blank term keeps the list, otherwise name or founder must contain it, ignoring case. */
  function SearchFilter(list: seq<Entry>, term: string): (r: seq<Entry>)
    ensures Trim(term) == "" ==> r == list
    ensures forall e :: e in r <==> e in list && Matches(e.nation, term)
    ensures |r| <= |list|
    ensures Subsequence(r, list)
    ensures forall e :: multiset(r)[e] == if Matches(e.nation, term) then multiset(list)[e] else 0
  {
    if Trim(term) == "" then
      SubsequenceOfSelf(list);
      list
    else
      var keep := (e: Entry) => ContainsIgnoringCase(e.nation.name, term)
                                || ContainsIgnoringCase(e.nation.founderAddress, term);
      FilterCounts(list, keep);
      FilterSubsequence(list, keep);
      Filter(list, keep)
  }

  /** The search box keeps the list's newest-first order. */
  lemma SearchFilterKeepsOrder(list: seq<Entry>, term: string)
    requires SortedBy(list, NewerOrSame)
    ensures SortedBy(SearchFilter(list, term), NewerOrSame)
  {
    if Trim(term) != "" {
      FilterKeepsSorted(list, (e: Entry) => ContainsIgnoringCase(e.nation.name, term)
                                            || ContainsIgnoringCase(e.nation.founderAddress, term), NewerOrSame);
    }
  }

  /** Applies `f` to the nation of every entry with this id and leaves the others as they are. */
  function UpdateWhere(list: seq<Entry>, id: NationId, f: Nation -> Nation): (r: seq<Entry>)
    ensures |r| == |list|
    ensures forall i :: 0 <= i < |r| ==> r[i].id == list[i].id
    ensures forall i :: 0 <= i < |r| && list[i].id != id ==> r[i] == list[i]
    ensures forall i :: 0 <= i < |r| && list[i].id == id ==> r[i].nation == f(list[i].nation)
  {
    seq(|list|, i requires 0 <= i < |list| => if list[i].id == id then Entry(id, f(list[i].nation)) else list[i])
  }

  /** After a join: the joined nation's count goes up by one. */
  function AfterJoin(list: seq<Entry>, id: NationId): seq<Entry>
  {
    UpdateWhere(list, id, (n: Nation) => n.(memberCount := n.memberCount + 1))
  }

  /** After a leave: the left nation's count goes down by one, not below zero. */
  function AfterLeave(list: seq<Entry>, id: NationId): seq<Entry>
  {
    UpdateWhere(list, id, (n: Nation) => n.(memberCount := Decrement(n.memberCount)))
  }

  /** After a claim: the nation holds the state. */
  function AfterClaim(list: seq<Entry>, id: NationId, stateName: string): seq<Entry>
  {
    UpdateWhere(list, id, (n: Nation) => n.(territory := Some(stateName)))
  }

  /** After a delete: every entry with that id is dropped, the rest keep their order. */
  function RemoveNation(list: seq<Entry>, id: NationId): (r: seq<Entry>)
    ensures forall e :: e in r <==> e in list && e.id != id
    ensures |r| <= |list|
    ensures Subsequence(r, list)
    ensures forall e :: multiset(r)[e] == if e.id != id then multiset(list)[e] else 0
  {
    FilterCounts(list, (e: Entry) => e.id != id);
    FilterSubsequence(list, (e: Entry) => e.id != id);
    Filter(list, (e: Entry) => e.id != id)
  }

  /** Every listed nation exists in the store with the count the list shows. */
  predicate CountsAgree(list: seq<Entry>, s: State)
  {
    forall i :: 0 <= i < |list| ==>
      list[i].id in s.nations && list[i].nation.memberCount == s.nations[list[i].id].memberCount
  }

  /** The page's count after a join is the server's. */
  lemma JoinUpdateMatchesServer(list: seq<Entry>, s: State, id: NationId, address: string)
    requires CountsAgree(list, s)
    requires Join(s, Some(id), address).Success?
    ensures CountsAgree(AfterJoin(list, id), Join(s, Some(id), address).value.state)
  {
  }

  /** The page's count after a leave is the server's, also when the nation had vanished. */
  lemma LeaveUpdateMatchesServer(list: seq<Entry>, s: State, address: string)
    requires CountsAgree(list, s)
    requires Leave(s, address).Success?
    ensures CountsAgree(AfterLeave(list, s.users[Lower(address)].nationId.value), Leave(s, address).value)
  {
    var id := s.users[Lower(address)].nationId.value;
    var r := AfterLeave(list, id);
    var t := Leave(s, address).value;
    forall i | 0 <= i < |r|
      ensures r[i].id in t.nations && r[i].nation.memberCount == t.nations[r[i].id].memberCount
    {
      assert list[i].id in s.nations;
    }
  }

  /** After a delete the page lists the remaining nations with their counts, and drops no other nation. */
  lemma DeleteUpdateMatchesServer(list: seq<Entry>, s: State, id: NationId, address: string)
    requires CountsAgree(list, s)
    requires Delete(s, Some(id), address).Success?
    ensures CountsAgree(RemoveNation(list, id), Delete(s, Some(id), address).value)
    ensures forall e :: e in list && e.id != id ==> e in RemoveNation(list, id)
  {
    var r := RemoveNation(list, id);
    forall i | 0 <= i < |r|
      ensures r[i].id in Delete(s, Some(id), address).value.nations
      ensures r[i].nation.memberCount == Delete(s, Some(id), address).value.nations[r[i].id].memberCount
    {
      assert r[i] in list;
      var k :| 0 <= k < |list| && list[k] == r[i];
    }
  }

  /** A page showing the store still shows it exactly after it records a claim the server accepted. */
  lemma ClaimUpdateMatchesServer(list: seq<Entry>, s: State, id: NationId, address: string, stateName: string)
    requires Shows(list, s)
    requires Claim(s, Some(id), address, stateName).Success?
    ensures Shows(AfterClaim(list, id, stateName), Claim(s, Some(id), address, stateName).value.state)
  {
    var r := AfterClaim(list, id, stateName);
    var t := Claim(s, Some(id), address, stateName).value.state;
    forall e
      ensures e in r <==> e.id in t.nations && e.nation == t.nations[e.id]
    {
      if e in r {
        var i :| 0 <= i < |r| && r[i] == e;
        assert list[i] in list;
      }
      if e.id in t.nations && e.nation == t.nations[e.id] {
        var before := Entry(e.id, s.nations[e.id]);
        assert before in list;
        var i :| 0 <= i < |list| && list[i] == before;
        assert r[i] == e;
      }
    }
  }
}
