/**
 * The two collections the API routes share, `users` keyed by address and
 * `nations` keyed by id, and the cross-document invariant the routes keep.
 */
module Store {
  import opened Wrappers
  import opened Text
  import opened Seqs
  import opened NationModel
  import opened UserModel

  /** A nation together with its id, as the routes return it (`_id` plus the fields). */
  datatype Entry = Entry(id: NationId, nation: Nation)

  /**
   * The database. `nextId` stands for the id generator: every id handed out
   * so far is below it, so a new document never reuses an id.
   */
  datatype State = State(users: map<string, User>, nations: map<NationId, Nation>, nextId: NationId)

  const Empty := State(map[], map[], 0)

  /** Each user is stored under its own address, which is present and lower-case (unique index on `address`). */
  predicate UsersStored(users: map<string, User>)
  {
    forall a :: a in users ==> users[a].address == a && StoredAddress(a)
  }

  predicate IdsIssued(nations: map<NationId, Nation>, nextId: NationId)
  {
    forall id :: id in nations ==> id < nextId
  }

  predicate AllConsistent(nations: map<NationId, Nation>)
  {
    forall id :: id in nations ==> Consistent(nations[id])
  }

  /** A user's `nationId`, when set, names an existing nation that lists the user among its members. */
  predicate UsersInTheirNation(users: map<string, User>, nations: map<NationId, Nation>)
  {
    forall a :: a in users && users[a].nationId.Some? ==>
      && users[a].nationId.value in nations
      && a in MemberKeys(nations[users[a].nationId.value].members)
  }

  /** Every member of a nation is a user whose `nationId` is that nation. */
  predicate MembersAreUsers(users: map<string, User>, nations: map<NationId, Nation>)
  {
    forall id, a :: id in nations && a in MemberKeys(nations[id].members) ==>
      a in users && users[a].nationId == Some(id)
  }

  /** The unique index on `name`. */
  predicate NamesUnique(nations: map<NationId, Nation>)
  {
    forall i, j :: i in nations && j in nations && i != j ==> nations[i].name != nations[j].name
  }

  /** The sparse unique index on `territory`: any number of nations may have none. */
  predicate TerritoriesUnique(nations: map<NationId, Nation>)
  {
    forall i, j :: i in nations && j in nations && i != j && nations[i].territory.Some? ==>
      nations[i].territory != nations[j].territory
  }

  predicate Valid(s: State)
  {
    && UsersStored(s.users)
    && IdsIssued(s.nations, s.nextId)
    && AllConsistent(s.nations)
    && UsersInTheirNation(s.users, s.nations)
    && MembersAreUsers(s.users, s.nations)
    && NamesUnique(s.nations)
    && TerritoriesUnique(s.nations)
  }

  /** Some nation already has this name (the duplicate-key condition of the `name` index). */
  predicate NameTaken(s: State, name: string)
  {
    exists id :: id in s.nations && s.nations[id].name == name
  }

  /** `Nation.findOne({ territory })` finds a document. */
  predicate TerritoryTaken(s: State, territory: string)
  {
    exists id :: id in s.nations && s.nations[id].territory == Some(territory)
  }

  lemma EmptyIsValid()
    ensures Valid(Empty)
  {
  }

  /** In a valid state an address is a member of at most one nation. */
  lemma MemberOfOneNation(s: State, a: string, i: NationId, j: NationId)
    requires Valid(s)
    requires i in s.nations && a in MemberKeys(s.nations[i].members)
    requires j in s.nations && a in MemberKeys(s.nations[j].members)
    ensures i == j
  {
    assert MembersAreUsers(s.users, s.nations);
    assert s.users[a].nationId == Some(i) && s.users[a].nationId == Some(j);
  }

  /** In a valid state the founder of a nation is a user affiliated with it. */
  lemma FounderIsAffiliated(s: State, id: NationId)
    requires Valid(s) && id in s.nations
    ensures s.nations[id].founderAddress in s.users
    ensures s.users[s.nations[id].founderAddress].nationId == Some(id)
  {
  }

  // The nation-side invariants under the three kinds of write: insert, replace, delete.

  lemma InsertKeepsNames(nations: map<NationId, Nation>, id: NationId, n: Nation)
    requires NamesUnique(nations) && id !in nations
    requires forall j :: j in nations ==> nations[j].name != n.name
    ensures NamesUnique(nations[id := n])
  {
  }

  lemma InsertKeepsTerritories(nations: map<NationId, Nation>, id: NationId, n: Nation)
    requires TerritoriesUnique(nations) && id !in nations && n.territory.None?
    ensures TerritoriesUnique(nations[id := n])
  {
  }

  lemma ReplaceKeepsNames(nations: map<NationId, Nation>, id: NationId, n: Nation)
    requires NamesUnique(nations) && id in nations && n.name == nations[id].name
    ensures NamesUnique(nations[id := n])
  {
  }

  /** Replacing a nation keeps territories unique if its territory is unchanged or held by no one. */
  lemma ReplaceKeepsTerritories(nations: map<NationId, Nation>, id: NationId, n: Nation)
    requires TerritoriesUnique(nations) && id in nations
    requires n.territory == nations[id].territory
             || (n.territory.Some? && forall j :: j in nations ==> nations[j].territory != n.territory)
    ensures TerritoriesUnique(nations[id := n])
  {
  }

  lemma ReplaceKeepsConsistent(nations: map<NationId, Nation>, nextId: NationId, id: NationId, n: Nation)
    requires IdsIssued(nations, nextId) && AllConsistent(nations) && id in nations && Consistent(n)
    ensures IdsIssued(nations[id := n], nextId) && AllConsistent(nations[id := n])
  {
  }

  lemma RemoveKeepsNationInvariants(nations: map<NationId, Nation>, nextId: NationId, id: NationId)
    requires IdsIssued(nations, nextId) && AllConsistent(nations)
    requires NamesUnique(nations) && TerritoriesUnique(nations)
    ensures IdsIssued(nations - {id}, nextId) && AllConsistent(nations - {id})
    ensures NamesUnique(nations - {id}) && TerritoriesUnique(nations - {id})
  {
  }
}
