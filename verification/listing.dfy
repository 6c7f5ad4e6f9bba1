/**
 * `GET /api/nations/search` and `GET /api/nations`: read-only listings of
 * the nation collection, newest first.
 */
module Listing {
  import opened Text
  import opened Sorting
  import opened NationModel
  import opened Store

  /**
   * The search filter: an absent, empty or blank query selects every nation;
   * otherwise a nation matches when its name or founder contains the query,
   * ignoring case. The query is matched as a literal, untrimmed.
   */
  predicate Matches(n: Nation, q: string)
  {
    Trim(q) == "" || ContainsIgnoringCase(n.name, q) || ContainsIgnoringCase(n.founderAddress, q)
  }

  function MatchingIds(nations: map<NationId, Nation>, q: string): set<NationId>
  {
    set id | id in nations && Matches(nations[id], q)
  }

  /** `sort({ createdAt: -1 })`: `a` may precede `b` when it is at least as new. */
  predicate NewerOrSame(a: Entry, b: Entry)
  {
    a.nation.createdAt >= b.nation.createdAt
  }

  lemma NewestFirstIsPreorder()
    ensures TotalPreorder(NewerOrSame)
  {
  }

  /** `Nation.find(query)`: every matching nation once, in the store's own order. */
  method Collect(nations: map<NationId, Nation>, q: string) returns (r: seq<Entry>)
    ensures forall e :: e in r <==> e.id in nations && e.nation == nations[e.id] && Matches(e.nation, q)
    ensures |r| == |MatchingIds(nations, q)|
  {
    r := [];
    var rest := nations.Keys;
    ghost var taken: set<NationId> := {};
    while rest != {}
      invariant rest <= nations.Keys
      invariant taken == set id | id in nations && id !in rest && Matches(nations[id], q)
      invariant forall e :: e in r <==> e.id in taken && e.nation == nations[e.id]
      invariant |r| == |taken|
      decreases |rest|
    {
      var id :| id in rest;
      if Matches(nations[id], q) {
        r := r + [Entry(id, nations[id])];
        taken := taken + {id};
      }
      rest := rest - {id};
    }
    assert taken == MatchingIds(nations, q);
  }

  /** The search route: the matching nations, each once, newest first; `count` is the length. */
  method Search(s: State, q: string) returns (r: seq<Entry>)
    ensures forall e :: e in r <==> e.id in s.nations && e.nation == s.nations[e.id] && Matches(e.nation, q)
    ensures |r| == |MatchingIds(s.nations, q)|
    ensures SortedBy(r, NewerOrSame)
  {
    var found := Collect(s.nations, q);
    NewestFirstIsPreorder();
    r := SortBy(found, NewerOrSame);
    SortByMembers(found, NewerOrSame);
  }

  /** The list route: every nation, each once, newest first. */
  method ListAll(s: State) returns (r: seq<Entry>)
    ensures forall e :: e in r <==> e.id in s.nations && e.nation == s.nations[e.id]
    ensures |r| == |s.nations|
    ensures SortedBy(r, NewerOrSame)
  {
    r := Search(s, "");
    assert MatchingIds(s.nations, "") == s.nations.Keys;
  }
}
