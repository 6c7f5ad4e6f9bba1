/**
 * The rewards page's state table: the search box over state names and the
 * sort control, a two-field state machine of criterion and direction.
 */
module RewardsPage {
  import opened Wrappers
  import opened Text
  import opened Seqs
  import opened Sorting
  import opened StateTable

  datatype Criterion = ByState | ByRate | ByRequirement
  datatype Direction = Asc | Desc
  datatype SortState = SortState(criterion: Criterion, direction: Direction)

  /** The page opens sorted by base rate, highest first. */
  const InitialSort := SortState(ByRate, Desc)

  function Flip(d: Direction): (r: Direction)
    ensures r != d
  {
    if d == Asc then Desc else Asc
  }

  /** `toggleSort`: the current criterion flips its direction; another criterion starts descending. */
  function ToggleSort(st: SortState, c: Criterion): (r: SortState)
    ensures r.criterion == c
    ensures st.criterion == c ==> r.direction != st.direction
    ensures st.criterion != c ==> r.direction == Desc
  {
    if st.criterion == c then st.(direction := Flip(st.direction)) else SortState(c, Desc)
  }

  /** Toggling the current criterion twice restores the sort. */
  lemma ToggleTwice(st: SortState)
    ensures ToggleSort(ToggleSort(st, st.criterion), st.criterion) == st
  {
  }

  /** Selecting a new criterion twice ends ascending on it. */
  lemma SelectThenToggle(st: SortState, c: Criterion)
    requires st.criterion != c
    ensures ToggleSort(ToggleSort(st, c), c) == SortState(c, Asc)
  {
  }

  /** Every sort state is reachable from the initial one by at most two toggles. */
  lemma AllSortsReachable(st: SortState)
    ensures || st == InitialSort
            || (exists c :: ToggleSort(InitialSort, c) == st)
            || (exists c, d :: ToggleSort(ToggleSort(InitialSort, c), d) == st)
  {
    if st != InitialSort {
      if st.direction == Desc {
        assert ToggleSort(ToggleSort(InitialSort, st.criterion), st.criterion) == st || ToggleSort(InitialSort, st.criterion) == st;
      } else if st.criterion == ByRate {
        assert ToggleSort(InitialSort, ByRate) == st;
      } else {
        assert ToggleSort(ToggleSort(InitialSort, st.criterion), st.criterion) == st;
      }
    }
  }

  /** The rows of `rows` whose state name contains the term, ignoring case, in their order. */
  function RowsMatching(rows: seq<StateReward>, term: string): (r: seq<StateReward>)
    ensures forall row :: row in r <==> row in rows && ContainsIgnoringCase(row.state, term)
    ensures |r| <= |rows|
    ensures Subsequence(r, rows)
    ensures forall row :: multiset(r)[row] == if ContainsIgnoringCase(row.state, term) then multiset(rows)[row] else 0
  {
    var keep := (row: StateReward) => ContainsIgnoringCase(row.state, term);
    FilterCounts(rows, keep);
    FilterSubsequence(rows, keep);
    Filter(rows, keep)
  }

  /** The table rows whose state name contains the term, ignoring case, in table order. */
  function FilteredRows(term: string): (r: seq<StateReward>)
    ensures forall row :: row in r <==> row in Rewards && ContainsIgnoringCase(row.state, term)
    ensures |r| <= |Rewards|
    ensures Subsequence(r, Rewards)
    ensures forall row :: multiset(r)[row] == if ContainsIgnoringCase(row.state, term) then multiset(Rewards)[row] else 0
  {
    RowsMatching(Rewards, term)
  }

  function Names(rows: seq<StateReward>): (r: seq<string>)
    ensures |r| == |rows|
    ensures forall i :: 0 <= i < |rows| ==> r[i] == rows[i].state
  {
    seq(|rows|, i requires 0 <= i < |rows| => rows[i].state)
  }

  /** `filteredStates`. */
  function FilteredStates(term: string): seq<string>
  {
    Names(FilteredRows(term))
  }

  /** An empty search term lists all fifty states in table order. */
  lemma EmptyTermListsAll()
    ensures FilteredStates("") == StateNames()
    ensures |FilteredStates("")| == 50
  {
    forall row | row in Rewards
      ensures ContainsIgnoringCase(row.state, "")
    {
      ContainsEmpty(Lower(row.state));
    }
    FilterAll(Rewards, (row: StateReward) => ContainsIgnoringCase(row.state, ""));
    RewardsHasFiftyStates();
  }

  /**
   * The comparator, read as "`a` may precede `b`": names by code-point order
   * (standing in for `localeCompare`), rates and requirements numerically,
   * each in the chosen direction.
   */
  predicate Precedes(st: SortState, a: StateReward, b: StateReward)
  {
    match (st.criterion, st.direction)
    case (ByState, Asc) => LexLeq(a.state, b.state)
    case (ByState, Desc) => LexLeq(b.state, a.state)
    case (ByRate, Asc) => a.baseRate <= b.baseRate
    case (ByRate, Desc) => a.baseRate >= b.baseRate
    case (ByRequirement, Asc) => a.requirement <= b.requirement
    case (ByRequirement, Desc) => a.requirement >= b.requirement
  }

  lemma PrecedesIsPreorder(st: SortState)
    ensures TotalPreorder((a: StateReward, b: StateReward) => Precedes(st, a, b))
  {
    var le := (a: StateReward, b: StateReward) => Precedes(st, a, b);
    if st.criterion == ByState {
      forall a: StateReward, b: StateReward
        ensures le(a, b) || le(b, a)
      {
        LexLeqTotal(a.state, b.state);
      }
      forall a: StateReward, b: StateReward, c: StateReward | le(a, b) && le(b, c)
        ensures le(a, c)
      {
        if st.direction == Asc {
          LexLeqTransitive(a.state, b.state, c.state);
        } else {
          LexLeqTransitive(c.state, b.state, a.state);
        }
      }
    }
  }

  /** A permutation of `rows` ordered by the sort state; ties keep their order. */
  function SortRows(st: SortState, rows: seq<StateReward>): (r: seq<StateReward>)
    ensures multiset(r) == multiset(rows)
    ensures forall i, j :: 0 <= i < j < |r| ==> Precedes(st, r[i], r[j])
  {
    PrecedesIsPreorder(st);
    var r := SortBy(rows, (a: StateReward, b: StateReward) => Precedes(st, a, b));
    assert forall i, j :: 0 <= i < j < |r| ==> Precedes(st, r[i], r[j]);
    r
  }

  /** `sortedStates`: the filtered states in the order of the sort state. */
  function SortedStates(st: SortState, term: string): seq<string>
  {
    Names(SortRows(st, FilteredRows(term)))
  }

  /** Sorting lists the same states as filtering, each as often. */
  lemma SortedStatesArePermutation(st: SortState, term: string)
    ensures multiset(SortedStates(st, term)) == multiset(FilteredStates(term))
  {
    var rows := FilteredRows(term);
    NamesPermutation(SortRows(st, rows), rows);
  }

  lemma NamesPermutation(a: seq<StateReward>, b: seq<StateReward>)
    requires multiset(a) == multiset(b)
    ensures multiset(Names(a)) == multiset(Names(b))
  {
    NamesAreMap(a);
    NamesAreMap(b);
    MapPermutation(StateOf, a, b);
  }

  function StateOf(row: StateReward): string
  {
    row.state
  }

  lemma NamesAreMap(rows: seq<StateReward>)
    ensures Names(rows) == Map(StateOf, rows)
  {
    MapIndex(StateOf, rows);
  }

  /** By requirement, ascending gives non-decreasing requirements and descending non-increasing ones. */
  lemma RequirementOrder(rows: seq<StateReward>)
    ensures forall i, j :: 0 <= i < j < |SortRows(SortState(ByRequirement, Asc), rows)| ==>
              SortRows(SortState(ByRequirement, Asc), rows)[i].requirement
              <= SortRows(SortState(ByRequirement, Asc), rows)[j].requirement
    ensures forall i, j :: 0 <= i < j < |SortRows(SortState(ByRequirement, Desc), rows)| ==>
              SortRows(SortState(ByRequirement, Desc), rows)[i].requirement
              >= SortRows(SortState(ByRequirement, Desc), rows)[j].requirement
  {
  }

  /** `calculateHourlyRate(stateName, memberCount)`, in thousandths: nothing for a name outside the table. */
  function StateHourlyRate(stateName: string, memberCount: nat): (r: nat)
    ensures Lookup(stateName).None? ==> r == 0
    ensures Lookup(stateName).Some? ==> r >= Lookup(stateName).value.baseRate
    ensures Lookup(stateName).Some? ==>
              r == Lookup(stateName).value.baseRate + memberCount * Lookup(stateName).value.memberMultiplier
  {
    match Lookup(stateName)
    case None => 0
    case Some(row) => RateFor(row, memberCount)
  }
}
