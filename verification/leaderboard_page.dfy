/**
 * The nations leaderboard: the nations holding a territory, most members
 * first, top seven shown, each with its hourly earnings.
 */
module LeaderboardPage {
  import opened Wrappers
  import opened Seqs
  import opened Sorting
  import opened NationModel
  import opened Store
  import opened StateTable

  const MaxRows: nat := 7

  /** `filter(nation => nation.territory)`. */
  function WithTerritory(list: seq<Entry>): (r: seq<Entry>)
    ensures forall e :: e in r <==> e in list && HasTerritory(e.nation)
    ensures |r| <= |list|
    ensures Subsequence(r, list)
    ensures forall e :: multiset(r)[e] == if HasTerritory(e.nation) then multiset(list)[e] else 0
  {
    var keep := (e: Entry) => HasTerritory(e.nation);
    FilterCounts(list, keep);
    FilterSubsequence(list, keep);
    Filter(list, keep)
  }

  /** The comparator `b.memberCount - a.memberCount`: `a` may precede `b` when it has at least as many members. */
  predicate MoreMembers(a: Entry, b: Entry)
  {
    a.nation.memberCount >= b.nation.memberCount
  }

  lemma MoreMembersIsPreorder()
    ensures TotalPreorder(MoreMembers)
  {
  }

  /** The ranked list: a permutation of the nations with a territory, by member count, non-increasing. */
  function Ranked(list: seq<Entry>): (r: seq<Entry>)
    ensures multiset(r) == multiset(WithTerritory(list))
    ensures forall i, j :: 0 <= i < j < |r| ==> r[i].nation.memberCount >= r[j].nation.memberCount
    ensures forall e :: e in r <==> e in list && HasTerritory(e.nation)
  {
    MoreMembersIsPreorder();
    var w := WithTerritory(list);
    var r := SortBy(w, MoreMembers);
    SortByMembers(w, MoreMembers);
    assert forall e :: e in r <==> e in w;
    assert forall i, j :: 0 <= i < j < |r| ==> MoreMembers(r[i], r[j]);
    r
  }

  /** `slice(0, 7)` of the ranked list. */
  function TopRows(list: seq<Entry>): (r: seq<Entry>)
    ensures |r| <= MaxRows
    ensures |r| == if |Ranked(list)| < MaxRows then |Ranked(list)| else MaxRows
    ensures r == Ranked(list)[..|r|]
  {
    Take(Ranked(list), MaxRows)
  }

  /** A nation with a territory and more members than some shown row is itself shown. */
  lemma OutrankingNationIsShown(list: seq<Entry>, e: Entry, k: nat)
    requires e in list && HasTerritory(e.nation)
    requires k < |TopRows(list)| && e.nation.memberCount > TopRows(list)[k].nation.memberCount
    ensures e in TopRows(list)
  {
    var ranked := Ranked(list);
    var top := TopRows(list);
    assert e in ranked;
    var j :| 0 <= j < |ranked| && ranked[j] == e;
    assert top[k] == ranked[k];
    assert top[j] == e;
  }

  /**
   * `calculateHourlyRate`, in thousandths: nothing without a territory or
   * for a territory outside the table, otherwise the state's base rate plus
   * the per-member multiplier for each member.
   */
  function HourlyRate(n: Nation): (r: nat)
    ensures !HasTerritory(n) ==> r == 0
    ensures HasTerritory(n) && Lookup(n.territory.value).None? ==> r == 0
    ensures HasTerritory(n) && Lookup(n.territory.value).Some? ==>
              r == RateFor(Lookup(n.territory.value).value, n.memberCount)
  {
    if !HasTerritory(n) then 0
    else
      match Lookup(n.territory.value)
      case None => 0
      case Some(row) => RateFor(row, n.memberCount)
  }

  /** A nation earns at least 0.15 an hour for any state of the table it holds. */
  lemma TableStateEarns(n: Nation)
    requires HasTerritory(n) && Lookup(n.territory.value).Some?
    ensures HourlyRate(n) >= 150
  {
    BaseRatesAtLeast();
  }

  /** Earnings never fall when a nation gains members. */
  lemma HourlyRateMonotone(n: Nation, more: nat)
    requires more >= n.memberCount
    ensures HourlyRate(n) <= HourlyRate(n.(memberCount := more))
  {
    if HasTerritory(n) {
      var found := Lookup(n.territory.value);
      if found.Some? {
        RateForMonotone(found.value, n.memberCount, more);
      }
    }
  }
}
