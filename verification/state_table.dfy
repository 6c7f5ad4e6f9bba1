/**
 * The per-state tables the pages share: the member requirement of each US
 * state on the explore page, and the reward table (base rate, per-member
 * multiplier, requirement) of the rewards and leaderboard pages. Rates are
 * in thousandths of a unit per hour, which represents every rate in the
 * table exactly.
 */
module StateTable {
  import opened Wrappers

  datatype StateReward = StateReward(state: string, baseRate: nat, memberMultiplier: nat, requirement: nat)

  /** The explore page's `stateRequirements`, in declaration order. */
  const Requirements: seq<(string, nat)> := RequirementsFirst + RequirementsRest

  const RequirementsFirst: seq<(string, nat)> :=
    [
      ("California", 15),
      ("Texas", 12),
      ("Florida", 10),
      ("New York", 10),
      ("Pennsylvania", 8),
      ("Illinois", 8),
      ("Ohio", 7),
      ("Georgia", 7),
      ("North Carolina", 6),
      ("Michigan", 6),
      ("New Jersey", 5),
      ("Virginia", 5),
      ("Washington", 5),
      ("Arizona", 4),
      ("Massachusetts", 4),
      ("Tennessee", 4),
      ("Indiana", 3),
      ("Missouri", 3),
      ("Maryland", 3),
      ("Wisconsin", 3),
      ("Colorado", 3),
      ("Minnesota", 3),
      ("South Carolina", 2),
      ("Alabama", 2),
      ("Louisiana", 2)
    ]

  const RequirementsRest: seq<(string, nat)> :=
    [
      ("Kentucky", 2),
      ("Oregon", 2),
      ("Oklahoma", 2),
      ("Connecticut", 2),
      ("Utah", 1),
      ("Iowa", 1),
      ("Nevada", 1),
      ("Arkansas", 1),
      ("Mississippi", 1),
      ("Kansas", 1),
      ("New Mexico", 1),
      ("Nebraska", 1),
      ("West Virginia", 1),
      ("Idaho", 1),
      ("Hawaii", 1),
      ("New Hampshire", 1),
      ("Maine", 1),
      ("Montana", 1),
      ("Rhode Island", 1),
      ("Delaware", 1),
      ("South Dakota", 1),
      ("North Dakota", 1),
      ("Alaska", 1),
      ("Vermont", 1),
      ("Wyoming", 1)
    ]

  /** The rewards page's `stateRewards`, in declaration order (the order `Object.keys` yields). */
  const Rewards: seq<StateReward> := RewardsFirst + RewardsRest

  const RewardsFirst: seq<StateReward> :=
    [
      StateReward("California", 500, 20, 15),
      StateReward("Texas", 450, 20, 12),
      StateReward("Florida", 400, 20, 10),
      StateReward("New York", 400, 20, 10),
      StateReward("Pennsylvania", 350, 15, 8),
      StateReward("Illinois", 350, 15, 8),
      StateReward("Ohio", 300, 15, 7),
      StateReward("Georgia", 300, 15, 7),
      StateReward("North Carolina", 250, 15, 6),
      StateReward("Michigan", 250, 15, 6),
      StateReward("New Jersey", 250, 10, 5),
      StateReward("Virginia", 250, 10, 5),
      StateReward("Washington", 250, 10, 5),
      StateReward("Arizona", 200, 10, 4),
      StateReward("Massachusetts", 200, 10, 4),
      StateReward("Tennessee", 200, 10, 4),
      StateReward("Indiana", 200, 10, 3),
      StateReward("Missouri", 200, 10, 3),
      StateReward("Maryland", 200, 10, 3),
      StateReward("Wisconsin", 200, 10, 3),
      StateReward("Colorado", 200, 10, 3),
      StateReward("Minnesota", 200, 10, 3),
      StateReward("South Carolina", 150, 10, 2),
      StateReward("Alabama", 150, 10, 2),
      StateReward("Louisiana", 150, 10, 2)
    ]

  const RewardsRest: seq<StateReward> :=
    [
      StateReward("Kentucky", 150, 10, 2),
      StateReward("Oregon", 150, 10, 2),
      StateReward("Oklahoma", 150, 10, 2),
      StateReward("Connecticut", 150, 10, 2),
      StateReward("Utah", 150, 5, 1),
      StateReward("Iowa", 150, 5, 1),
      StateReward("Nevada", 150, 5, 1),
      StateReward("Arkansas", 150, 5, 1),
      StateReward("Mississippi", 150, 5, 1),
      StateReward("Kansas", 150, 5, 1),
      StateReward("New Mexico", 150, 5, 1),
      StateReward("Nebraska", 150, 5, 1),
      StateReward("West Virginia", 150, 5, 1),
      StateReward("Idaho", 150, 5, 1),
      StateReward("Hawaii", 150, 5, 1),
      StateReward("New Hampshire", 150, 5, 1),
      StateReward("Maine", 150, 5, 1),
      StateReward("Montana", 150, 5, 1),
      StateReward("Rhode Island", 150, 5, 1),
      StateReward("Delaware", 150, 5, 1),
      StateReward("South Dakota", 150, 5, 1),
      StateReward("North Dakota", 150, 5, 1),
      StateReward("Alaska", 150, 5, 1),
      StateReward("Vermont", 150, 5, 1),
      StateReward("Wyoming", 150, 5, 1)
    ]

  /** The state names of the reward table, in order. */
  function StateNames(): (r: seq<string>)
    ensures |r| == |Rewards|
    ensures forall i :: 0 <= i < |r| ==> r[i] == Rewards[i].state
  {
    seq(|Rewards|, i requires 0 <= i < |Rewards| => Rewards[i].state)
  }

  /** `stateRewards[name]`: the row of that state, absent for a name outside the table. */
  function Lookup(name: string): (r: Option<StateReward>)
    ensures r.Some? ==> r.value in Rewards && r.value.state == name
    ensures r.None? ==> forall i :: 0 <= i < |Rewards| ==> Rewards[i].state != name
  {
    Find(Rewards, name)
  }

  function Find(rows: seq<StateReward>, name: string): (r: Option<StateReward>)
    ensures r.Some? ==> r.value in rows && r.value.state == name
    ensures r.None? ==> forall i :: 0 <= i < |rows| ==> rows[i].state != name
  {
    if rows == [] then None
    else if rows[0].state == name then Some(rows[0])
    else Find(rows[1..], name)
  }

  /** `base + memberCount * multiplier`, the hourly rate of a state held by a nation of that size. */
  function RateFor(row: StateReward, memberCount: nat): (r: nat)
    ensures r >= row.baseRate
    ensures memberCount > 0 ==> r >= row.baseRate + row.memberMultiplier
  {
    row.baseRate + memberCount * row.memberMultiplier
  }

  /** A state's rate never falls as the nation holding it grows. */
  lemma RateForMonotone(row: StateReward, fewer: nat, more: nat)
    requires fewer <= more
    ensures RateFor(row, fewer) <= RateFor(row, more)
  {
    MulMonotone(fewer, more, row.memberMultiplier);
  }

  lemma {:induction false} MulMonotone(a: nat, b: nat, c: nat)
    requires a <= b
    ensures a * c <= b * c
    decreases b - a
  {
    if a < b {
      MulMonotone(a + 1, b, c);
      assert (a + 1) * c == a * c + c;
    }
  }

  lemma RewardsHasFiftyStates()
    ensures |Rewards| == 50
  {
  }

  /** Every state of the explore table needs at least one member. */
  lemma RequirementsAtLeastOne()
    ensures forall i :: 0 <= i < |Requirements| ==> Requirements[i].1 >= 1
  {
    assert forall i :: 0 <= i < |RequirementsFirst| ==> RequirementsFirst[i].1 >= 1;
    assert forall i :: 0 <= i < |RequirementsRest| ==> RequirementsRest[i].1 >= 1;
  }

  /** The two tables list the same states, in the same order, with the same requirements. */
  lemma TablesAgree()
    ensures |Requirements| == |Rewards|
    ensures forall i :: 0 <= i < |Rewards| ==>
              Requirements[i].0 == Rewards[i].state && Requirements[i].1 == Rewards[i].requirement
  {
    assert forall i :: 0 <= i < 25 ==>
             RequirementsFirst[i].0 == RewardsFirst[i].state && RequirementsFirst[i].1 == RewardsFirst[i].requirement;
    assert forall i :: 0 <= i < 25 ==>
             RequirementsRest[i].0 == RewardsRest[i].state && RequirementsRest[i].1 == RewardsRest[i].requirement;
  }

  /** No state is listed twice in the explore table, so a lookup finds the one entry there is. */
  lemma RequirementNamesDistinct()
    ensures forall i, j :: 0 <= i < j < |Requirements| ==> Requirements[i].0 != Requirements[j].0
  {
    FirstNamesDistinct();
    RestNamesDistinct();
    HalvesNamesDisjoint();
  }

  lemma FirstNamesDistinct()
    ensures forall i, j :: 0 <= i < j < |RequirementsFirst| ==> RequirementsFirst[i].0 != RequirementsFirst[j].0
  {
    assert forall i, j :: 0 <= i < j < 25 ==> RequirementsFirst[i].0 != RequirementsFirst[j].0;
  }

  lemma RestNamesDistinct()
    ensures forall i, j :: 0 <= i < j < |RequirementsRest| ==> RequirementsRest[i].0 != RequirementsRest[j].0
  {
    assert forall i, j :: 0 <= i < j < 25 ==> RequirementsRest[i].0 != RequirementsRest[j].0;
  }

  lemma HalvesNamesDisjoint()
    ensures forall i, j :: 0 <= i < |RequirementsFirst| && 0 <= j < |RequirementsRest| ==>
              RequirementsFirst[i].0 != RequirementsRest[j].0
  {
    assert forall i, j :: 0 <= i < 25 && 0 <= j < 25 ==> RequirementsFirst[i].0 != RequirementsRest[j].0;
  }

  /** Every base rate of the reward table is at least 0.15 an hour. */
  lemma BaseRatesAtLeast()
    ensures forall row :: row in Rewards ==> row.baseRate >= 150
  {
    HalfBaseRates(RewardsFirst);
    HalfBaseRates(RewardsRest);
    assert Rewards == RewardsFirst + RewardsRest;
  }

  lemma HalfBaseRates(half: seq<StateReward>)
    requires half == RewardsFirst || half == RewardsRest
    ensures forall row :: row in half ==> row.baseRate >= 150
  {
    if half == RewardsFirst {
      FirstBaseRates();
    } else {
      RestBaseRates();
    }
    forall row | row in half
      ensures row.baseRate >= 150
    {
      var i :| 0 <= i < |half| && half[i] == row;
    }
  }

  lemma FirstBaseRates()
    ensures forall i :: 0 <= i < |RewardsFirst| ==> RewardsFirst[i].baseRate >= 150
  {
    assert forall i :: 0 <= i < 25 ==> RewardsFirst[i].baseRate >= 150;
  }

  lemma RestBaseRates()
    ensures forall i :: 0 <= i < |RewardsRest| ==> RewardsRest[i].baseRate >= 150
  {
    assert forall i :: 0 <= i < 25 ==> RewardsRest[i].baseRate >= 150;
  }
}
