/**
 * The two computations of app/leaderboard/page.tsx: the wanted target (the
 * first user of the list ordered by descending balance) and the grouping of
 * users under the ranks, walked from the top rank down.
 */
module Leaderboard {
  import opened Options
  import opened Ranks
  import opened Database

  /** `allUsers` as the query returns it: ordered by descending balance. */
  predicate ByDescendingBalance(users: seq<User>) {
    forall i, j :: 0 <= i < j < |users| ==> users[i].balance >= users[j].balance
  }

  /** `allUsers[0]`: absent when there are no users, otherwise a user with the largest balance. */
  function WantedTarget(allUsers: seq<User>): (r: Option<User>)
    requires ByDescendingBalance(allUsers)
    ensures r.None? <==> allUsers == []
    ensures r.Some? ==> r.value in allUsers && forall u :: u in allUsers ==> u.balance <= r.value.balance
  {
    if allUsers == [] then None else Some(allUsers[0])
  }

  /**
   * `[...POLICE_RANKS].reverse()`: the same ranks, from the top one down to
   * the first, with strictly decreasing minimums.
   */
  function ReversedRanks(): (r: seq<Rank>)
    ensures |r| == |PoliceRanks|
    ensures forall i :: 0 <= i < |r| ==> r[i] == PoliceRanks[|PoliceRanks| - 1 - i]
    ensures r[0] == PoliceRanks[TopRank] && r[|r| - 1] == PoliceRanks[0] && r[|r| - 1].min == 0
    ensures forall i, j :: 0 <= i < j < |r| ==> r[i].min > r[j].min
  {
    MinimumsIncrease();
    seq(|PoliceRanks|, i requires 0 <= i < |PoliceRanks| => PoliceRanks[|PoliceRanks| - 1 - i])
  }

  /**
   * The filter of bucket `idx`: at least the rank's minimum and, unless the
   * bucket is the first (top) one, below the minimum of the bucket before it.
   */
  predicate InBucket(balance: int, idx: nat)
    requires idx < |PoliceRanks|
  {
    var reversed := ReversedRanks();
    balance >= reversed[idx].min && (idx > 0 ==> balance < reversed[idx - 1].min)
  }

  /** `usersInRank` of bucket `idx`: each listed user as often as the list holds them. */
  function UsersInRank(allUsers: seq<User>, idx: nat): (r: seq<User>)
    requires idx < |PoliceRanks|
    ensures forall u :: u in r <==> u in allUsers && InBucket(u.balance, idx)
    ensures forall u :: multiset(r)[u] == if InBucket(u.balance, idx) then multiset(allUsers)[u] else 0
  {
    if allUsers == [] then []
    else
      var n := |allUsers| - 1;
      assert allUsers == allUsers[..n] + [allUsers[n]];
      UsersInRank(allUsers[..n], idx) + (if InBucket(allUsers[n].balance, idx) then [allUsers[n]] else [])
  }

  /**
   * A non-negative balance lies in exactly one bucket: the one showing the
   * rank `getPoliceRank` gives.
   */
  lemma BucketIsPoliceRank(balance: int, idx: nat)
    requires balance >= 0 && idx < |PoliceRanks|
    ensures InBucket(balance, idx) <==> ReversedRanks()[idx] == PoliceRanks[GetPoliceRank(balance)]
    ensures InBucket(balance, idx) <==> idx == TopRank - GetPoliceRank(balance)
  {
    MinimumsIncrease();
    var k := GetPoliceRank(balance);
    var reversed := ReversedRanks();
    assert reversed[idx] == PoliceRanks[TopRank - idx];
    assert idx > 0 ==> reversed[idx - 1] == PoliceRanks[TopRank - idx + 1];
  }

  /** A negative balance is in no bucket. */
  lemma NegativeInNoBucket(balance: int, idx: nat)
    requires balance < 0 && idx < |PoliceRanks|
    ensures !InBucket(balance, idx)
  {
    MinimumsIncrease();
  }

  /** The top bucket has no upper bound. */
  lemma TopBucketUnbounded(balance: int)
    requires balance >= ReversedRanks()[0].min
    ensures InBucket(balance, 0)
  {
  }

  /** A listed user with a non-negative balance shows up exactly under their own rank. */
  lemma UserListedUnderOwnRank(allUsers: seq<User>, u: User, idx: nat)
    requires u in allUsers && u.balance >= 0 && idx < |PoliceRanks|
    ensures u in UsersInRank(allUsers, idx) <==> idx == TopRank - GetPoliceRank(u.balance)
  {
    BucketIsPoliceRank(u.balance, idx);
  }
}
