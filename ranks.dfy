/** The rank ladder of lib/ranks.ts: `POLICE_RANKS` and `getPoliceRank`. */
module Ranks {
  import opened Options

  /** A rank: its minimum balance and its title (icon and colours are display-only). */
  datatype Rank = Rank(min: int, title: string)

  const PoliceRanks: seq<Rank> := [
    Rank(0, "Adjoint de Sécurité"),
    Rank(1000, "Gardien de la Paix"),
    Rank(2500, "Brigadier"),
    Rank(5000, "Lieutenant"),
    Rank(7500, "Capitaine"),
    Rank(10000, "Commandant"),
    Rank(15000, "Commissaire"),
    Rank(25000, "Commissaire Divisionnaire"),
    Rank(50000, "Directeur des Services Actifs")
  ]

  const TopRank := |PoliceRanks| - 1

  /** The minimums start at 0 and strictly increase along the ladder. */
  lemma MinimumsIncrease()
    ensures PoliceRanks[0].min == 0
    ensures forall i, j :: 0 <= i < j < |PoliceRanks| ==> PoliceRanks[i].min < PoliceRanks[j].min
  {
  }

  /**
   * `[...POLICE_RANKS].reverse().find(rank => balance >= rank.min)` over the
   * first `n` ranks: the index of the highest one whose minimum is reached.
   */
  function FindFromTop(balance: int, n: nat): (r: Option<nat>)
    requires n <= |PoliceRanks|
    ensures r.Some? ==> r.value < n && PoliceRanks[r.value].min <= balance
    ensures r.Some? ==> forall j :: r.value < j < n ==> balance < PoliceRanks[j].min
    ensures r.None? ==> forall j :: 0 <= j < n ==> balance < PoliceRanks[j].min
  {
    if n == 0 then None
    else if balance >= PoliceRanks[n - 1].min then Some(n - 1)
    else FindFromTop(balance, n - 1)
  }

  /**
   * `getPoliceRank(balance)`, as an index into PoliceRanks: the rank with the
   * largest minimum not above the balance, and the first rank otherwise.
   */
  function GetPoliceRank(balance: int): (k: nat)
    ensures k < |PoliceRanks|
    ensures balance >= 0 ==> PoliceRanks[k].min <= balance
    ensures forall j :: k < j < |PoliceRanks| ==> balance < PoliceRanks[j].min
    ensures balance < 0 ==> k == 0
  {
    match FindFromTop(balance, |PoliceRanks|)
    case Some(k) => k
    case None => 0
  }

  /** A higher balance never yields a lower rank. */
  lemma RankMonotone(b1: int, b2: int)
    requires b1 <= b2
    ensures GetPoliceRank(b1) <= GetPoliceRank(b2)
  {
  }

  /** A balance exactly at a minimum gets that minimum's rank. */
  lemma ThresholdGetsItsRank(k: nat)
    requires k < |PoliceRanks|
    ensures GetPoliceRank(PoliceRanks[k].min) == k
  {
    MinimumsIncrease();
  }

  /** From 50000 on, every balance has the top rank. */
  lemma TopRankFrom50000(balance: int)
    requires balance >= 50000
    ensures GetPoliceRank(balance) == TopRank
  {
  }
}
