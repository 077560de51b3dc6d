/**
 * The pure part of course resolution (app/api/resolve/route.ts): the payout
 * of one bet and the staged writes of the resolution transaction, as
 * functions of the store before the commit.
 */
module Settlement {
  import opened Options
  import opened Database
  import opened Scoring
  import Clock

  /**
   * `Math.round((baseScore / 100) * amount)` in exact arithmetic: the integer
   * nearest to `score * amount / 100`, halves rounded up.
   */
  function Payout(score: nat, amount: int): (p: int)
    ensures 100 * p - 50 <= score * amount < 100 * p + 50
    ensures score <= BasePoints && amount >= 0 ==> 0 <= p <= 10 * amount
  {
    PayoutBounds(score, amount);
    (score * amount + 50) / 100
  }

  lemma PayoutBounds(score: nat, amount: int)
    ensures score <= BasePoints && amount >= 0 ==> 0 <= (score * amount + 50) / 100 <= 10 * amount
  {
    if score <= BasePoints && amount >= 0 {
      assert score * amount <= 1000 * amount by {
        assert (1000 - score) * amount >= 0;
      }
      assert score * amount + 50 < 100 * (10 * amount + 1);
    }
  }

  /** A perfect score pays ten times the stake. */
  lemma ExactGuessPaysTenfold(amount: int)
    ensures Payout(BasePoints, amount) == 10 * amount
  {
  }

  /** A score of 100 pays the stake back. */
  lemma ScoreHundredReturnsStake(amount: int)
    ensures Payout(100, amount) == amount
  {
  }

  /** For a non-negative stake a better score never pays less. */
  lemma PayoutMonotone(s1: nat, s2: nat, amount: int)
    requires s1 <= s2 && amount >= 0
    ensures Payout(s1, amount) <= Payout(s2, amount)
  {
    assert s1 * amount <= s2 * amount by {
      assert (s2 - s1) * amount >= 0;
    }
  }

  /**
   * Arrival at 08:42 (522): a stake of 100 on 08:42 earns 1000, on 08:47
   * earns 200. A score of 29 on a stake of 50 is exactly 14.5, and the model
   * pays 15; the source's floating-point product is 14.499... and pays 14.
   */
  lemma PayoutScenarios()
    ensures Payout(HugoScore(522, 522), 100) == 1000
    ensures Payout(HugoScore(522, 527), 100) == 200
    ensures Payout(29, 50) == 15
  {
  }

  /** The payout of one bet when the course's actual arrival is `actual`. */
  function BetPayout(b: Bet, actual: nat): int {
    Payout(HugoScore(actual, b.guessed), b.amount)
  }

  /** The staged `bet.update`: bets on the course get their payout as pointsEarned. */
  function Settle(b: Bet, cid: nat, actual: nat): Bet {
    if b.course == cid then b.(pointsEarned := Some(BetPayout(b, actual))) else b
  }

  function SettleAll(bets: seq<Bet>, cid: nat, actual: nat): seq<Bet> {
    seq(|bets|, i requires 0 <= i < |bets| => Settle(bets[i], cid, actual))
  }

  /** The sum of the `walletBalance` increments user `u` receives from the bets on course `cid`. */
  function CreditOf(bets: seq<Bet>, cid: nat, actual: nat, u: nat): int {
    if bets == [] then 0
    else
      var last := bets[|bets| - 1];
      CreditOf(bets[..|bets| - 1], cid, actual, u)
        + (if last.course == cid && last.user == u then BetPayout(last, actual) else 0)
  }

  /** The staged `user.update`s: each user's balance incremented by their credit. */
  function Credit(users: seq<User>, bets: seq<Bet>, cid: nat, actual: nat): seq<User> {
    seq(|users|, u requires 0 <= u < |users| =>
      users[u].(balance := users[u].balance + CreditOf(bets, cid, actual, u)))
  }

  /** The staged `course.update`: FINISHED, with the actual arrival time. */
  function Close(c: Course, actual: nat): Course {
    c.(status := Finished, actualArrival := Some(actual))
  }

  /** Appending one bet to the processed prefix adds its payout to its bettor only. */
  lemma CreditExtend(users: seq<User>, bets: seq<Bet>, b: Bet, cid: nat, actual: nat)
    requires b.user < |users|
    ensures Credit(users, bets + [b], cid, actual) ==
      if b.course == cid then
        var c := Credit(users, bets, cid, actual);
        c[b.user := c[b.user].(balance := c[b.user].balance + BetPayout(b, actual))]
      else Credit(users, bets, cid, actual)
  {
    assert (bets + [b])[..|bets|] == bets;
  }

  /** A bettor on the course is credited exactly the payout of their bet. */
  lemma {:induction false} CreditOfBettor(bets: seq<Bet>, cid: nat, actual: nat, j: nat)
    requires UniqueBets(bets)
    requires j < |bets| && bets[j].course == cid
    ensures CreditOf(bets, cid, actual, bets[j].user) == BetPayout(bets[j], actual)
  {
    var n := |bets| - 1;
    var u := bets[j].user;
    if j == n {
      CreditOfNonBettor(bets[..n], cid, actual, u);
    } else {
      assert UniqueBets(bets[..n]);
      CreditOfBettor(bets[..n], cid, actual, j);
      assert bets[n].user != u || bets[n].course != cid;
    }
  }

  /** A user without a bet on the course is credited nothing. */
  lemma {:induction false} CreditOfNonBettor(bets: seq<Bet>, cid: nat, actual: nat, u: nat)
    requires !HasBet(bets, u, cid)
    ensures CreditOf(bets, cid, actual, u) == 0
  {
    if bets != [] {
      var n := |bets| - 1;
      CreditOfNonBettor(bets[..n], cid, actual, u);
    }
  }

  /** With non-negative stakes on the course, nobody's balance goes down. */
  lemma {:induction false} CreditNonNegative(bets: seq<Bet>, cid: nat, actual: nat, u: nat)
    requires forall b :: b in bets && b.course == cid ==> b.amount >= 0
    ensures CreditOf(bets, cid, actual, u) >= 0
  {
    if bets != [] {
      var n := |bets| - 1;
      assert bets[n] in bets;
      assert forall b :: b in bets[..n] ==> b in bets;
      CreditNonNegative(bets[..n], cid, actual, u);
    }
  }

  /**
   * After resolution each bettor's balance rose by exactly the payout of
   * their bet, and every other user is unchanged; names, emails and streaks
   * are never touched.
   */
  lemma ResolutionCredits(users: seq<User>, bets: seq<Bet>, cid: nat, actual: nat, u: nat)
    requires UniqueBets(bets)
    requires u < |users|
    ensures |Credit(users, bets, cid, actual)| == |users|
    ensures var v := Credit(users, bets, cid, actual)[u];
      && v.name == users[u].name && v.email == users[u].email
      && v.currentStreak == users[u].currentStreak
    ensures !HasBet(bets, u, cid) ==> Credit(users, bets, cid, actual)[u] == users[u]
    ensures forall j :: 0 <= j < |bets| && bets[j].course == cid && bets[j].user == u ==>
      Credit(users, bets, cid, actual)[u].balance == users[u].balance + BetPayout(bets[j], actual)
  {
    if !HasBet(bets, u, cid) {
      CreditOfNonBettor(bets, cid, actual, u);
    }
    forall j | 0 <= j < |bets| && bets[j].course == cid && bets[j].user == u
      ensures Credit(users, bets, cid, actual)[u].balance == users[u].balance + BetPayout(bets[j], actual)
    {
      CreditOfBettor(bets, cid, actual, j);
    }
  }

  /** Each resolved bet records its payout; bets on other courses are unchanged. */
  lemma SettledBets(bets: seq<Bet>, cid: nat, actual: nat, j: nat)
    requires j < |bets|
    ensures |SettleAll(bets, cid, actual)| == |bets|
    ensures var b := SettleAll(bets, cid, actual)[j];
      && b.user == bets[j].user && b.course == bets[j].course
      && b.guessed == bets[j].guessed && b.amount == bets[j].amount
      && (bets[j].course == cid ==> b.pointsEarned == Some(BetPayout(bets[j], actual)))
      && (bets[j].course != cid ==> b == bets[j])
  {
  }

  /** The committed state is again consistent. */
  lemma ResolutionConsistent(
    users: seq<User>, courses: seq<Course>, bets: seq<Bet>,
    inventory: map<(nat, Items.ItemType), nat>, badges: seq<Badge>, cid: nat, actual: nat)
    requires Consistent(users, courses, bets, inventory, badges)
    requires cid < |courses| && actual < Clock.MinutesPerDay
    ensures Consistent(Credit(users, bets, cid, actual), courses[cid := Close(courses[cid], actual)],
      SettleAll(bets, cid, actual), inventory, badges)
  {
    var users', courses', bets' := Credit(users, bets, cid, actual),
      courses[cid := Close(courses[cid], actual)], SettleAll(bets, cid, actual);
    assert forall c :: c in courses' ==> CourseWellFormed(c) by {
      forall c | c in courses' ensures CourseWellFormed(c) {
        var i :| 0 <= i < |courses'| && courses'[i] == c;
        assert courses[i] in courses;
      }
    }
    assert forall b :: b in bets' ==> BetWellFormed(b, |users'|, |courses'|) by {
      forall b | b in bets' ensures BetWellFormed(b, |users'|, |courses'|) {
        var i :| 0 <= i < |bets'| && bets'[i] == b;
        assert bets[i] in bets;
      }
    }
    assert UniqueEmails(users');
    assert UniqueBets(bets');
  }
}
