/**
 * POST of app/api/resolve/route.ts: validate the input, find the course,
 * refuse a FINISHED one, stage one bet update and one balance increment per
 * bet, and commit them together with the course's status flip.
 */
module ResolveRoute {
  import opened Options
  import opened Database
  import opened Settlement
  import opened Clock

  /**
   * The writes the transaction stages (`betUpdates`), built bet by bet on
   * copies of the tables: each bet on the course gets its payout as
   * pointsEarned and its bettor's balance is incremented by it. After the
   * first `i` bets, every balance is the old balance plus the payouts of
   * that user's bets among them.
   */
  method StageWrites(courseBets: seq<Bet>, wallets: seq<User>, cid: nat, actualMinutes: nat)
    returns (bets: seq<Bet>, users: seq<User>)
    requires forall b :: b in courseBets ==> b.user < |wallets|
    ensures bets == SettleAll(courseBets, cid, actualMinutes)
    ensures users == Credit(wallets, courseBets, cid, actualMinutes)
  {
    bets, users := courseBets, wallets;
    var i := 0;
    while i < |bets|
      invariant 0 <= i <= |bets| == |courseBets|
      invariant |users| == |wallets|
      invariant forall j :: 0 <= j < i ==> bets[j] == Settle(courseBets[j], cid, actualMinutes)
      invariant forall j :: i <= j < |bets| ==> bets[j] == courseBets[j]
      invariant users == Credit(wallets, courseBets[..i], cid, actualMinutes)
    {
      var bet := bets[i];
      assert bet in courseBets;
      CreditExtend(wallets, courseBets[..i], bet, cid, actualMinutes);
      assert courseBets[..i + 1] == courseBets[..i] + [bet];
      if bet.course == cid {
        var gains := Payout(Scoring.HugoScore(actualMinutes, bet.guessed), bet.amount);
        bets := bets[i := bet.(pointsEarned := Some(gains))];
        users := users[bet.user := users[bet.user].(balance := users[bet.user].balance + gains)];
      }
      i := i + 1;
    }
    assert courseBets[..|bets|] == courseBets;
  }

  /**
   * `courseId` is None when the request's courseId is missing or empty;
   * `commitFails` stands for the store aborting the transaction.
   */
  method Post(db: Store, courseId: Option<nat>, actualTime: string, commitFails: bool)
    returns (r: Result<(), ApiError>)
    requires db.Valid()
    modifies db
    ensures db.Valid()
    ensures courseId.None? || !MatchesClock(actualTime) ==> r == Err(InvalidTimeData)
    ensures courseId.Some? && MatchesClock(actualTime) && courseId.value >= |old(db.courses)| ==>
      r == Err(CourseNotFound)
    ensures courseId.Some? && MatchesClock(actualTime) && courseId.value < |old(db.courses)| ==>
      (old(db.courses)[courseId.value].status == Finished ==> r == Err(CourseAlreadyClosed))
      && (old(db.courses)[courseId.value].status == Open ==> r == if commitFails then Err(ServerError) else Ok(()))
    ensures r.Err? ==> unchanged(db)
    ensures r.Ok? ==>
      var cid, t := courseId.value, ClockMinutes(actualTime);
      && db.bets == SettleAll(old(db.bets), cid, t)
      && db.users == Credit(old(db.users), old(db.bets), cid, t)
      && db.courses == old(db.courses)[cid := Close(old(db.courses)[cid], t)]
      && db.inventory == old(db.inventory)
      && db.badges == old(db.badges)
  {
    if courseId.None? || !MatchesClock(actualTime) {
      return Err(InvalidTimeData);
    }
    var cid := courseId.value;
    if cid >= |db.courses| {
      return Err(CourseNotFound);
    }
    if db.courses[cid].status == Finished {
      return Err(CourseAlreadyClosed);
    }
    var actualMinutes := Hours(actualTime) * 60 + Minutes(actualTime);

    var bets, users := StageWrites(db.bets, db.users, cid, actualMinutes);
    if commitFails {
      return Err(ServerError);
    }
    ResolutionConsistent(db.users, db.courses, db.bets, db.inventory, db.badges, cid, actualMinutes);
    db.courses := db.courses[cid := Close(db.courses[cid], actualMinutes)];
    db.bets := bets;
    db.users := users;
    r := Ok(());
  }

  /** Resolution is one-shot: once a course is resolved, resolving it again is refused and changes nothing. */
  method ResolveTwice(db: Store, cid: nat, first: string, second: string)
    returns (r1: Result<(), ApiError>, r2: Result<(), ApiError>)
    requires db.Valid()
    requires cid < |db.courses| && db.courses[cid].status == Open
    requires MatchesClock(first) && MatchesClock(second)
    modifies db
    ensures r1 == Ok(()) && r2 == Err(CourseAlreadyClosed)
    ensures db.bets == SettleAll(old(db.bets), cid, ClockMinutes(first))
    ensures db.users == Credit(old(db.users), old(db.bets), cid, ClockMinutes(first))
  {
    r1 := Post(db, Some(cid), first, false);
    r2 := Post(db, Some(cid), second, false);
  }
}
