/**
 * app/api/bets/route.ts. GET returns the first user, creating a test user
 * when the table is empty. POST places a bet for that same first user: a
 * balance check, then one transaction that inserts the bet and debits the
 * stake. The request's courseId is not checked to be OPEN, the stake is not
 * re-validated and the request's appliedItem is never read.
 */
module BetsRoute {
  import opened Options
  import opened Database
  import opened Items
  import opened Clock

  /** The user GET creates when there is none. */
  const TestUser := User("Inspecteur Test", "test@hugolate.com", 1000, 0)

  /** `createFails` stands for the store raising an error on the insert. */
  method Get(db: Store, createFails: bool) returns (r: Result<User, ApiError>)
    requires db.Valid()
    modifies db
    ensures db.Valid()
    ensures |old(db.users)| > 0 ==> r == Ok(old(db.users)[0]) && unchanged(db)
    ensures |old(db.users)| == 0 && createFails ==> r == Err(ServerError) && unchanged(db)
    ensures |old(db.users)| == 0 && !createFails ==>
      && r == Ok(TestUser)
      && db.users == [TestUser]
      && db.courses == old(db.courses) && db.bets == old(db.bets)
      && db.inventory == old(db.inventory) && db.badges == old(db.badges)
  {
    if |db.users| > 0 {
      return Ok(db.users[0]);
    }
    if createFails {
      return Err(ServerError);
    }
    db.users := [TestUser];
    r := Ok(TestUser);
  }

  /**
   * POST with the request's courseId, the two numbers of `time.split(":")`,
   * the stake and the applied item. `commitFails` stands for the store
   * aborting the transaction for a reason outside the model.
   */
  method Post(
    db: Store, courseId: nat, hours: int, minutes: int, amount: int,
    appliedItem: Option<ItemType>, commitFails: bool)
    returns (r: Result<int, ApiError>)
    requires db.Valid()
    modifies db
    ensures db.Valid()
    ensures |old(db.users)| == 0 ==> r == Err(UserNotFound)
    ensures |old(db.users)| > 0 && old(db.users)[0].balance < amount ==> r == Err(InsufficientBalance)
    ensures |old(db.users)| > 0 && old(db.users)[0].balance >= amount && HasBet(old(db.bets), 0, courseId) ==>
      r == Err(DuplicateBet)
    ensures courseId >= |old(db.courses)| || commitFails ==> r.Err?
    ensures |old(db.users)| > 0 && amount <= old(db.users)[0].balance && courseId >= |old(db.courses)| ==>
      r == Err(ServerError)
    ensures
      (&& |old(db.users)| > 0 && amount <= old(db.users)[0].balance && courseId < |old(db.courses)|
       && !HasBet(old(db.bets), 0, courseId) && commitFails)
      ==> r == Err(ServerError)
    ensures
      (&& |old(db.users)| > 0 && amount <= old(db.users)[0].balance && courseId < |old(db.courses)|
       && !HasBet(old(db.bets), 0, courseId) && !commitFails)
      ==> r.Ok?
    ensures r.Err? ==> unchanged(db)
    ensures r.Ok? ==>
      && |old(db.users)| > 0
      && amount <= old(db.users)[0].balance
      && courseId < |old(db.courses)|
      && !HasBet(old(db.bets), 0, courseId)
      && db.bets == old(db.bets) + [Bet(0, courseId, TimeOfDay(hours, minutes), amount, None)]
      && db.users == old(db.users)[0 := old(db.users)[0].(balance := old(db.users)[0].balance - amount)]
      && r.value == old(db.users)[0].balance - amount == db.users[0].balance
      && r.value >= 0
      && db.courses == old(db.courses)
      && db.inventory == old(db.inventory)
      && db.badges == old(db.badges)
  {
    if |db.users| == 0 {
      return Err(UserNotFound);
    }
    var user := db.users[0];
    if user.balance < amount {
      return Err(InsufficientBalance);
    }
    var guessed := TimeOfDay(hours, minutes);

    // bet.create: the foreign key to the course and the (user, course) unique constraint.
    if courseId >= |db.courses| {
      assert !HasBet(db.bets, 0, courseId) by {
        forall i | 0 <= i < |db.bets| ensures db.bets[i].course != courseId {
          assert db.bets[i] in db.bets;
        }
      }
      return Err(ServerError);
    }
    if exists i :: 0 <= i < |db.bets| && db.bets[i].user == 0 && db.bets[i].course == courseId {
      return Err(DuplicateBet);
    }
    if commitFails {
      return Err(ServerError);
    }
    var bet := Bet(0, courseId, guessed, amount, None);
    ghost var oldBets := db.bets;
    db.bets := db.bets + [bet];
    db.users := db.users[0 := user.(balance := user.balance - amount)];
    assert UniqueBets(db.bets) by {
      forall i, j | 0 <= i < j < |db.bets|
        ensures db.bets[i].user != db.bets[j].user || db.bets[i].course != db.bets[j].course
      {
        if j == |oldBets| {
          assert db.bets[i] == oldBets[i];
        }
      }
    }
    r := Ok(db.users[0].balance);
  }
}
