/**
 * The persistent store the routes work on: users, courses, bets, the
 * inventory table and the badge table, as the routes read and write them
 * through the database client. A record's id is its position in its table.
 */
module Database {
  import opened Options
  import opened Items
  import Clock

  datatype CourseStatus = Open | Finished

  /** A user row: identity, wallet and streak (other columns are not read by the core). */
  datatype User = User(name: string, email: string, balance: int, currentStreak: nat)

  /** A course row; times are minutes since midnight. */
  datatype Course = Course(
    subject: string,
    professor: string,
    scheduled: nat,
    status: CourseStatus,
    actualArrival: Option<nat>)

  /** A bet row: who bet on which course, the guessed minute, the stake and the payout once resolved. */
  datatype Bet = Bet(user: nat, course: nat, guessed: nat, amount: int, pointsEarned: Option<int>)

  /** The badge types of `BADGE_DEFINITIONS`. */
  datatype BadgeType = FirstBet | Sniper | BigWinner | HotStreak | Veteran | Millionaire

  /** A badge row. */
  datatype Badge = Badge(user: nat, kind: BadgeType)

  /** The errors the routes answer with; HttpStatus gives the status code of each. */
  datatype ApiError =
    | InvalidTimeData      // resolve: missing course id or malformed time
    | CourseNotFound       // resolve: no such course
    | CourseAlreadyClosed  // resolve: the course is FINISHED
    | UserNotFound         // bets: there is no user at all
    | InsufficientBalance  // bets: balance below the stake
    | DuplicateBet         // bets: unique constraint on (user, course)
    | NotAuthorized        // shop: no authenticated email
    | UnknownItem          // shop: item type not in the catalogue
    | InsufficientFunds    // shop: unknown user or balance below the price
    | ServerError          // any route or the badge award: the store raised an error

  function HttpStatus(e: ApiError): int {
    match e
    case CourseNotFound => 404
    case UserNotFound => 404
    case NotAuthorized => 401
    case ServerError => 500
    case _ => 400
  }

  /** At most one bet per (user, course) pair: the table's unique constraint. */
  predicate UniqueBets(bets: seq<Bet>) {
    forall i, j :: 0 <= i < j < |bets| ==>
      bets[i].user != bets[j].user || bets[i].course != bets[j].course
  }

  predicate UniqueEmails(users: seq<User>) {
    forall i, j :: 0 <= i < j < |users| ==> users[i].email != users[j].email
  }

  predicate UniqueBadges(badges: seq<Badge>) {
    forall i, j :: 0 <= i < j < |badges| ==> badges[i] != badges[j]
  }

  predicate HasBet(bets: seq<Bet>, u: nat, c: nat) {
    exists i :: 0 <= i < |bets| && bets[i].user == u && bets[i].course == c
  }

  /** `user.findUnique({ where: { email } })`: the position of the user with that email, if any. */
  function FindByEmail(users: seq<User>, email: string): (r: Option<nat>)
    ensures r.Some? ==> r.value < |users| && users[r.value].email == email
    ensures r.None? ==> forall i :: 0 <= i < |users| ==> users[i].email != email
  {
    if users == [] then None
    else if users[|users| - 1].email == email then Some(|users| - 1)
    else FindByEmail(users[..|users| - 1], email)
  }

  predicate CourseWellFormed(c: Course) {
    && c.scheduled < Clock.MinutesPerDay
    && (c.status == Finished <==> c.actualArrival.Some?)
    && (c.actualArrival.Some? ==> c.actualArrival.value < Clock.MinutesPerDay)
  }

  predicate BetWellFormed(b: Bet, userCount: nat, courseCount: nat) {
    b.user < userCount && b.course < courseCount && b.guessed < Clock.MinutesPerDay
  }

  /** The store's integrity: references resolve, unique constraints hold, times are minutes of a day. */
  predicate Consistent(
    users: seq<User>, courses: seq<Course>, bets: seq<Bet>,
    inventory: map<(nat, ItemType), nat>, badges: seq<Badge>)
  {
    && UniqueEmails(users)
    && (forall c :: c in courses ==> CourseWellFormed(c))
    && (forall b :: b in bets ==> BetWellFormed(b, |users|, |courses|))
    && UniqueBets(bets)
    && (forall k :: k in inventory ==> k.0 < |users|)
    && (forall b :: b in badges ==> b.user < |users|)
    && UniqueBadges(badges)
  }

  class Store {
    var users: seq<User>
    var courses: seq<Course>
    var bets: seq<Bet>
    /** `UserItem` rows: (user, item type) to quantity. */
    var inventory: map<(nat, ItemType), nat>
    var badges: seq<Badge>

    ghost predicate Valid()
      reads this
    {
      Consistent(users, courses, bets, inventory, badges)
    }

    constructor ()
      ensures Valid()
      ensures users == [] && courses == [] && bets == [] && inventory == map[] && badges == []
    {
      users, courses, bets, inventory, badges := [], [], [], map[], [];
    }
  }
}
