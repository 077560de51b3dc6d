/**
 * `checkAndAwardBadges` of lib/badges.ts: read the user with their badges,
 * bets (joined with their course) and bet count; collect each badge type
 * the user does not hold whose condition holds; append the collected rows
 * to the badge table in one `createMany`. SNIPER has a definition but no
 * condition that awards it.
 */
module Badges {
  import opened Options
  import opened Database
  import Items

  /**
   * The user's bets (`include: { bets: ... }`): every row of the user, once
   * per row, so that their number is the user's bet count.
   */
  function BetsOf(bets: seq<Bet>, u: nat): (r: seq<Bet>)
    ensures forall b :: b in r <==> b in bets && b.user == u
    ensures forall b :: multiset(r)[b] == if b.user == u then multiset(bets)[b] else 0
    ensures |r| <= |bets|
  {
    if bets == [] then []
    else
      var n := |bets| - 1;
      assert bets == bets[..n] + [bets[n]];
      BetsOf(bets[..n], u) + (if bets[n].user == u then [bets[n]] else [])
  }

  /** The badge types the user already holds (`currentBadgeTypes`). */
  function HeldTypes(badges: seq<Badge>, u: nat): (r: set<BadgeType>)
    ensures forall t :: t in r <==> Badge(u, t) in badges
  {
    set b | b in badges && b.user == u :: b.kind
  }

  /** `b.amount >= 5000 && (b.pointsEarned ?? 0) > b.amount`. */
  predicate IsBigWin(b: Bet) {
    b.amount >= 5000 && (if b.pointsEarned.Some? then b.pointsEarned.value else 0) > b.amount
  }

  /** The condition of each badge type, over the user's snapshot. */
  predicate Qualifies(t: BadgeType, user: User, userBets: seq<Bet>, courses: seq<Course>) {
    match t
    case FirstBet => exists b :: b in userBets && b.course < |courses| && courses[b.course].status == Finished
    case BigWinner => exists b :: b in userBets && IsBigWin(b)
    case Veteran => |userBets| >= 50
    case Millionaire => user.balance >= 1000000
    case HotStreak => user.currentStreak >= 10
    case Sniper => false
  }

  /** The badge types whose condition holds for the snapshot. */
  function Earned(user: User, userBets: seq<Bet>, courses: seq<Course>): (r: set<BadgeType>)
    ensures forall t :: t in r <==> Qualifies(t, user, userBets, courses)
  {
    (if Qualifies(FirstBet, user, userBets, courses) then {FirstBet} else {})
      + (if Qualifies(BigWinner, user, userBets, courses) then {BigWinner} else {})
      + (if Qualifies(Veteran, user, userBets, courses) then {Veteran} else {})
      + (if Qualifies(Millionaire, user, userBets, courses) then {Millionaire} else {})
      + (if Qualifies(HotStreak, user, userBets, courses) then {HotStreak} else {})
  }

  /** The badge type if it is not held and its condition holds, else nothing. */
  function Check(t: BadgeType, held: set<BadgeType>, earned: set<BadgeType>): seq<BadgeType> {
    if t !in held && t in earned then [t] else []
  }

  /** The order in which `checkAndAwardBadges` runs its checks. */
  const CheckOrder: seq<BadgeType> := [FirstBet, BigWinner, Veteran, Millionaire, HotStreak]

  /** Where each type's check stands in `CheckOrder`; SNIPER has none. */
  function Position(t: BadgeType): (i: nat)
    ensures i < |CheckOrder| ==> CheckOrder[i] == t
    ensures i == |CheckOrder| <==> t == Sniper
  {
    match t
    case FirstBet => 0
    case BigWinner => 1
    case Veteran => 2
    case Millionaire => 3
    case HotStreak => 4
    case Sniper => 5
  }

  predicate Distinct(ts: seq<BadgeType>) {
    forall i, j :: 0 <= i < j < |ts| ==> ts[i] != ts[j]
  }

  /** What the first k checks push, in order. */
  function AwardedUpTo(k: nat, held: set<BadgeType>, earned: set<BadgeType>): seq<BadgeType>
    requires k <= |CheckOrder|
  {
    if k == 0 then [] else AwardedUpTo(k - 1, held, earned) + Check(CheckOrder[k - 1], held, earned)
  }

  /** The first k checks push exactly the earned, unheld types whose check is among them. */
  lemma {:induction false} AwardedMembers(k: nat, held: set<BadgeType>, earned: set<BadgeType>)
    requires k <= |CheckOrder|
    ensures forall t :: t in AwardedUpTo(k, held, earned) <==> Position(t) < k && t !in held && t in earned
  {
    if k > 0 {
      AwardedMembers(k - 1, held, earned);
      assert Position(CheckOrder[k - 1]) == k - 1;
    }
  }

  /** No check pushes a type twice. */
  lemma {:induction false} AwardedDistinct(k: nat, held: set<BadgeType>, earned: set<BadgeType>)
    requires k <= |CheckOrder|
    ensures Distinct(AwardedUpTo(k, held, earned))
  {
    if k > 0 {
      AwardedDistinct(k - 1, held, earned);
      AwardedMembers(k - 1, held, earned);
      assert Position(CheckOrder[k - 1]) == k - 1;
    }
  }

  /** `newBadges`: the types awarded, in the order the checks push them. */
  function NewBadgeTypes(held: set<BadgeType>, user: User, userBets: seq<Bet>, courses: seq<Course>)
    : (r: seq<BadgeType>)
    ensures forall t :: t in r <==> t !in held && Qualifies(t, user, userBets, courses)
    ensures Distinct(r)
    ensures r == [] <==> forall t :: t !in held ==> !Qualifies(t, user, userBets, courses)
    ensures Sniper !in r
  {
    var earned := Earned(user, userBets, courses);
    AwardedMembers(|CheckOrder|, held, earned);
    AwardedDistinct(|CheckOrder|, held, earned);
    var r := AwardedUpTo(|CheckOrder|, held, earned);
    assert r != [] ==> r[0] in r;
    r
  }

  /** The badge rows `createMany` appends. */
  function Rows(u: nat, types: seq<BadgeType>): (r: seq<Badge>)
    ensures |r| == |types|
    ensures forall i :: 0 <= i < |types| ==> r[i] == Badge(u, types[i])
    ensures forall b :: b in r <==> b.user == u && b.kind in types
    ensures Distinct(types) ==> UniqueBadges(r)
  {
    seq(|types|, i requires 0 <= i < |types| => Badge(u, types[i]))
  }

  /** Once awarded, a badge is held, so a second check on the same data awards nothing. */
  lemma AwardIsIdempotent(badges: seq<Badge>, u: nat, user: User, userBets: seq<Bet>, courses: seq<Course>)
    ensures var awarded := NewBadgeTypes(HeldTypes(badges, u), user, userBets, courses);
      NewBadgeTypes(HeldTypes(badges + Rows(u, awarded), u), user, userBets, courses) == []
  {
  }

  /** One check of `checkAndAwardBadges`: push `t` when it is not held and its condition holds. */
  method PushIfEarned(newBadges: seq<BadgeType>, t: BadgeType, held: set<BadgeType>, user: User,
    userBets: seq<Bet>, courses: seq<Course>)
    returns (r: seq<BadgeType>)
    ensures r == newBadges + Check(t, held, Earned(user, userBets, courses))
  {
    r := newBadges;
    if t !in held && Qualifies(t, user, userBets, courses) {
      r := r + [t];
    }
  }

  /** The checks of `checkAndAwardBadges`, each pushing its badge type onto `newBadges`. */
  method CollectNewBadges(held: set<BadgeType>, user: User, userBets: seq<Bet>, courses: seq<Course>)
    returns (newBadges: seq<BadgeType>)
    ensures newBadges == NewBadgeTypes(held, user, userBets, courses)
  {
    ghost var earned := Earned(user, userBets, courses);
    newBadges := [];
    newBadges := PushIfEarned(newBadges, FirstBet, held, user, userBets, courses);
    assert newBadges == AwardedUpTo(1, held, earned);
    newBadges := PushIfEarned(newBadges, BigWinner, held, user, userBets, courses);
    assert newBadges == AwardedUpTo(2, held, earned);
    newBadges := PushIfEarned(newBadges, Veteran, held, user, userBets, courses);
    assert newBadges == AwardedUpTo(3, held, earned);
    newBadges := PushIfEarned(newBadges, Millionaire, held, user, userBets, courses);
    assert newBadges == AwardedUpTo(4, held, earned);
    newBadges := PushIfEarned(newBadges, HotStreak, held, user, userBets, courses);
    assert newBadges == AwardedUpTo(5, held, earned);
  }

  /** Appending rows of badge types the user does not hold keeps the table consistent. */
  lemma AwardKeepsConsistent(
    users: seq<User>, courses: seq<Course>, bets: seq<Bet>,
    inventory: map<(nat, Items.ItemType), nat>, badges: seq<Badge>, u: nat, types: seq<BadgeType>)
    requires Consistent(users, courses, bets, inventory, badges)
    requires u < |users|
    requires forall i, j :: 0 <= i < j < |types| ==> types[i] != types[j]
    requires forall t :: t in types ==> t !in HeldTypes(badges, u)
    ensures Consistent(users, courses, bets, inventory, badges + Rows(u, types))
  {
    var all := badges + Rows(u, types);
    forall i, j | 0 <= i < j < |all| ensures all[i] != all[j] {
      if j >= |badges| {
        assert all[j] == Badge(u, types[j - |badges|]);
        assert types[j - |badges|] in types;
        if i < |badges| {
          assert all[i] in badges;
        } else {
          assert all[i] == Badge(u, types[i - |badges|]);
        }
      }
    }
  }

  /**
   * `userId` names the user; `createFails` stands for the store raising an
   * error on `createMany`, which then writes nothing and rejects the call.
   * An unknown user, or a user with nothing to award, returns normally
   * without touching the store.
   */
  method CheckAndAwardBadges(db: Store, userId: nat, createFails: bool) returns (r: Result<(), ApiError>)
    requires db.Valid()
    modifies db
    ensures db.Valid()
    ensures r.Err? <==>
      && userId < |old(db.users)| && createFails
      && NewBadgeTypes(HeldTypes(old(db.badges), userId),
           old(db.users)[userId], BetsOf(old(db.bets), userId), old(db.courses)) != []
    ensures r.Err? ==> r.error == ServerError
    ensures userId >= |old(db.users)| || createFails ==> unchanged(db)
    ensures userId < |old(db.users)| && !createFails ==>
      db.badges == old(db.badges) + Rows(userId, NewBadgeTypes(HeldTypes(old(db.badges), userId),
        old(db.users)[userId], BetsOf(old(db.bets), userId), old(db.courses)))
    ensures db.users == old(db.users) && db.courses == old(db.courses)
    ensures db.bets == old(db.bets) && db.inventory == old(db.inventory)
  {
    if userId >= |db.users| {
      return Ok(());
    }
    var user := db.users[userId];
    var held := HeldTypes(db.badges, userId);
    var userBets := BetsOf(db.bets, userId);
    var newBadges := CollectNewBadges(held, user, userBets, db.courses);
    if |newBadges| > 0 {
      if createFails {
        return Err(ServerError);
      }
      AwardKeepsConsistent(db.users, db.courses, db.bets, db.inventory, db.badges, userId, newBadges);
      db.badges := db.badges + Rows(userId, newBadges);
    }
    r := Ok(());
  }
}
