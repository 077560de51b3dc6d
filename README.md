# hugolate settlement and bookkeeping, in Dafny

hugolate is a betting game. Players ("agents") stake shekels on the minute
Hugo will arrive at a course. An administrator enters the actual arrival
time, and each bet is paid according to how close its guess was. This
project models the game's bookkeeping rules:

- the precision score (`calculateHugoScore`) and the payout of a bet;
- "HH:mm" clock times: the route pattern, minutes since midnight, and
  printing an average time back;
- the store as the API routes change it: course creation, bet placement,
  the test-user lookup, shop purchases, course resolution and the badge
  award. Each route either answers with an error and leaves the store
  unchanged, or applies exactly the changes its transaction stages;
- the rank ladder and the leaderboard's grouping of users by rank;
- the validation schemas and the live-course view.

Layout, one module per source file or component:

| file | module | models |
|---|---|---|
| options.dfy | Options | Option and Result values |
| clock.dfy | Clock | the `HH:mm` pattern, `H*60+M`, `pad2` formatting, `setHours` roll-over |
| scoring.dfy | Scoring, Decay | the score table and its derivation from the exponential formula |
| items.dfy | Items | `SHOP_ITEMS`, `ItemType` |
| ranks.dfy | Ranks | `POLICE_RANKS`, `getPoliceRank` |
| leaderboard.dfy | Leaderboard | wanted target, rank buckets |
| validations.dfy | Validations | `BetSchema`, `CreateCourseSchema`, `CreateUserSchema` |
| store.dfy | Database | the tables, their integrity constraints, the `Store` class |
| settlement.dfy | Settlement | per-bet payout and the writes staged by resolution |
| resolve_route.dfy | ResolveRoute | POST /api/resolve |
| bets_route.dfy | BetsRoute | GET and POST /api/bets |
| shop_route.dfy | ShopBuyRoute | POST /api/shop/buy |
| courses_route.dfy | CoursesRoute | POST /api/courses |
| live_route.dfy | LiveRoute | GET /api/courses/live |
| badges.dfy | Badges | `checkAndAwardBadges` |

## How the store is modelled

`Database.Store` is a class whose fields are the tables the routes use:

- `users`, `courses` and `bets` are sequences, and a row's id is its
  position;
- `inventory` is a map from (user, item type) to quantity;
- `badges` is a sequence of rows, to which new rows are appended.

`Store.Valid()` is the store's integrity:

- every reference resolves;
- emails are unique;
- there is at most one bet per (user, course) and one badge per
  (user, type);
- every time is a minute of the day;
- a course is FINISHED exactly when it has an actual arrival time.

Each route is a method of its own module that takes the store as `db`. It
keeps `Valid()`, and its `ensures` give the new store for every answer. A
store error (the transaction aborting, an insert failing) is a boolean
parameter. When the route reaches the store and the flag is set, the method
answers `ServerError` (HTTP 500) and the store is unchanged. A request that
an earlier check refuses (a missing field, an unknown id, short funds) gets
that check's answer whatever the flag says. When every check passes and the
flag is clear, the route succeeds. This is how the model shows that each
`$transaction` is all-or-nothing. `Badges.CheckAndAwardBadges` takes the
same kind of flag for its `createMany`: when there are badges to insert and
the insert fails, it answers `ServerError` (the source's promise rejects)
and writes nothing; an unknown user, or one with nothing to award, returns
normally without an insert.

Resolution stages its writes in `ResolveRoute.StageWrites`, a loop over the
bets that works on copies of the tables. Its invariant: after the first `i`
bets, each user's balance equals the old balance plus the payouts of that
user's bets among those `i`. `Settlement.ResolutionCredits` then proves
two facts. First, since bets are unique per (user, course), every bettor
gains exactly the payout of their one bet. Second, every other user is
unchanged.

## What the code does where its labels promise more

The model follows the code. Several of the game's advertised features are
labels only:

- Resolution pays `round(score/100 * amount)` and nothing else. It reads and
  writes no streak and no inventory. It applies no VEST or WARRANT effect,
  pays no bounty for out-scoring the top balance, and consumes no item. The
  VEST description (lib/items.ts:8) promises halved losses and the WARRANT
  description (lib/items.ts:24) doubled gains. The leaderboard shows a
  "WANTED" bounty of 5000 (app/leaderboard/page.tsx:18 and :58). No route
  implements any of these.
- SNIPER has a badge definition, but no check awards it.
- The bet route places every bet for the first user of the table, not for
  the signed-in user. It ignores the request's `appliedItem`. It does not
  check that the course is OPEN, and it does not validate the stake, so a
  zero or negative stake passes the balance check whenever the balance is at
  least the stake. A bet on a FINISHED course is accepted and debited, but
  it can never be paid, because resolving a FINISHED course is refused.
- The course route validates nothing itself. The admin form applies
  `CreateCourseSchema` before it sends.

## Model

| member | source | states |
|---|---|---|
| Clock.ClockMinutes | app/api/resolve/route.ts:29-30 | an accepted "HH:mm" time gives `H*60+M`, a minute of the day whose hour part is H and minute part is M |
| Clock.MatchesClock | app/api/resolve/route.ts:10 | the route pattern: a first digit 0-1 with any second digit, or 2 with 0-3; a colon; a digit 0-5 and any digit |
| Clock.Hours | app/api/resolve/route.ts:29 | the first number of the split time, below 24 for an accepted time |
| Clock.Minutes | app/api/resolve/route.ts:29 | the second number of the split time, below 60 for an accepted time |
| Clock.Pad2 | app/api/courses/live/route.ts:32 | two digits that read back as the number, for a number below 100 |
| Clock.Format | app/api/courses/live/route.ts:30-32 | `pad2(t div 60) ":" pad2(t mod 60)` matches the HH:mm pattern and reads back as t |
| Clock.FormatOfParse | app/api/courses/live/route.ts:30-32 | formatting the minutes of an accepted time gives back the same string |
| Clock.AcceptedIffFormatted | app/api/resolve/route.ts:10 | the pattern accepts exactly the formatted minutes 0..1439 |
| Clock.TimeOfDay | app/api/bets/route.ts:39-41 | `setHours(h, m)` yields the minute of the day congruent to `h*60+m` modulo 1440 |
| Clock.TimeOfDayOfClock | app/api/courses/route.ts:9-11 | for an accepted time, the stored minute of the day is `H*60+M` |
| Scoring.ScoreOfDiff | lib/scoring.ts:12-17 | the score is in [0,1000]; it is 1000 exactly at difference 0; it is 0 exactly from 17 minutes on; a non-zero score is at least 5 |
| Scoring.HugoScore | lib/scoring.ts:9-18 | the same bounds in terms of target and guess; 1000 exactly when they are equal |
| Scoring.HugoScoreSymmetric | lib/scoring.ts:10 | the score is symmetric in its two arguments |
| Scoring.ScoreNonIncreasing | lib/scoring.ts:14-17 | the score never grows as the minute difference grows |
| Scoring.CloserScoresHigher | lib/scoring.ts:10-17 | a guess closer to the arrival time never scores less |
| Scoring.FiveMinutesScoreTwoHundred | lib/scoring.ts:3 | a 5-minute error scores 200 |
| Scoring.TimeToMinutes | lib/scoring.ts:20-22 | `hours*60+minutes` is a minute of the day with those hours and minutes |
| Decay.RoundScore | lib/scoring.ts:15-17 | a score below 5 becomes 0; any other is rounded to the nearest integer, halves up |
| Decay.DecayScore | lib/scoring.ts:12-17 | 1000 at difference 0, otherwise the rounded `1000*e^d`, with `e` standing for exp(-0.32188) |
| Decay.TableIsRoundedDecay | lib/scoring.ts:2-17 | for every real e enclosing exp(-0.32188), `d == 0 ? 1000 : (1000*e^d < 5 ? 0 : round(1000*e^d))` equals the table, for every d |
| Decay.PowEnclosed | lib/scoring.ts:14 | six-decimal bounds on the powers of exp(-0.32188) up to 17 |
| Items.Catalogue | lib/items.ts:4-29 | each entry's id is its key and its price is positive |
| Items.Price | lib/items.ts:9-25 | every price is strictly positive |
| Items.Lookup | app/api/shop/buy/route.ts:12-15 | a key finds the item type with that key, or nothing when no item has it |
| Items.LookupOfKey | lib/items.ts:31 | each item type is found under its own key |
| Items.ExactlyThreeItems | lib/items.ts:4-31 | the catalogue has exactly the keys VEST, MAGNIFIER and WARRANT |
| Items.Prices | lib/items.ts:9-25 | VEST costs 500, MAGNIFIER 300 and WARRANT 1000 |
| Ranks.MinimumsIncrease | lib/ranks.ts:14-24 | the rank minimums start at 0 and are strictly increasing |
| Ranks.FindFromTop | lib/ranks.ts:28 | the reverse search returns the highest rank whose minimum is reached, or nothing when none is |
| Ranks.GetPoliceRank | lib/ranks.ts:26-29 | the rank with the largest minimum not above the balance; the first rank for a negative balance |
| Ranks.RankMonotone | lib/ranks.ts:28 | a higher balance never yields a lower rank |
| Ranks.ThresholdGetsItsRank | lib/ranks.ts:28 | a balance equal to a minimum gets that minimum's rank |
| Ranks.TopRankFrom50000 | lib/ranks.ts:23-28 | every balance of at least 50000 gets the top rank |
| Leaderboard.WantedTarget | app/leaderboard/page.tsx:12-17 | with no users there is no target; otherwise the target is a listed user with the largest balance |
| Leaderboard.InBucket | app/leaderboard/page.tsx:38 | the bucket filter: at least the rank's minimum and, below the top bucket, under the minimum of the bucket above |
| Leaderboard.ReversedRanks | app/leaderboard/page.tsx:19 | the ladder from the top rank down: it starts with the top rank, its minimums strictly decrease, and it ends with the first rank at minimum 0 |
| Leaderboard.UsersInRank | app/leaderboard/page.tsx:37-39 | a bucket lists the users whose balance passes its filter, each as many times as the list holds them, and no one else |
| Leaderboard.BucketIsPoliceRank | app/leaderboard/page.tsx:35-39 | a non-negative balance passes exactly one bucket's filter, the one showing the rank `getPoliceRank` gives |
| Leaderboard.NegativeInNoBucket | app/leaderboard/page.tsx:38 | a negative balance passes no bucket's filter |
| Leaderboard.TopBucketUnbounded | app/leaderboard/page.tsx:36-38 | the top bucket has no upper bound |
| Leaderboard.UserListedUnderOwnRank | app/leaderboard/page.tsx:35-39 | a user with a non-negative balance is listed exactly under their own rank |
| Validations.ClockPatternIsHourAndMinute | lib/validations.ts:5 | the pattern accepts exactly two digits, a colon and two digits with hours 00-23 and minutes 00-59 |
| Validations.BetAccepted | lib/validations.ts:4-10 | `BetSchema`: a time matching the pattern and a stake between 1 and 10000 |
| Validations.CourseAccepted | lib/validations.ts:12-16 | `CreateCourseSchema`: subject and professor of at least 2 UTF-16 code units and a start matching the pattern |
| Validations.UserAccepted | lib/validations.ts:18-23 | `CreateUserSchema` without the email check: a name of at least 2 UTF-16 code units, a password of at least 6 and a non-negative balance |
| Validations.Utf16Length | lib/validations.ts:13-14 | the length a JavaScript string has: one code unit per character below U+10000 and two above, so between the character count and twice it |
| Validations.AstralNamePasses | lib/validations.ts:19 | a single character above U+FFFF counts as two code units, so a one-character name such as a police-officer emoji passes `min(2)` |
| Validations.AcceptedBetTime | lib/validations.ts:4-10 | an accepted bet time splits into H < 24 and M < 60 with `H*60+M` < 1440 |
| Validations.FractionalStakeAccepted | lib/validations.ts:6-9 | a stake is accepted between 1 and 10000 inclusive; 1.5 passes because integrality is not checked |
| Validations.AcceptedCourseStart | lib/validations.ts:12-16 | a course start accepted by the schema is stored as `H*60+M` |
| Validations.UserSchemaBoundaries | lib/validations.ts:18-23 | a name needs 2 UTF-16 code units, a password 6, and the balance must be non-negative |
| Database.FindByEmail | app/api/shop/buy/route.ts:17 | the lookup finds a user with that email, or reports that none has it |
| Database.Consistent | app/api/bets/route.ts:42-62 | the integrity the routes rely on: bets and badges point at existing rows, at most one bet per (user, course) (the unique constraint behind the P2002 answer), one badge per (user, type), unique emails, times within a day, FINISHED exactly with an arrival time |
| Database.Store.Valid | app/api/shop/buy/route.ts:17-31 | the store's tables satisfy that integrity; every route keeps it |
| Settlement.Payout | app/api/resolve/route.ts:41-43 | the payout is the integer nearest to `score*amount/100`, with halves rounded up; for a score of at most 1000 and a non-negative stake it lies in [0, 10*amount] |
| Settlement.ExactGuessPaysTenfold | app/api/resolve/route.ts:42 | a score of 1000 pays 10 times the stake |
| Settlement.ScoreHundredReturnsStake | app/api/resolve/route.ts:42 | a score of 100 returns the stake |
| Settlement.PayoutMonotone | app/api/resolve/route.ts:39-43 | for a non-negative stake, a better score never pays less |
| Settlement.PayoutScenarios | app/api/resolve/route.ts:29-43 | arrival 08:42: an exact guess with stake 100 earns 1000, and a guess 5 minutes off earns 200 |
| Settlement.BetPayout | app/api/resolve/route.ts:39-43 | the payout of a bet: its stake scaled by the score of its guess against the actual arrival |
| Settlement.Settle | app/api/resolve/route.ts:46-49 | a bet on the resolved course records its payout as points earned; any other bet is left as it is |
| Settlement.SettleAll | app/api/resolve/route.ts:45-49 | every bet of the table settled, in table order |
| Settlement.CreditOf | app/api/resolve/route.ts:50-53 | the sum of the payouts of one user's bets on the course |
| Settlement.Credit | app/api/resolve/route.ts:50-53 | each user's balance raised by their credit, no other field changed |
| Settlement.Close | app/api/resolve/route.ts:60-66 | the course marked FINISHED with the actual arrival time, its other fields kept |
| Settlement.CreditExtend | app/api/resolve/route.ts:50-53 | processing one more bet adds its payout to its own bettor's balance only |
| Settlement.CreditOfBettor | app/api/resolve/route.ts:45-54 | given unique (user, course) bets, a bettor is credited exactly their bet's payout |
| Settlement.CreditOfNonBettor | app/api/resolve/route.ts:45-54 | a user without a bet on the course is credited nothing |
| Settlement.CreditNonNegative | app/api/resolve/route.ts:50-53 | with non-negative stakes, resolution never lowers a balance |
| Settlement.ResolutionCredits | app/api/resolve/route.ts:34-55 | each bettor's balance rises by exactly their payout; every other user is unchanged; no name, email or streak changes |
| Settlement.SettledBets | app/api/resolve/route.ts:46-49 | a bet on the course records its payout, keeping its other fields; other bets are unchanged |
| Settlement.ResolutionConsistent | app/api/resolve/route.ts:58-67 | the committed state again satisfies the store's integrity |
| ResolveRoute.StageWrites | app/api/resolve/route.ts:34-55 | the staged bet updates and balance increments are exactly the settled bets and the credited users |
| ResolveRoute.Post | app/api/resolve/route.ts:5-74 | 400 for a missing id or a bad time, 404 for an unknown course, 400 for a FINISHED one, 500 on abort, each leaving the store unchanged; on success, bets settled, balances credited, only that course flipped to FINISHED with its arrival time, inventory and badges untouched |
| ResolveRoute.ResolveTwice | app/api/resolve/route.ts:24-26 | resolving a course a second time is refused and leaves payouts and balances as the first resolution set them |
| BetsRoute.Get | app/api/bets/route.ts:5-24 | returns the first user unchanged, or creates the test user with balance 1000 when there is none |
| BetsRoute.Post | app/api/bets/route.ts:27-65 | 404 without users; 400 when the balance is below the stake; 400 for a duplicate bet; 500 for an unknown course or an abort; each failure leaves the store unchanged. When a user exists, the stake is covered, the course exists, no bet of the first user is on it and the commit goes through, the call succeeds: the first user gets exactly one new bet with guessed minute `setHours(h,m)` and no payout, the balance drops by exactly the stake and stays non-negative, and the new balance is returned. Courses, inventory and badges are untouched |
| ShopBuyRoute.AddOne | app/api/shop/buy/route.ts:27-31 | the upsert adds 1 to the (user, item) quantity, or creates it at 1; other entries are unchanged |
| ShopBuyRoute.Post | app/api/shop/buy/route.ts:7-38 | 401 without a session email, 400 for an unknown item, 400 for an unknown user or short funds, 500 on abort, each with the store unchanged. When the user is found, the price is covered and the commit goes through, the call succeeds: the balance drops by exactly the price and the quantity rises by one |
| CoursesRoute.Post | app/api/courses/route.ts:4-26 | exactly one new OPEN course with the given subject and professor, scheduled at `setHours(h,m)`, with no arrival time; users, bets and the other courses are unchanged |
| LiveRoute.EarliestOpen | app/api/courses/live/route.ts:7-15 | among the first n courses, picks an OPEN one with the earliest start, or none when none is OPEN |
| LiveRoute.LiveCourse | app/api/courses/live/route.ts:7-17 | the OPEN course with the earliest scheduled start; nothing when no course is OPEN |
| LiveRoute.GuessesOn | app/api/courses/live/route.ts:10-14 | the guessed minutes of the course's bets, each minute as many times as there are bets on the course with that guess |
| LiveRoute.SumBounds | app/api/courses/live/route.ts:24-27 | the total lies between count*min and count*max |
| LiveRoute.Sum | app/api/courses/live/route.ts:24-27 | the total of the guesses, as the `reduce` adds them |
| LiveRoute.RoundedMean | app/api/courses/live/route.ts:29 | the average is the integer nearest to total/count, with halves rounded up |
| LiveRoute.MeanWithinGuesses | app/api/courses/live/route.ts:24-29 | the average lies between the smallest and the largest guess |
| LiveRoute.AverageEstimate | app/api/courses/live/route.ts:20-33 | null exactly without bets; otherwise an "HH:mm" string that reads back as the rounded average |
| LiveRoute.Get | app/api/courses/live/route.ts:5-38 | null exactly when no course is OPEN; otherwise the live course, whose estimate is the rounded mean of all guesses on it (null exactly when it has no bets) |
| LiveRoute.RepeatedGuessesEachCount | app/api/courses/live/route.ts:24-32 | two bets guessing 00:00 and one guessing 01:30 give the estimate "00:30": a repeated guess weighs as often as it is made |
| Badges.BetsOf | lib/badges.ts:43-50 | the user's bets, each row as many times as the table holds it, so that their number is the user's bet count; no bet of another user |
| Badges.HeldTypes | lib/badges.ts:54 | the held types are exactly those with a badge row for the user |
| Badges.IsBigWin | lib/badges.ts:63 | a stake of at least 5000 whose earnings, null counted as 0, exceed the stake |
| Badges.Qualifies | lib/badges.ts:58-80 | the condition of each badge type over the user's snapshot; SNIPER never |
| Badges.NewBadgeTypes | lib/badges.ts:57-80 | a type is awarded exactly when it is not held and its condition holds (FIRST_BET: a bet on a FINISHED course; BIG_WINNER: a stake of at least 5000 earning more than the stake, null earning counted as 0; VETERAN: at least 50 bets; MILLIONAIRE: a balance of at least 1000000; HOT_STREAK: a streak of at least 10); no type twice; never SNIPER |
| Badges.Earned | lib/badges.ts:57-80 | the earned types are exactly those whose condition holds for the user's snapshot |
| Badges.AwardedMembers | lib/badges.ts:57-80 | the first k checks push exactly the earned, unheld types whose check is among them |
| Badges.AwardedDistinct | lib/badges.ts:57-80 | no type is pushed twice |
| Badges.PushIfEarned | lib/badges.ts:58-60 | one check appends its type exactly when the type is not held and is earned |
| Badges.CollectNewBadges | lib/badges.ts:55-80 | the five checks, run in source order, push exactly the awarded types, in that order |
| Badges.Rows | lib/badges.ts:83-85 | a row is built exactly for the user and an awarded type; with no type awarded twice, no (user, type) pair repeats |
| Badges.AwardIsIdempotent | lib/badges.ts:54-86 | after an award, checking again on the same data awards nothing |
| Badges.AwardKeepsConsistent | lib/badges.ts:82-86 | appending the awarded rows keeps one badge per (user, type) |
| Badges.CheckAndAwardBadges | lib/badges.ts:42-87 | fails (`ServerError`) exactly when the user exists, there are badges to award and the insert fails, and then changes nothing; an unknown user changes nothing; otherwise exactly the awarded rows are appended; no other table ever changes |

## Left out

- React pages and components (lobby, admin, profile, history, shop, login,
  navbar, layout, profile statistics): rendering, forms and `fetch`. Their
  small display computations use floats and Dates.
- Prisma client setup, environment and middleware. Sessions are not
  modelled: the shop route receives the session's email as a parameter.
- app/api/admin/users/route.ts: a user insert around bcrypt hashing, which
  is a foreign call. Note that `Number(initialBalance) || 1000` there turns
  a requested balance of 0 into 1000.
- app/api/activity/route.ts: a read-only projection of recent bets.
- `Math.exp`: the score is the integer table. `Decay.TableIsRoundedDecay`
  proves that the table matches the formula for any value in
  [0.72478, 0.72479]. That exp(-0.32188) = 0.7247851... lies in this
  interval is a numerical fact outside the proof, since Dafny has no
  exponential.
- Settlement.Payout: rounds in exact arithmetic. The source multiplies
  floating-point numbers, so some exact halves round down. For example,
  score 29 with stake 50 gives 14.4999... and pays 14, where exact rounding
  pays 15.
- Dates and time zones: every time is a minute of the day. The source
  stores full Dates stamped with the day of creation. The live course is
  ordered by that full Date, so a course created on an earlier day comes
  first there. Daylight-saving shifts in `setHours` are not modelled.
- BetsRoute.Post and CoursesRoute.Post: take the two numbers of
  `time.split(":").map(Number)`. A malformed time, which makes an invalid
  Date and a store error, is not modelled.
- Non-integer stakes: the bet schema accepts them, but the stake column is
  an integer. The model's stake is an integer.
- Malformed JSON bodies, which every route answers with 500.
- Items.Lookup: covers the catalogue's own keys. A key such as
  "constructor", which a plain JavaScript object also answers, is not
  modelled.
- Concurrency: the race between the bet route's balance read and its
  transaction. Each transaction is one atomic step.
- Streak updates, the `bestStreak` column, VEST and WARRANT effects,
  bounty payouts, item consumption and SNIPER awarding: no code implements
  them.
- `getRankProgress`: imported by the profile page but not defined in
  lib/ranks.ts.
- The email format check of `CreateUserSchema`: library behaviour.
- prisma/schema.prisma is not part of this model: the integrity constraints
  in `Database.Consistent` are those the routes rely on (`findUnique` by
  email, the P2002 duplicate-bet answer, the `userId_itemType` upsert key).
- Icons, colours, descriptions and labels of items, ranks and badges:
  display only.
