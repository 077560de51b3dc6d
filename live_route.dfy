/**
 * GET of app/api/courses/live/route.ts: the OPEN course with the earliest
 * scheduled start, and the average of its bets' guessed times rounded to
 * the nearest minute and printed as "HH:mm".
 */
module LiveRoute {
  import opened Options
  import opened Database
  import opened Clock

  /**
   * `course.findFirst({ where: { status: "OPEN" }, orderBy: { scheduledStartTime: "asc" } })`
   * among the first `n` courses; ties go to the earlier row.
   */
  function EarliestOpen(courses: seq<Course>, n: nat): (r: Option<nat>)
    requires n <= |courses|
    ensures r.None? <==> forall i :: 0 <= i < n ==> courses[i].status != Open
    ensures r.Some? ==> r.value < n && courses[r.value].status == Open
    ensures r.Some? ==> forall i :: 0 <= i < n && courses[i].status == Open ==>
      courses[r.value].scheduled <= courses[i].scheduled
  {
    if n == 0 then None
    else
      var best := EarliestOpen(courses, n - 1);
      if courses[n - 1].status != Open then best
      else if best.Some? && courses[best.value].scheduled <= courses[n - 1].scheduled then best
      else Some(n - 1)
  }

  function LiveCourse(courses: seq<Course>): (r: Option<nat>)
    ensures r.None? <==> forall i :: 0 <= i < |courses| ==> courses[i].status != Open
    ensures r.Some? ==> r.value < |courses| && courses[r.value].status == Open
    ensures r.Some? ==> forall i :: 0 <= i < |courses| && courses[i].status == Open ==>
      courses[r.value].scheduled <= courses[i].scheduled
  {
    EarliestOpen(courses, |courses|)
  }

  /** The rows of the bets on course `cid` that guessed minute `g`. */
  function BetRows(bets: seq<Bet>, cid: nat, g: nat): set<nat> {
    set i | 0 <= i < |bets| && bets[i].course == cid && bets[i].guessed == g
  }

  /** Dropping the last bet removes its row, and only its row. */
  lemma BetRowsSnoc(bets: seq<Bet>, cid: nat)
    requires bets != []
    ensures var n := |bets| - 1; forall g ::
      |BetRows(bets, cid, g)| == |BetRows(bets[..n], cid, g)| + (if bets[n].course == cid && bets[n].guessed == g then 1 else 0)
  {
    var n := |bets| - 1;
    forall g
      ensures |BetRows(bets, cid, g)| == |BetRows(bets[..n], cid, g)| + (if bets[n].course == cid && bets[n].guessed == g then 1 else 0)
    {
      var prefix := BetRows(bets[..n], cid, g);
      if bets[n].course == cid && bets[n].guessed == g {
        assert BetRows(bets, cid, g) == prefix + {n};
        assert n !in prefix;
      } else {
        assert BetRows(bets, cid, g) == prefix;
      }
    }
  }

  /**
   * The guessed minutes of the bets on course `cid`, in table order: each
   * minute occurs once per bet that guessed it.
   */
  function GuessesOn(bets: seq<Bet>, cid: nat): (r: seq<nat>)
    ensures forall g :: g in r <==> exists b :: b in bets && b.course == cid && b.guessed == g
    ensures forall g :: multiset(r)[g] == |BetRows(bets, cid, g)|
  {
    if bets == [] then
      assert forall g :: BetRows(bets, cid, g) == {};
      []
    else
      var last := bets[|bets| - 1];
      BetRowsSnoc(bets, cid);
      GuessesOn(bets[..|bets| - 1], cid) + (if last.course == cid then [last.guessed] else [])
  }

  /** `bets.reduce((acc, bet) => acc + minutes(bet), 0)`. */
  function Sum(s: seq<nat>): nat {
    if s == [] then 0 else Sum(s[..|s| - 1]) + s[|s| - 1]
  }

  lemma MulSucc(n: nat, x: nat)
    ensures (n + 1) * x == n * x + x
  {
  }

  lemma {:induction false} SumBounds(s: seq<nat>, lo: nat, hi: nat)
    requires forall g :: g in s ==> lo <= g <= hi
    ensures |s| * lo <= Sum(s) <= |s| * hi
  {
    if s != [] {
      var n := |s| - 1;
      var prefix, last := s[..n], s[n];
      assert lo <= last <= hi by { assert last in s; }
      assert forall g :: g in prefix ==> lo <= g <= hi by {
        forall g | g in prefix ensures lo <= g <= hi { assert g in s; }
      }
      SumBounds(prefix, lo, hi);
      assert Sum(s) == Sum(prefix) + last;
      MulSucc(n, lo);
      MulSucc(n, hi);
    }
  }

  /**
   * `Math.round(totalMinutes / count)`: the integer nearest to the mean,
   * halves rounded up.
   */
  function RoundedMean(s: seq<nat>): (avg: nat)
    requires |s| > 0
    ensures 2 * |s| * avg <= 2 * Sum(s) + |s| < 2 * |s| * avg + 2 * |s|
  {
    (2 * Sum(s) + |s|) / (2 * |s|)
  }

  lemma {:induction false} MulMonotone(d: nat, x: nat, y: nat)
    requires x <= y
    ensures d * x <= d * y
  {
    if d > 0 {
      MulMonotone(d - 1, x, y);
      assert d * x == (d - 1) * x + x && d * y == (d - 1) * y + y;
    }
  }

  lemma FactorBelow(d: nat, x: nat, y: nat)
    requires d * x < d * y
    ensures x < y
  {
    if y <= x {
      MulMonotone(d, y, x);
    }
  }

  lemma DivBounds(a: nat, d: nat, lo: nat, hi: nat)
    requires d > 0 && d * lo <= a < d * (hi + 1)
    ensures lo <= a / d <= hi
  {
    var q, r := a / d, a % d;
    assert a == d * q + r && r < d;
    assert d * (q + 1) == d * q + d;
    FactorBelow(d, lo, q + 1);
    FactorBelow(d, q, hi + 1);
  }

  /** The rounded mean lies between the smallest and the largest guess. */
  lemma MeanWithinGuesses(s: seq<nat>, lo: nat, hi: nat)
    requires |s| > 0
    requires forall g :: g in s ==> lo <= g <= hi
    ensures lo <= RoundedMean(s) <= hi
  {
    var n := |s|;
    SumBounds(s, lo, hi);
    assert 2 * n * lo <= 2 * Sum(s) + n;
    assert 2 * Sum(s) + n < 2 * n * (hi + 1);
    DivBounds(2 * Sum(s) + n, 2 * n, lo, hi);
  }

  /**
   * `averageEstimate`: null without bets, otherwise the rounded mean printed
   * as "HH:mm", which reads back as that mean.
   */
  function AverageEstimate(guesses: seq<nat>): (r: Option<string>)
    requires forall g :: g in guesses ==> g < MinutesPerDay
    ensures r.None? <==> guesses == []
    ensures r.Some? ==> MatchesClock(r.value) && ClockMinutes(r.value) == RoundedMean(guesses)
  {
    if guesses == [] then None
    else
      MeanWithinGuesses(guesses, 0, MinutesPerDay - 1);
      Some(Format(RoundedMean(guesses)))
  }

  /** The route's answer: the live course and its average estimate, or null. */
  datatype LiveView = LiveView(course: nat, averageEstimate: Option<string>)

  function Get(courses: seq<Course>, bets: seq<Bet>): (r: Option<LiveView>)
    requires forall b :: b in bets ==> b.guessed < MinutesPerDay
    ensures r.None? <==> LiveCourse(courses).None?
    ensures r.Some? ==> r.value.course == LiveCourse(courses).value
    ensures r.Some? ==> (r.value.averageEstimate.None? <==> GuessesOn(bets, r.value.course) == [])
    ensures r.Some? ==> r.value.averageEstimate == AverageEstimate(GuessesOn(bets, r.value.course))
  {
    match LiveCourse(courses)
    case None => None
    case Some(c) => Some(LiveView(c, AverageEstimate(GuessesOn(bets, c))))
  }

  /** Two bets on 00:00 and one on 01:30 average to 00:30: equal guesses each count. */
  lemma RepeatedGuessesEachCount()
    ensures Get([Course("Maths", "Hugo", 0, Open, None)],
                [Bet(0, 0, 0, 10, None), Bet(1, 0, 0, 10, None), Bet(2, 0, 90, 10, None)])
      == Some(LiveView(0, Some("00:30")))
  {
    var b0, b1, b2 := Bet(0, 0, 0, 10, None), Bet(1, 0, 0, 10, None), Bet(2, 0, 90, 10, None);
    var bets := [b0, b1, b2];
    assert [b0][..0] == [];
    assert GuessesOn([b0], 0) == [0];
    assert [b0, b1][..1] == [b0];
    assert GuessesOn([b0, b1], 0) == [0, 0];
    assert bets[..2] == [b0, b1];
    assert GuessesOn(bets, 0) == [0, 0, 90];
    var g: seq<nat> := [0, 0, 90];
    assert [0][..0] == [] && Sum([0]) == 0;
    assert [0, 0][..1] == [0] && Sum([0, 0]) == 0;
    assert g[..2] == [0, 0] && Sum(g) == 90;
    assert RoundedMean(g) == 30;
    assert LiveCourse([Course("Maths", "Hugo", 0, Open, None)]) == Some(0);
    assert Pad2(0) == "00" && Pad2(30) == "30";
    assert Format(30) == "00:30";
  }
}
