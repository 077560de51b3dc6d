/**
 * The acceptance predicates of the schemas in lib/validations.ts.
 * `z.preprocess(val => Number(val), ...)` turns the input into a number
 * first; the model receives that number as a real.
 */
module Validations {
  import opened Clock

  /**
   * JavaScript's `length`: the number of UTF-16 code units, two for a
   * character outside the Basic Multilingual Plane.
   */
  function Utf16Length(s: string): (n: nat)
    ensures |s| <= n <= 2 * |s|
  {
    if s == [] then 0
    else Utf16Length(s[..|s| - 1]) + (if s[|s| - 1] as int >= 0x1_0000 then 2 else 1)
  }

  /** On text inside the Basic Multilingual Plane, JavaScript's length is the number of characters. */
  lemma {:induction false} Utf16LengthOfBmp(s: string)
    requires forall i :: 0 <= i < |s| ==> s[i] as int < 0x1_0000
    ensures Utf16Length(s) == |s|
  {
    if s != [] {
      Utf16LengthOfBmp(s[..|s| - 1]);
    }
  }

  /** `BetSchema`: an "HH:mm" time and a stake between 1 and 10000, not necessarily whole. */
  predicate BetAccepted(time: string, amount: real) {
    MatchesClock(time) && 1.0 <= amount <= 10000.0
  }

  /** `CreateCourseSchema`. */
  predicate CourseAccepted(subject: string, professor: string, startTime: string) {
    Utf16Length(subject) >= 2 && Utf16Length(professor) >= 2 && MatchesClock(startTime)
  }

  /** `CreateUserSchema`, without the email format check. */
  predicate UserAccepted(name: string, password: string, initialBalance: real) {
    Utf16Length(name) >= 2 && Utf16Length(password) >= 6 && initialBalance >= 0.0
  }

  /** Four digits around a colon, read as hours and minutes. */
  predicate DigitsAt(s: string) {
    |s| == 5 && s[2] == ':' && IsDigit(s[0]) && IsDigit(s[1]) && IsDigit(s[3]) && IsDigit(s[4])
  }

  /**
   * The pattern accepts a string exactly when it is two digits, a colon and
   * two digits, with hours 00 to 23 and minutes 00 to 59.
   */
  lemma ClockPatternIsHourAndMinute(s: string)
    ensures MatchesClock(s) <==>
      DigitsAt(s)
      && 10 * DigitValue(s[0]) + DigitValue(s[1]) < 24
      && 10 * DigitValue(s[3]) + DigitValue(s[4]) < 60
  {
  }

  /** An accepted bet time is a minute of the day, `H * 60 + M`. */
  lemma AcceptedBetTime(time: string, amount: real)
    requires BetAccepted(time, amount)
    ensures Hours(time) < 24 && Minutes(time) < 60
    ensures ClockMinutes(time) == Hours(time) * 60 + Minutes(time) < MinutesPerDay
  {
  }

  /** The stake check does not ask for a whole number. */
  lemma FractionalStakeAccepted()
    ensures BetAccepted("08:30", 1.5)
    ensures !BetAccepted("08:30", 0.5) && !BetAccepted("08:30", 10000.5)
  {
  }

  /** A course accepted by the schema has a start time the routes can read. */
  lemma AcceptedCourseStart(subject: string, professor: string, startTime: string)
    requires CourseAccepted(subject, professor, startTime)
    ensures TimeOfDay(Hours(startTime), Minutes(startTime)) == ClockMinutes(startTime)
  {
    TimeOfDayOfClock(startTime);
  }

  /** The user schema's boundaries: a zero balance and a six-character password pass. */
  lemma UserSchemaBoundaries()
    ensures UserAccepted("Al", "secret", 0.0)
    ensures !UserAccepted("A", "secret", 0.0)
    ensures !UserAccepted("Al", "short", 0.0)
    ensures !UserAccepted("Al", "secret", -1.0)
  {
    Utf16LengthOfBmp("Al");
    Utf16LengthOfBmp("A");
    Utf16LengthOfBmp("secret");
    Utf16LengthOfBmp("short");
  }

  /** A single character outside the Basic Multilingual Plane is two code units: a one-emoji name passes. */
  lemma AstralNamePasses()
    ensures |"\U{1F46E}"| == 1
    ensures UserAccepted("\U{1F46E}", "secret", 0.0)
    ensures CourseAccepted("\U{1F46E}", "\U{1F46E}", "08:30")
  {
    assert "\U{1F46E}"[..0] == [];
    Utf16LengthOfBmp("secret");
  }
}
