/**
 * "HH:mm" clock times as the routes accept them (the regular expression
 * ^([01]\d|2[0-3]):([0-5]\d)$), their value in minutes since midnight, the
 * two-digit formatting used to print an average time back, and the
 * normalisation that Date.setHours applies to hours and minutes.
 */
module Clock {

  const MinutesPerDay := 1440

  predicate IsDigit(c: char) {
    '0' <= c <= '9'
  }

  function DigitValue(c: char): (v: nat)
    requires IsDigit(c)
    ensures v < 10
  {
    (c as int - '0' as int) as nat
  }

  function DigitChar(v: nat): (c: char)
    requires v < 10
    ensures IsDigit(c) && DigitValue(c) == v
  {
    ('0' as int + v) as char
  }

  lemma DigitRoundTrip(c: char)
    requires IsDigit(c)
    ensures DigitChar(DigitValue(c)) == c
  {
  }

  /** The route pattern ^([01]\d|2[0-3]):([0-5]\d)$, alternative by alternative. */
  predicate MatchesClock(s: string) {
    && |s| == 5
    && ((('0' <= s[0] <= '1') && IsDigit(s[1])) || (s[0] == '2' && '0' <= s[1] <= '3'))
    && s[2] == ':'
    && '0' <= s[3] <= '5'
    && IsDigit(s[4])
  }

  /** The first number of `time.split(":").map(Number)`. */
  function Hours(s: string): (h: nat)
    requires MatchesClock(s)
    ensures h < 24
  {
    10 * DigitValue(s[0]) + DigitValue(s[1])
  }

  /** The second number of `time.split(":").map(Number)`. */
  function Minutes(s: string): (m: nat)
    requires MatchesClock(s)
    ensures m < 60
  {
    10 * DigitValue(s[3]) + DigitValue(s[4])
  }

  /** `H * 60 + M` for an accepted clock time. */
  function ClockMinutes(s: string): (t: nat)
    requires MatchesClock(s)
    ensures t < MinutesPerDay
    ensures t / 60 == Hours(s) && t % 60 == Minutes(s)
  {
    Hours(s) * 60 + Minutes(s)
  }

  /** `n.toString().padStart(2, '0')` for a number below 100. */
  function Pad2(n: nat): (s: string)
    requires n < 100
    ensures |s| == 2 && IsDigit(s[0]) && IsDigit(s[1])
    ensures 10 * DigitValue(s[0]) + DigitValue(s[1]) == n
  {
    [DigitChar(n / 10), DigitChar(n % 10)]
  }

  /** `pad2(floor(t / 60)) + ":" + pad2(t % 60)`: a minute of the day printed as "HH:mm". */
  function Format(t: nat): (s: string)
    requires t < MinutesPerDay
    ensures MatchesClock(s)
    ensures ClockMinutes(s) == t
  {
    Pad2(t / 60) + ":" + Pad2(t % 60)
  }

  /** Two digits printed back by `Pad2` are the same two digits. */
  lemma Pad2OfDigits(a: char, b: char)
    requires IsDigit(a) && IsDigit(b)
    ensures Pad2(10 * DigitValue(a) + DigitValue(b)) == [a, b]
  {
    var n := 10 * DigitValue(a) + DigitValue(b);
    assert n / 10 == DigitValue(a) && n % 10 == DigitValue(b);
    DigitRoundTrip(a);
    DigitRoundTrip(b);
  }

  /** Every accepted clock string is the formatting of its own value. */
  lemma FormatOfParse(s: string)
    requires MatchesClock(s)
    ensures Format(ClockMinutes(s)) == s
  {
    var t := ClockMinutes(s);
    assert Format(t) == Pad2(Hours(s)) + ":" + Pad2(Minutes(s));
    Pad2OfDigits(s[0], s[1]);
    Pad2OfDigits(s[3], s[4]);
    assert s == [s[0], s[1]] + ":" + [s[3], s[4]];
  }

  /** The accepted clock strings are exactly the formatted minutes of a day. */
  lemma AcceptedIffFormatted(s: string)
    ensures MatchesClock(s) <==> exists t :: 0 <= t < MinutesPerDay && Format(t) == s
  {
    if MatchesClock(s) {
      FormatOfParse(s);
    }
  }

  /**
   * The minute of the day a Date shows after `setHours(h, m, 0, 0)`:
   * Date arithmetic carries surplus minutes and hours into the next day
   * (and negative ones into the previous day).
   */
  function TimeOfDay(h: int, m: int): (t: nat)
    ensures t < MinutesPerDay
    ensures (h * 60 + m - t) % MinutesPerDay == 0
  {
    (h * 60 + m) % MinutesPerDay
  }

  /** For an accepted clock string, the Date's time of day is `H * 60 + M`. */
  lemma TimeOfDayOfClock(s: string)
    requires MatchesClock(s)
    ensures TimeOfDay(Hours(s), Minutes(s)) == ClockMinutes(s)
  {
  }
}
