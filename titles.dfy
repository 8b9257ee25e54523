/**
 * Journal page titles and the date tags they are keyed by.
 *
 * Days are integer day numbers, so "today - i" is subtraction; day 0 is
 * 0000-01-01. The date tag of a day comes from the runtime's clock and
 * formatter; the model takes it as a function value and assumes only this
 * of it: on the days from 0000-01-01 to 9999-12-31, whose RFC 3339
 * `full-date` (section 5.6) is YYYY-MM-DD, every tag has ten characters and
 * different days have different tags. Outside that range JavaScript writes
 * a signed six-digit year, and nothing is assumed.
 */
module Titles {

  type Day = int

  /** Formats a day as its date tag. */
  type DateFormat = Day -> string

  /** Length of a `full-date`: four year digits, two month digits, two day digits, two dashes. */
  const FullDateLength: nat := 10

  /** Day number of 0000-01-01, the first day whose `full-date` has a four-digit year. */
  const FirstDay: Day := 0

  /**
   * Day number of 9999-12-31, the last such day: the years 0000 to 9999 of
   * the proleptic Gregorian calendar have 10000 * 365 days plus 2425 leap days.
   */
  const LastDay: Day := 3652424

  /** The days written `YYYY-MM-DD`; outside them the year takes a sign and six digits. */
  predicate InCalendar(d: Day) {
    FirstDay <= d <= LastDay
  }

  /** What the model assumes of the date tag: on calendar days, ten characters and one tag per day. */
  ghost predicate IsFullDateFormat(tag: DateFormat) {
    && (forall d :: InCalendar(d) ==> |tag(d)| == FullDateLength)
    && (forall d, e :: InCalendar(d) && InCalendar(e) && tag(d) == tag(e) ==> d == e)
  }

  /** `n` written with `width` decimal digits, most significant first (`n` modulo 10^width). */
  function Digits(n: nat, width: nat): (r: string)
    ensures |r| == width
  {
    if width == 0 then [] else Digits(n / 10, width - 1) + [('0' as int + n % 10) as char]
  }

  /** The number a string of decimal digits denotes. */
  function DigitsValue(s: string): int {
    if s == [] then 0 else 10 * DigitsValue(s[..|s| - 1]) + (s[|s| - 1] as int - '0' as int)
  }

  function Pow10(width: nat): nat {
    if width == 0 then 1 else 10 * Pow10(width - 1)
  }

  /** Reading back the digits of a number below 10^width gives the number. */
  lemma {:induction false} DigitsRoundTrip(n: nat, width: nat)
    requires n < Pow10(width)
    ensures DigitsValue(Digits(n, width)) == n
  {
    if width > 0 {
      assert n / 10 < Pow10(width - 1);
      DigitsRoundTrip(n / 10, width - 1);
      var s := Digits(n, width);
      assert s[..|s| - 1] == Digits(n / 10, width - 1);
    }
  }

  /** A date tag: the day's offset from `FirstDay` in ten decimal digits. */
  function DayNumberTag(d: Day): string {
    if InCalendar(d) then Digits(d - FirstDay, FullDateLength) else Digits(0, FullDateLength)
  }

  /** The assumption on date tags can be met. */
  lemma DayNumberTagIsFullDateFormat()
    ensures IsFullDateFormat(DayNumberTag)
  {
    assert LastDay - FirstDay < Pow10(FullDateLength);
    forall d, e | InCalendar(d) && InCalendar(e) && DayNumberTag(d) == DayNumberTag(e)
      ensures d == e
    {
      DigitsRoundTrip(d - FirstDay, FullDateLength);
      DigitsRoundTrip(e - FirstDay, FullDateLength);
    }
  }

  const TitlePrefix: string := "Daily Journal - "

  /** The title of the journal page for day `d`, and the string the lookups search for. */
  function DayTitle(tag: DateFormat, d: Day): string {
    TitlePrefix + tag(d)
  }

  /** JavaScript's `s.includes(sub)`: `sub` is a prefix of `s` or of some suffix of it. */
  predicate Contains(s: string, sub: string) {
    sub <= s || (|s| > 0 && Contains(s[1..], sub))
  }

  /** `sub` occurs in `s` starting at position `i`. */
  predicate OccursAt(s: string, sub: string, i: int) {
    0 <= i && i + |sub| <= |s| && s[i..i + |sub|] == sub
  }

  /** `Contains` is substring search: `sub` occurs in `s` at some position. */
  lemma {:induction false} ContainsMeans(s: string, sub: string)
    ensures Contains(s, sub) <==> exists i :: OccursAt(s, sub, i)
  {
    if sub <= s {
      assert OccursAt(s, sub, 0);
    } else if |s| > 0 {
      ContainsMeans(s[1..], sub);
      if Contains(s[1..], sub) {
        var i :| OccursAt(s[1..], sub, i);
        assert s[1..][i..i + |sub|] == s[i + 1..i + 1 + |sub|];
        assert OccursAt(s, sub, i + 1);
      }
      forall i | OccursAt(s, sub, i)
        ensures Contains(s[1..], sub)
      {
        assert i != 0;
        assert s[1..][i - 1..i - 1 + |sub|] == s[i..i + |sub|];
        assert OccursAt(s[1..], sub, i - 1);
      }
    }
  }

  lemma {:induction false} ContainsSelf(s: string)
    ensures Contains(s, s)
  {
  }

  lemma {:induction false} ContainsIsNoLonger(s: string, sub: string)
    requires Contains(s, sub)
    ensures |sub| <= |s|
  {
    if !(sub <= s) {
      ContainsIsNoLonger(s[1..], sub);
    }
  }

  /**
   * The title of one day's page contains the search string of no other day:
   * both have the same length, so containment is equality, and the tag is
   * injective.
   */
  lemma {:induction false} TitleMatchesOnlyItsDay(tag: DateFormat, d: Day, e: Day)
    requires IsFullDateFormat(tag) && InCalendar(d) && InCalendar(e)
    requires Contains(DayTitle(tag, d), DayTitle(tag, e))
    ensures d == e
  {
    var s, sub := DayTitle(tag, d), DayTitle(tag, e);
    assert |s| == |sub|;
    if !(sub <= s) {
      ContainsIsNoLonger(s[1..], sub);
    }
    assert s == sub;
    assert tag(d) == s[|TitlePrefix|..];
    assert tag(e) == sub[|TitlePrefix|..];
  }
}
