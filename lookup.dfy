/**
 * Finding journal pages in the parent page's listing of child blocks
 * (index.js: `getTodayPageId` and `getMostRecentPage`).
 */
module Lookup {
  import opened Wrappers
  import opened Titles

  type PageId = nat

  /** A child block of the parent page: a `child_page` with its id and title, or any other block. */
  datatype Child = ChildPage(id: PageId, title: string) | OtherChild

  /** The `find` predicate of both lookups: a `child_page` whose title contains `key`. */
  predicate IsPageFor(c: Child, key: string) {
    c.ChildPage? && Contains(c.title, key)
  }

  ghost predicate NoHit(listing: seq<Child>, key: string) {
    forall k :: 0 <= k < |listing| ==> !IsPageFor(listing[k], key)
  }

  /** Position `k` holds the first page of `listing` whose title contains `key`. */
  ghost predicate FirstHitAt(listing: seq<Child>, key: string, k: int) {
    && 0 <= k < |listing|
    && IsPageFor(listing[k], key)
    && (forall j :: 0 <= j < k ==> !IsPageFor(listing[j], key))
  }

  /** `Array.prototype.find` with `IsPageFor`, as a position in the listing. */
  function FirstMatch(listing: seq<Child>, key: string): (r: Option<nat>)
    ensures r.Some? ==> FirstHitAt(listing, key, r.value)
    ensures r.None? <==> NoHit(listing, key)
  {
    if listing == [] then None
    else if IsPageFor(listing[0], key) then Some(0)
    else
      match FirstMatch(listing[1..], key)
      case None => None
      case Some(k) => Some(k + 1)
  }

  /**
   * `getTodayPageId`: the id of the first `child_page` whose title contains
   * today's title, or `undefined` when there is none.
   */
  function TodayPageId(listing: seq<Child>, tag: DateFormat, today: Day): (r: Option<PageId>)
    ensures r.None? <==> NoHit(listing, DayTitle(tag, today))
    ensures r.Some? ==>
      exists k :: FirstHitAt(listing, DayTitle(tag, today), k) && listing[k].id == r.value
  {
    match FirstMatch(listing, DayTitle(tag, today))
    case None => None
    case Some(k) => Some(listing[k].id)
  }

  /** How many days back the prior-page search looks. */
  const LookbackDays: nat := 7

  /** Days `today - LookbackDays` .. `today - 1`, the only days the prior-page search considers. */
  predicate InWindow(today: Day, d: Day) {
    today - LookbackDays <= d <= today - 1
  }

  /** Today and the seven days before it are calendar days. */
  predicate WindowInCalendar(today: Day) {
    InCalendar(today - LookbackDays) && InCalendar(today)
  }

  /** No page of the listing has a title containing day `d`'s title. */
  ghost predicate NoPageFor(listing: seq<Child>, tag: DateFormat, d: Day) {
    FirstMatch(listing, DayTitle(tag, d)).None?
  }

  /** No day from `lo` to `hi` has a page in the listing. */
  ghost predicate NoHitBetween(listing: seq<Child>, tag: DateFormat, lo: Day, hi: Day)
    decreases hi - lo
  {
    lo > hi || (NoPageFor(listing, tag, hi) && NoHitBetween(listing, tag, lo, hi - 1))
  }

  /** `NoHitBetween` holds exactly when every day from `lo` to `hi` lacks a page. */
  lemma {:induction false} NoHitBetweenMeans(listing: seq<Child>, tag: DateFormat, lo: Day, hi: Day)
    decreases hi - lo
    ensures NoHitBetween(listing, tag, lo, hi) <==> forall d :: lo <= d <= hi ==> NoPageFor(listing, tag, d)
  {
    if lo <= hi {
      NoHitBetweenMeans(listing, tag, lo, hi - 1);
    }
  }

  /**
   * `p` is the first page, in listing order, for the latest day from `lo`
   * to `hi` that has a page at all.
   */
  ghost predicate NearestHit(listing: seq<Child>, tag: DateFormat, lo: Day, hi: Day, p: Child) {
    exists d ::
      && lo <= d <= hi
      && NoHitBetween(listing, tag, d + 1, hi)
      && !NoPageFor(listing, tag, d)
      && p == listing[FirstMatch(listing, DayTitle(tag, d)).value]
  }

  /**
   * The search from offset `i` on, as the day it stops at: the latest day
   * from `today - LookbackDays` to `today - i` that has a page, tried in the
   * order `today - i`, `today - i - 1`, ...
   */
  function NearestDay(listing: seq<Child>, tag: DateFormat, today: Day, i: nat): (r: Option<Day>)
    requires 1 <= i <= LookbackDays + 1
    decreases LookbackDays + 1 - i
    ensures r.None? <==> NoHitBetween(listing, tag, today - LookbackDays, today - i)
    ensures r.Some? ==>
      && today - LookbackDays <= r.value <= today - i
      && !NoPageFor(listing, tag, r.value)
      && NoHitBetween(listing, tag, r.value + 1, today - i)
  {
    if i > LookbackDays then
      None
    else if FirstMatch(listing, DayTitle(tag, today - i)).Some? then
      assert !NoPageFor(listing, tag, today - i);
      Some(today - i)
    else
      var r := NearestDay(listing, tag, today, i + 1);
      assert NoPageFor(listing, tag, today - i);
      r
  }

  /**
   * `getMostRecentPage`: among the seven days before today, the closest one
   * whose title occurs in the listing decides, and its first page in listing
   * order is the result; `null` when none of the seven days has a page.
   */
  function MostRecentPage(listing: seq<Child>, tag: DateFormat, today: Day): (r: Option<Child>)
    ensures r.None? <==> NoHitBetween(listing, tag, today - LookbackDays, today - 1)
    ensures r.Some? ==> NearestHit(listing, tag, today - LookbackDays, today - 1, r.value)
    ensures r.Some? ==> r.value in listing && r.value.ChildPage?
  {
    match NearestDay(listing, tag, today, 1)
    case None => None
    case Some(d) => Some(listing[FirstMatch(listing, DayTitle(tag, d)).value])
  }
}

/** Facts about the lookups that the orchestrator and the journal conventions rely on. */
module LookupFacts {
  import opened Wrappers
  import opened Titles
  import opened Lookup

  /** A child appended after the listing changes no search whose key it does not match. */
  lemma {:induction false} FirstMatchAppendMiss(listing: seq<Child>, x: Child, key: string)
    requires !IsPageFor(x, key)
    ensures FirstMatch(listing + [x], key) == FirstMatch(listing, key)
  {
    if listing != [] {
      assert (listing + [x])[1..] == listing[1..] + [x];
      FirstMatchAppendMiss(listing[1..], x, key);
    }
  }

  /** A child appended after the listing changes no search that already has a hit. */
  lemma {:induction false} FirstMatchAppendHit(listing: seq<Child>, x: Child, key: string)
    requires FirstMatch(listing, key).Some?
    ensures FirstMatch(listing + [x], key) == FirstMatch(listing, key)
  {
    if !IsPageFor(listing[0], key) {
      assert (listing + [x])[1..] == listing[1..] + [x];
      FirstMatchAppendHit(listing[1..], x, key);
    }
  }

  /**
   * Idempotent creation: once `createDailyPage` has appended the page titled
   * `Daily Journal - <today>`, the today lookup finds a page; the created one
   * when there was none before, the earlier one otherwise.
   */
  lemma {:induction false} CreatedPageIsFound(listing: seq<Child>, tag: DateFormat, today: Day, id: PageId)
    ensures TodayPageId(listing + [ChildPage(id, DayTitle(tag, today))], tag, today)
         == if TodayPageId(listing, tag, today).None? then Some(id) else TodayPageId(listing, tag, today)
  {
    var key := DayTitle(tag, today);
    var x := ChildPage(id, key);
    if FirstMatch(listing, key).Some? {
      FirstMatchAppendHit(listing, x, key);
    } else {
      ContainsSelf(key);
      assert FirstHitAt(listing + [x], key, |listing|);
    }
  }

  /** A child that matches none of the days in the window leaves the search from any offset unchanged. */
  lemma {:induction false} NearestDayAppendMiss(listing: seq<Child>, x: Child, tag: DateFormat, today: Day, i: nat)
    requires 1 <= i <= LookbackDays + 1
    requires forall d :: InWindow(today, d) ==> !IsPageFor(x, DayTitle(tag, d))
    decreases LookbackDays + 1 - i
    ensures NearestDay(listing + [x], tag, today, i) == NearestDay(listing, tag, today, i)
  {
    if i <= LookbackDays {
      assert InWindow(today, today - i);
      FirstMatchAppendMiss(listing, x, DayTitle(tag, today - i));
      NearestDayAppendMiss(listing, x, tag, today, i + 1);
    }
  }

  /**
   * The page `runDailyAutomation` creates for today is never taken as the
   * prior page: its title contains the tag of no other day.
   */
  lemma {:induction false} CreatedPageIsNotPrior(listing: seq<Child>, tag: DateFormat, today: Day, id: PageId)
    requires IsFullDateFormat(tag) && WindowInCalendar(today)
    ensures MostRecentPage(listing + [ChildPage(id, DayTitle(tag, today))], tag, today)
         == MostRecentPage(listing, tag, today)
  {
    var x := ChildPage(id, DayTitle(tag, today));
    forall d | InWindow(today, d)
      ensures !IsPageFor(x, DayTitle(tag, d))
    {
      if IsPageFor(x, DayTitle(tag, d)) {
        TitleMatchesOnlyItsDay(tag, today, d);
      }
    }
    NearestDayAppendMiss(listing, x, tag, today, 1);
    match NearestDay(listing, tag, today, 1)
    case None =>
    case Some(d) =>
      FirstMatchAppendMiss(listing, x, DayTitle(tag, d));
      var k := FirstMatch(listing, DayTitle(tag, d)).value;
      assert (listing + [x])[k] == listing[k];
  }

  /**
   * Every `child_page` of the listing is titled exactly
   * `Daily Journal - <tag of days[k]>`, for a calendar day `days[k]`.
   */
  ghost predicate JournalTitled(listing: seq<Child>, tag: DateFormat, days: seq<Day>) {
    && |days| == |listing|
    && forall k :: 0 <= k < |listing| && listing[k].ChildPage? ==>
      listing[k].title == DayTitle(tag, days[k]) && InCalendar(days[k])
  }

  lemma {:induction false} JournalPageMatchesOnlyItsDay(listing: seq<Child>, tag: DateFormat, days: seq<Day>, k: int, d: Day)
    requires IsFullDateFormat(tag) && JournalTitled(listing, tag, days) && InCalendar(d)
    requires 0 <= k < |listing| && IsPageFor(listing[k], DayTitle(tag, d))
    ensures days[k] == d
  {
    TitleMatchesOnlyItsDay(tag, days[k], d);
  }

  lemma {:induction false} JournalPageMatchesItsDay(listing: seq<Child>, tag: DateFormat, days: seq<Day>, k: int)
    requires JournalTitled(listing, tag, days)
    requires 0 <= k < |listing| && listing[k].ChildPage?
    ensures IsPageFor(listing[k], DayTitle(tag, days[k]))
  {
    ContainsSelf(listing[k].title);
  }

  /** For journal pages, no day from `lo` to `hi` has a page exactly when no page is dated in that range. */
  lemma {:induction false} JournalNoHitBetween(listing: seq<Child>, tag: DateFormat, days: seq<Day>, lo: Day, hi: Day)
    requires IsFullDateFormat(tag) && JournalTitled(listing, tag, days)
    requires FirstDay <= lo && hi <= LastDay
    ensures NoHitBetween(listing, tag, lo, hi) <==>
      forall k :: 0 <= k < |listing| && listing[k].ChildPage? ==> !(lo <= days[k] <= hi)
  {
    NoHitBetweenMeans(listing, tag, lo, hi);
    if NoHitBetween(listing, tag, lo, hi) {
      forall k | 0 <= k < |listing| && listing[k].ChildPage?
        ensures !(lo <= days[k] <= hi)
      {
        JournalPageMatchesItsDay(listing, tag, days, k);
        assert lo <= days[k] <= hi ==> NoPageFor(listing, tag, days[k]);
      }
    }
    if forall k :: 0 <= k < |listing| && listing[k].ChildPage? ==> !(lo <= days[k] <= hi) {
      forall d | lo <= d <= hi
        ensures NoPageFor(listing, tag, d)
      {
        forall k | 0 <= k < |listing| && IsPageFor(listing[k], DayTitle(tag, d))
          ensures false
        {
          JournalPageMatchesOnlyItsDay(listing, tag, days, k, d);
        }
      }
    }
  }

  /**
   * The `k`-th child is a journal page dated in the window, no page in the
   * window is dated later, and no earlier page carries the same date.
   */
  ghost predicate LatestInWindowAt(listing: seq<Child>, today: Day, days: seq<Day>, k: int)
    requires |days| == |listing|
  {
    && 0 <= k < |listing| && listing[k].ChildPage?
    && InWindow(today, days[k])
    && (forall j :: 0 <= j < |listing| && listing[j].ChildPage? && InWindow(today, days[j]) ==> days[j] <= days[k])
    && (forall j :: 0 <= j < k && listing[j].ChildPage? ==> days[j] != days[k])
  }

  /**
   * For a parent holding only journal pages, the prior-page search returns
   * the first page of the latest day among the seven before today, and
   * nothing when none of those days has a page: today's page and pages more
   * than seven days old are never taken.
   */
  lemma {:induction false} JournalPriorPageIsLatestDay(listing: seq<Child>, tag: DateFormat, today: Day, days: seq<Day>)
    requires IsFullDateFormat(tag) && WindowInCalendar(today)
    requires JournalTitled(listing, tag, days)
    ensures MostRecentPage(listing, tag, today).None? <==>
      forall k :: 0 <= k < |listing| && listing[k].ChildPage? ==> !InWindow(today, days[k])
    ensures MostRecentPage(listing, tag, today).Some? ==>
      exists k :: LatestInWindowAt(listing, today, days, k) && MostRecentPage(listing, tag, today).value == listing[k]
  {
    var r := MostRecentPage(listing, tag, today);
    if r.Some? {
      var d, k := PriorPageWitness(listing, tag, today);
      JournalLatestPage(listing, tag, today, days, d, k);
    }
    JournalNoHitBetween(listing, tag, days, today - LookbackDays, today - 1);
  }

  /** The day the prior-page search stops at, and the position of the page it returns. */
  lemma {:induction false} PriorPageWitness(listing: seq<Child>, tag: DateFormat, today: Day) returns (d: Day, k: nat)
    requires MostRecentPage(listing, tag, today).Some?
    ensures InWindow(today, d) && NoHitBetween(listing, tag, d + 1, today - 1)
    ensures FirstHitAt(listing, DayTitle(tag, d), k)
    ensures MostRecentPage(listing, tag, today).value == listing[k]
  {
    d := NearestDay(listing, tag, today, 1).value;
    k := FirstMatch(listing, DayTitle(tag, d)).value;
  }

  /** The page the search stops at is the latest dated in the window, and the first of its date. */
  lemma {:induction false} JournalLatestPage(listing: seq<Child>, tag: DateFormat, today: Day, days: seq<Day>, d: Day, k: nat)
    requires IsFullDateFormat(tag) && WindowInCalendar(today)
    requires JournalTitled(listing, tag, days)
    requires InWindow(today, d)
    requires NoHitBetween(listing, tag, d + 1, today - 1)
    requires FirstHitAt(listing, DayTitle(tag, d), k)
    ensures LatestInWindowAt(listing, today, days, k)
  {
    JournalPageMatchesOnlyItsDay(listing, tag, days, k, d);
    JournalNoHitBetween(listing, tag, days, d + 1, today - 1);
    forall j | 0 <= j < k && listing[j].ChildPage?
      ensures days[j] != days[k]
    {
      JournalPageMatchesItsDay(listing, tag, days, j);
    }
  }
}
