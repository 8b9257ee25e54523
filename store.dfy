/**
 * The document store seen by index.js, held in memory, and the three
 * operations of index.js that act on it: `createDailyPage`,
 * `moveIncompleteTasks` and `runDailyAutomation`.
 */
module Store {
  import opened Wrappers
  import opened Titles
  import opened Lookup
  import opened LookupFacts
  import opened Migration

  type Pages = map<PageId, seq<Block>>

  /** Every `child_page` of the parent listing has a block sequence in the store. */
  ghost predicate PagesListed(parent: seq<Child>, pages: Pages) {
    forall c :: c in parent && c.ChildPage? ==> c.id in pages
  }

  lemma {:induction false} TodayPageIsListed(parent: seq<Child>, pages: Pages, tag: DateFormat, today: Day)
    requires PagesListed(parent, pages)
    ensures TodayPageId(parent, tag, today).Some? ==> TodayPageId(parent, tag, today).value in pages
  {
    if TodayPageId(parent, tag, today).Some? {
      var k :| FirstHitAt(parent, DayTitle(tag, today), k) && parent[k].id == TodayPageId(parent, tag, today).value;
      assert parent[k] in parent;
    }
  }

  /**
   * `moveIncompleteTasks` runs without throwing: when the prior page has
   * incomplete tasks, today's page exists (index.js:73 reads `.results` of
   * today's content) and every `to_do` whose `rich_text[0]` the loop reads
   * has one (index.js:75).
   */
  ghost predicate MigrationDefined(parent: seq<Child>, pages: Pages, tag: DateFormat, today: Day)
    requires PagesListed(parent, pages)
  {
    match MostRecentPage(parent, tag, today)
    case None => true
    case Some(prior) =>
      var candidates := IncompleteTasks(pages[prior.id]);
      candidates == [] ||
        (TodayPageIsListed(parent, pages, tag, today);
         && TodayPageId(parent, tag, today).Some?
         && WellFormed(candidates)
         && WellFormed(pages[TodayPageId(parent, tag, today).value]))
  }

  /**
   * The store after `moveIncompleteTasks`: unchanged when no prior page is
   * found or it has no incomplete task; otherwise today's page gains the
   * migrated blocks at its end.
   */
  function MigrationResult(parent: seq<Child>, pages: Pages, tag: DateFormat, today: Day): Pages
    requires PagesListed(parent, pages) && MigrationDefined(parent, pages, tag, today)
  {
    match MostRecentPage(parent, tag, today)
    case None => pages
    case Some(prior) =>
      var candidates := IncompleteTasks(pages[prior.id]);
      if candidates == [] then pages
      else
        TodayPageIsListed(parent, pages, tag, today);
        var t := TodayPageId(parent, tag, today).value;
        pages[t := pages[t] + Migrated(candidates, pages[t])]
  }

  /**
   * Only appends to today's page happen: every other page keeps its blocks,
   * today's page keeps its blocks as a prefix, and with no prior page in the
   * window nothing changes at all.
   */
  lemma {:induction false} MigrationOnlyAppendsToToday(parent: seq<Child>, pages: Pages, tag: DateFormat, today: Day)
    requires PagesListed(parent, pages) && MigrationDefined(parent, pages, tag, today)
    ensures MigrationResult(parent, pages, tag, today).Keys == pages.Keys
    ensures MostRecentPage(parent, tag, today).None? ==> MigrationResult(parent, pages, tag, today) == pages
    ensures forall id :: id in pages && Some(id) != TodayPageId(parent, tag, today) ==>
      MigrationResult(parent, pages, tag, today)[id] == pages[id]
    ensures forall id :: id in pages && Some(id) == TodayPageId(parent, tag, today) ==>
      pages[id] <= MigrationResult(parent, pages, tag, today)[id]
    ensures MostRecentPage(parent, tag, today).Some? ==>
      MigrationResult(parent, pages, tag, today)[MostRecentPage(parent, tag, today).value.id]
        == pages[MostRecentPage(parent, tag, today).value.id]
  {
    match MostRecentPage(parent, tag, today)
    case None =>
    case Some(prior) =>
      var candidates := IncompleteTasks(pages[prior.id]);
      if candidates != [] {
        TodayPageIsListed(parent, pages, tag, today);
        var t := TodayPageId(parent, tag, today).value;
        if prior.id == t {
          SelfMigrationIsNoop(pages[t]);
        }
      }
  }

  /**
   * Running the migration a second time against the same pages appends
   * nothing: the store after two runs equals the store after one.
   */
  lemma {:induction false} MigrationIdempotent(parent: seq<Child>, pages: Pages, tag: DateFormat, today: Day)
    requires PagesListed(parent, pages) && MigrationDefined(parent, pages, tag, today)
    ensures PagesListed(parent, MigrationResult(parent, pages, tag, today))
    ensures MigrationDefined(parent, MigrationResult(parent, pages, tag, today), tag, today)
    ensures MigrationResult(parent, MigrationResult(parent, pages, tag, today), tag, today)
         == MigrationResult(parent, pages, tag, today)
  {
    var after := MigrationResult(parent, pages, tag, today);
    MigrationOnlyAppendsToToday(parent, pages, tag, today);
    match MostRecentPage(parent, tag, today)
    case None =>
    case Some(prior) =>
      var candidates := IncompleteTasks(pages[prior.id]);
      if candidates != [] {
        TodayPageIsListed(parent, pages, tag, today);
        var t := TodayPageId(parent, tag, today).value;
        MigratedIdempotent(candidates, pages[t]);
        assert after[prior.id] == pages[prior.id];
        assert after[t] == pages[t] + Migrated(candidates, pages[t]);
        assert after[t] + [] == after[t];
        UpdateWithSame(after, t, after[t] + []);
      }
  }

  /**
   * `runDailyAutomation` runs without throwing: with today's page present,
   * the migration must be defined as it stands. With today's page still to
   * be created, the prior page's incomplete tasks must have a first span.
   * The source needs less there: the new page is empty, so the duplicate
   * test reads no first span at all; the model keeps the convention that
   * every migrated `to_do` has one.
   */
  ghost predicate RunDefined(parent: seq<Child>, pages: Pages, tag: DateFormat, today: Day)
    requires PagesListed(parent, pages)
  {
    if TodayPageId(parent, tag, today).Some? then MigrationDefined(parent, pages, tag, today)
    else
      match MostRecentPage(parent, tag, today)
      case None => true
      case Some(prior) => WellFormed(IncompleteTasks(pages[prior.id]))
  }

  /**
   * After today's page is created, the migration is defined, the today
   * lookup finds the new page, and the prior page is the one found before.
   */
  lemma {:induction false} CreationDefinesMigration(parent: seq<Child>, pages: Pages, tag: DateFormat, today: Day, id: PageId)
    requires PagesListed(parent, pages) && IsFullDateFormat(tag) && WindowInCalendar(today)
    requires TodayPageId(parent, tag, today).None? && RunDefined(parent, pages, tag, today)
    requires id !in pages
    ensures PagesListed(parent + [ChildPage(id, DayTitle(tag, today))], pages[id := []])
    ensures TodayPageId(parent + [ChildPage(id, DayTitle(tag, today))], tag, today) == Some(id)
    ensures MostRecentPage(parent + [ChildPage(id, DayTitle(tag, today))], tag, today) == MostRecentPage(parent, tag, today)
    ensures MigrationDefined(parent + [ChildPage(id, DayTitle(tag, today))], pages[id := []], tag, today)
  {
    var parent', pages' := parent + [ChildPage(id, DayTitle(tag, today))], pages[id := []];
    CreatedPageIsFound(parent, tag, today, id);
    CreatedPageIsNotPrior(parent, tag, today, id);
    match MostRecentPage(parent, tag, today)
    case None =>
    case Some(prior) =>
      assert prior.id in pages;
      assert pages'[prior.id] == pages[prior.id];
      assert WellFormed(pages'[id]);
  }

  /** The store's pages after today's page `id` is created empty and the migration has run. */
  function MigrationAfterCreation(parent: seq<Child>, pages: Pages, tag: DateFormat, today: Day, id: PageId): Pages
    requires PagesListed(parent, pages) && IsFullDateFormat(tag) && WindowInCalendar(today)
    requires TodayPageId(parent, tag, today).None? && RunDefined(parent, pages, tag, today)
    requires id !in pages
  {
    CreationDefinesMigration(parent, pages, tag, today, id);
    MigrationResult(parent + [ChildPage(id, DayTitle(tag, today))], pages[id := []], tag, today)
  }

  lemma {:induction false} UpdateWithSame(pages: Pages, id: PageId, blocks: seq<Block>)
    requires id in pages && blocks == pages[id]
    ensures pages[id := blocks] == pages
  {
  }

  /** A second update of the same page overrides the first. */
  lemma {:induction false} UpdateTwice(pages: Pages, id: PageId, first: seq<Block>, second: seq<Block>)
    ensures pages[id := first][id := second] == pages[id := second]
  {
  }

  /** The in-memory document store: the parent page's child listing and every page's blocks. */
  class NotionStore {
    /** The children of the parent page, in listing order. */
    var parent: seq<Child>
    /** The top-level blocks of each page, by page id. */
    var pages: Pages
    /** The id the next created page receives. */
    var nextId: PageId

    ghost predicate Valid()
      reads this
    {
      && PagesListed(parent, pages)
      && forall id :: id in pages ==> id < nextId
    }

    constructor (children: seq<Child>, contents: Pages, firstFreeId: PageId)
      requires PagesListed(children, contents)
      requires forall id :: id in contents ==> id < firstFreeId
      ensures Valid()
      ensures parent == children && pages == contents && nextId == firstFreeId
    {
      parent, pages, nextId := children, contents, firstFreeId;
    }

    /**
     * `pages.create` as `createDailyPage` calls it. `accepted` is the remote
     * service's answer: when it accepts, a new empty page titled
     * `Daily Journal - <today>` is added at the end of the parent's
     * children; when it refuses, nothing changes and the call fails.
     */
    method CreateDailyPage(tag: DateFormat, today: Day, accepted: bool) returns (created: Option<PageId>)
      requires Valid()
      modifies this
      ensures Valid()
      ensures created.Some? <==> accepted
      ensures accepted ==>
        && created.value == old(nextId)
        && parent == old(parent) + [ChildPage(old(nextId), DayTitle(tag, today))]
        && pages == old(pages)[old(nextId) := []]
        && nextId == old(nextId) + 1
      ensures !accepted ==> parent == old(parent) && pages == old(pages) && nextId == old(nextId)
    {
      if !accepted {
        return None;
      }
      var id := nextId;
      parent := parent + [ChildPage(id, DayTitle(tag, today))];
      pages := pages[id := []];
      nextId := nextId + 1;
      created := Some(id);
    }

    /** `blocks.children.append` with one block list, at the end of page `id`. */
    method AppendChildren(id: PageId, children: seq<Block>)
      requires Valid() && id in pages
      modifies this
      ensures Valid()
      ensures parent == old(parent) && nextId == old(nextId)
      ensures pages == old(pages)[id := old(pages)[id] + children]
    {
      pages := pages[id := pages[id] + children];
    }

    /**
     * `getMostRecentPage`: for offsets 1 to 7, the first page of the listing
     * whose title contains `Daily Journal - <tag of today - i>`.
     */
    method GetMostRecentPage(tag: DateFormat, today: Day) returns (page: Option<Child>)
      ensures page == MostRecentPage(parent, tag, today)
    {
      var listing := parent;
      for i := 1 to LookbackDays + 1
        invariant NearestDay(listing, tag, today, i) == NearestDay(listing, tag, today, 1)
      {
        var hit := FirstMatch(listing, DayTitle(tag, today - i));
        if hit.Some? {
          assert NearestDay(listing, tag, today, i) == Some(today - i);
          return Some(listing[hit.value]);
        }
      }
      assert NearestDay(listing, tag, today, LookbackDays + 1) == None;
      return None;
    }

    /** `getTodayPageContent`: today's blocks, or `undefined` when today's page is missing. */
    method GetTodayPageContent(tag: DateFormat, today: Day) returns (content: Option<seq<Block>>)
      requires Valid()
      ensures content.None? <==> TodayPageId(parent, tag, today).None?
      ensures content.Some? ==>
        TodayPageId(parent, tag, today).value in pages &&
        content.value == pages[TodayPageId(parent, tag, today).value]
    {
      var todayPageId := TodayPageId(parent, tag, today);
      if todayPageId.None? {
        return None;
      }
      TodayPageIsListed(parent, pages, tag, today);
      return Some(pages[todayPageId.value]);
    }

    /**
     * `moveIncompleteTasks`: finds the prior page, snapshots today's page,
     * and appends each incomplete task of the prior page that has no
     * first-span duplicate in the snapshot, reopened, one at a time.
     */
    method MoveIncompleteTasks(tag: DateFormat, today: Day)
      requires Valid() && MigrationDefined(parent, pages, tag, today)
      modifies this
      ensures Valid()
      ensures parent == old(parent) && nextId == old(nextId)
      ensures pages == MigrationResult(old(parent), old(pages), tag, today)
    {
      var mostRecentPage := GetMostRecentPage(tag, today);
      if mostRecentPage.None? {
        return;
      }
      var todayPageContent := GetTodayPageContent(tag, today);
      assert mostRecentPage.value in parent;
      var blocks := pages[mostRecentPage.value.id];
      var todayPageId := TodayPageId(parent, tag, today);
      var incompleteTasks := IncompleteTasks(blocks);
      if incompleteTasks == [] {
        return;
      }
      assert todayPageId.value in pages && todayPageContent.value == pages[todayPageId.value];
      AppendNewTasks(todayPageId.value, incompleteTasks, todayPageContent.value);
    }

    /**
     * The loop at index.js:72-96: for each candidate in order, the `some`
     * test against the snapshot of today's page taken before the loop, and
     * one append of the reopened task when it has no duplicate there.
     */
    method AppendNewTasks(t: PageId, candidates: seq<Block>, snapshot: seq<Block>)
      requires Valid() && t in pages && snapshot == pages[t]
      requires forall c :: c in candidates ==> IsTask(c)
      requires WellFormed(snapshot)
      modifies this
      ensures Valid() && parent == old(parent) && nextId == old(nextId)
      ensures pages == old(pages)[t := snapshot + Migrated(candidates, snapshot)]
    {
      assert candidates[..0] == [];
      UpdateWithSame(pages, t, snapshot + Migrated(candidates[..0], snapshot));
      for i := 0 to |candidates|
        invariant Valid() && parent == old(parent) && nextId == old(nextId)
        invariant pages == old(pages)[t := snapshot + Migrated(candidates[..i], snapshot)]
      {
        var task := candidates[i];
        ghost var appended := Migrated(candidates[..i], snapshot);
        MigratedPrefixStep(candidates, snapshot, i);
        var taskAlreadyExists := AlreadyExists(snapshot, task);
        if !taskAlreadyExists {
          AppendChildren(t, [Reopened(task)]);
          assert (snapshot + appended) + [Reopened(task)] == snapshot + (appended + [Reopened(task)]);
          UpdateTwice(old(pages), t, snapshot + appended, snapshot + (appended + [Reopened(task)]));
        } else {
          assert appended + [] == appended;
        }
      }
      assert candidates[..|candidates|] == candidates;
    }

    /**
     * `runDailyAutomation`: creates today's page only when the today lookup
     * finds none, then always migrates. `createAccepted` is the remote
     * answer to the page creation; a refused creation ends the run with an
     * error (`ok` false) before any migration.
     */
    method RunDailyAutomation(tag: DateFormat, today: Day, createAccepted: bool) returns (ok: bool)
      requires Valid() && IsFullDateFormat(tag) && WindowInCalendar(today) && RunDefined(parent, pages, tag, today)
      modifies this
      ensures Valid()
      ensures ok == (old(TodayPageId(parent, tag, today)).Some? || createAccepted)
      ensures !ok ==> parent == old(parent) && pages == old(pages) && nextId == old(nextId)
      ensures ok ==> TodayPageId(parent, tag, today).Some?
      ensures ok && old(TodayPageId(parent, tag, today)).Some? ==>
        && parent == old(parent) && nextId == old(nextId)
        && pages == MigrationResult(old(parent), old(pages), tag, today)
      ensures ok && old(TodayPageId(parent, tag, today)).None? ==>
        && parent == old(parent) + [ChildPage(old(nextId), DayTitle(tag, today))]
        && nextId == old(nextId) + 1
        && pages == MigrationAfterCreation(old(parent), old(pages), tag, today, old(nextId))
    {
      var hasTodayPage := TodayPageId(parent, tag, today).Some?;
      if !hasTodayPage {
        var created := CreateDailyPage(tag, today, createAccepted);
        if created.None? {
          return false;
        }
        CreationDefinesMigration(old(parent), old(pages), tag, today, created.value);
      }
      MoveIncompleteTasks(tag, today);
      ok := true;
    }
  }
}
