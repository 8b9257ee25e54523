# Daily journal automation, modelled in Dafny

The program keeps one Notion page per day under a parent page. The page for
day D is titled `Daily Journal - D`, where D is written `YYYY-MM-DD`. Each run:

- `runDailyAutomation` creates today's page when the parent has none;
- `moveIncompleteTasks` then copies the unchecked to-do items of the most
  recent earlier page (looking back at most seven days) onto today's page.
  It skips an item when today's page already has a to-do with the same
  leading text.

The model replaces the Notion client with an in-memory store. The store is a
class `Store.NotionStore` with three fields:

- `parent`: the children of the parent page, in listing order. Each child is
  a `child_page` (id and title) or some other block.
- `pages`: the top-level blocks of each page. Each block is a `to_do` (its
  rich-text spans and its `checked` flag) or some other block.
- `nextId`: the id the next created page receives.

`blocks.children.list` reads these fields. `blocks.children.append` and
`pages.create` are methods that change them.

Days are integers, so "today − i" is subtraction; day 0 is 0000-01-01. The
date tag comes with the clock. It is a function parameter
`tag: Day -> string`. Where it matters, `Titles.IsFullDateFormat` assumes two
things of it, and only for the calendar days 0000-01-01 to 9999-12-31
(`Titles.InCalendar`), where the program prints the RFC 3339 `full-date`
(section 5.6) `YYYY-MM-DD`: every tag is ten characters long, and different
days have different tags. Outside that range JavaScript prints a signed
six-digit year, and nothing is assumed. `Titles.DayNumberTagIsFullDateFormat`
shows that a tag meeting the assumption exists, and `Scenario` runs
`runDailyAutomation` once on a concrete store with that tag.

Modules:

- `Titles`: titles, `includes`, date tags and the calendar range.
- `Lookup`: `getTodayPageId` and `getMostRecentPage` as functions on a listing.
- `LookupFacts`: what page creation does to the lookups, and the lookups on
  a parent that holds only journal pages.
- `Migration`: the filter, the duplicate test and the list of appended blocks.
- `Store`: the store class, page creation, the migration loop and the run.
- `Scenario`: one run on a concrete store.
- `Paging`: the lookups as written, over the first page of results only (see
  Findings).

## Model

| member | source | states |
|---|---|---|
| `Titles.Contains` | index.js:28 | JavaScript `includes`: the key is a prefix of the title or of one of its suffixes |
| `Titles.ContainsMeans` | index.js:28 | `Contains` holds exactly when the key occurs in the title at some position |
| `Titles.DigitsRoundTrip` | index.js:8 | a number below 10^width written in `width` decimal digits reads back as itself |
| `Titles.DayNumberTagIsFullDateFormat` | index.js:8 | a date tag exists that is ten characters long and one per day on every calendar day, so the tag assumption can be met |
| `Titles.TitleMatchesOnlyItsDay` | index.js:26-28 | for two calendar days, under a tag that is fixed-length and one per day there, the title of day d contains the search string of day e only when d = e |
| `Lookup.FirstMatch` | index.js:27-29 | `find` over the listing: the position returned holds a `child_page` whose title contains the key and no earlier position does; no position exactly when no child matches |
| `Lookup.IsPageFor` | index.js:28 | the `find` predicate: the child is a `child_page` and its title contains the key |
| `Lookup.TodayPageId` | index.js:49-56 | `getTodayPageId`: the id of the first `child_page`, in listing order, whose title contains `Daily Journal - <today>`; none exactly when no child page's title does |
| `Lookup.NoHitBetweenMeans` | index.js:23-31 | "no day from lo to hi has a page" holds exactly when each such day's search finds nothing |
| `Lookup.NearestDay` | index.js:23-31 | from offset i to 7: none exactly when no day from today−7 to today−i has a page; otherwise the latest such day that has one, with no page for any later day up to today−i |
| `Lookup.MostRecentPage` | index.js:19-35 | `getMostRecentPage`: null exactly when none of the days today−1 … today−7 has a page; otherwise the first page, in listing order, of the closest such day; the result is a `child_page` of the listing |
| `LookupFacts.FirstMatchAppendMiss` | index.js:27-29 | a child appended at the end that does not match the key leaves the first match unchanged |
| `LookupFacts.FirstMatchAppendHit` | index.js:27-29 | when the listing already has a match, appending a child leaves the first match unchanged |
| `LookupFacts.CreatedPageIsFound` | index.js:12 | after the page titled `Daily Journal - <today>` is appended, the today lookup finds the created page if there was none before, and the earlier page otherwise; so a second run creates nothing |
| `LookupFacts.NearestDayAppendMiss` | index.js:23-31 | a child that matches none of the seven prior days leaves the search from any offset unchanged |
| `LookupFacts.CreatedPageIsNotPrior` | index.js:12 | under a full-date tag, the created page for today never becomes the prior page: the prior-page search is the same before and after creation |
| `LookupFacts.JournalPageMatchesOnlyItsDay` | index.js:28 | with journal titles, a page matches the search string of its own day only |
| `LookupFacts.JournalPageMatchesItsDay` | index.js:28 | with journal titles, every page matches the search string of its own day |
| `LookupFacts.JournalNoHitBetween` | index.js:23-31 | with journal titles, no day in a range has a match exactly when no page is dated in that range |
| `LookupFacts.JournalPriorPageIsLatestDay` | index.js:19-35 | with journal titles on calendar days and today's window in the calendar, the prior page is the first page of the latest day among the seven before today; there is none exactly when no page is dated in that window; today and days over seven back are never taken |
| `LookupFacts.PriorPageWitness` | index.js:23-31 | when there is a prior page, it is the first page of a day in the window after which no day up to yesterday has a page |
| `LookupFacts.JournalLatestPage` | index.js:23-31 | with journal titles, the page the search stops at is dated in the window, no page in the window is dated later, and no earlier page has its date |
| `Migration.IncompleteTasks` | index.js:70 | the filter keeps exactly the `to_do` blocks with `checked` false and no more blocks than the page has |
| `Migration.IncompleteTasksAppend` | index.js:70 | the filter keeps page order: filtering a + b gives a's tasks, then b's |
| `Migration.AlreadyExists` | index.js:73-76 | the `some` duplicate test: the snapshot holds a `to_do` whose first span has the same content as the candidate's first span |
| `Migration.IsIncomplete` | index.js:70 | the `filter` predicate: the block is a `to_do` and not checked |
| `Migration.Migrated` | index.js:72-96 | every appended block is a `to_do` with `checked` false and the full rich text of some candidate that has no duplicate in the snapshot; no more blocks than candidates |
| `Migration.MigratedAppend` | index.js:72-96 | appends follow candidate order: migrating a + b appends a's blocks, then b's |
| `Migration.MigratedSingle` | index.js:73-95 | one candidate is appended, reopened, exactly when the snapshot has no `to_do` with the same first-span content |
| `Migration.MigratedPrefixStep` | index.js:73-95 | each further candidate adds only its own outcome: reopened when the snapshot has no duplicate, nothing otherwise |
| `Migration.MigratedComplete` | index.js:73-95 | every candidate without a duplicate in the snapshot is appended |
| `Migration.AllDuplicatesMigrateNothing` | index.js:78-81 | when every candidate has a duplicate in the snapshot, nothing is appended |
| `Migration.MigratedIdempotent` | index.js:73-95 | migrating the same candidates against today's page after a first migration appends nothing |
| `Migration.SelfMigrationIsNoop` | index.js:66-81 | when the prior page is today's page, every candidate is its own duplicate and nothing is appended |
| `Migration.StaleSnapshotKeepsBoth` | index.js:66 | the snapshot is not refreshed: two candidates with the same leading text, absent from the snapshot, are both appended |
| `Store.TodayPageIsListed` | index.js:52-54 | the id the today lookup returns names a page of the store |
| `Store.MigrationResult` | index.js:58-97 | the pages after `moveIncompleteTasks`: unchanged without a prior page or without candidates; otherwise today's page followed by the blocks `Migrated` lists for the prior page's incomplete tasks against today's page |
| `Store.MigrationOnlyAppendsToToday` | index.js:61-95 | only today's page changes, and it keeps its old blocks as a prefix; the prior page keeps its blocks; with no prior page the store is unchanged |
| `Store.MigrationIdempotent` | index.js:58-97 | a second migration against the same pages is defined and leaves the store as the first one left it |
| `Store.CreationDefinesMigration` | index.js:100-113 | after today's page is created, the today lookup finds it, the prior page is unchanged and the migration is defined |
| `Store.NotionStore.CreateDailyPage` | index.js:7-17 | an accepted `pages.create` adds an empty page titled `Daily Journal - <today>` with a fresh id at the end of the parent's children; a refused one changes nothing |
| `Store.NotionStore.AppendChildren` | index.js:83-95 | `blocks.children.append` adds the blocks at the end of that page and changes nothing else |
| `Store.NotionStore.GetMostRecentPage` | index.js:19-35 | the loop over offsets 1 to 7 with early return yields `MostRecentPage` of the listing |
| `Store.NotionStore.GetTodayPageContent` | index.js:37-47 | today's blocks when the today lookup finds a page, none otherwise |
| `Store.NotionStore.MoveIncompleteTasks` | index.js:58-97 | the parent is unchanged; the pages become `MigrationResult` of the old store: unchanged without a prior page, otherwise today's page gains the migrated blocks |
| `Store.NotionStore.AppendNewTasks` | index.js:72-96 | the loop appends, one at a time, exactly the blocks `Migrated` lists, at the end of today's page |
| `Store.NotionStore.RunDailyAutomation` | index.js:99-114 | creates a page only when the today lookup finds none; a refused creation ends the run with nothing changed; otherwise today's page exists afterwards and the migration has run |
| `Scenario.YesterdaysOpenTaskMoves` | index.js:99-114 | on a parent holding only yesterday's page with one open and one done task, the run succeeds and today's new page receives exactly the open task, unchecked |
| `Paging.FirstResultsPage` | index.js:20 | one listing call without a cursor returns exactly the first 100 children, or the whole listing when it has at most 100 |
| `Paging.TodayPageIdAsWritten` | index.js:49-56 | the today lookup as written searches the first page of results only |
| `Paging.CreatedPageHiddenBeyondFirstResultsPage` | index.js:51-55 | with 100 or more children and no page for today among the first 100, the created page is not found by the lookup as written and the first page of results is unchanged, so every later run is in the same position; the lookup over the complete listing finds a page for today, the created one when there was none |

## Left out

- Notion client construction, API key and parent id from the environment (index.js:1-5): the store stands in for the client.
- Console logging (index.js:33, 41, 62, 79, 103, 107) and the final `.catch(console.error)` (index.js:116).
- `async`/`await`: every remote call is a plain sequential method call.
- The calendar. Each function reads `new Date()` on its own, so a run that crosses midnight UTC could see two different days. The model uses one `today` for the whole run.
- Local `setDate` followed by UTC `toISOString` (index.js:24-26). The model takes "today − i" as subtraction on day numbers and the tag as a parameter. It does not format Gregorian dates.
- Failures of `blocks.children.list` and `blocks.children.append`. Only page creation can fail, through the `accepted` parameter. The text of the re-thrown error (index.js:108-110) is not modelled.
- Rich-text spans other than text: a span is its content and its annotations. Mentions and equations have no `text.content` and are not modelled.
- Block ids of the appended blocks, and any structure below a page's top-level blocks: index.js neither reads nor copies them.
- Store.NotionStore.MoveIncompleteTasks: requires that every `to_do` on today's page and every candidate has a first span whenever there is a candidate. The source throws only for the spans that `some` actually reaches before a match, so this asks slightly more than the source.
- Pagination of `blocks.children.list` (index.js:20, 45, 51, 67): the store returns all of a page's children in one call, while the API returns at most 100 per call and the source asks for one page of results only. Besides the lookups (see Findings), this affects the migration as written: a task already copied beyond position 100 of today's page is missed by the duplicate test and copied again on the next run, and tasks beyond position 100 of the prior page are never copied. `Migration.MigratedComplete` and `Store.MigrationIdempotent` hold of the model's complete reads, that is, of the source only for pages of at most 100 blocks.
- Store.NotionStore.RunDailyAutomation: when today's page is still to be created, requires every incomplete task of the prior page to have a first span. The source needs less there: the new page is empty, so the duplicate test (index.js:73-76) reads no span, and a task with empty rich text is appended.
- Store.NotionStore.RunDailyAutomation: requires a tag that is ten characters long and one per day on calendar days, and requires today and the seven days before it to lie between 0000-01-01 and 9999-12-31. This guarantees that the page created for today is never taken as the prior page. Runs outside those years, where the tag has a signed six-digit year, are not modelled.
- Titles.DayNumberTag: the tag that shows the assumption can be met writes a day's number in ten digits, not its Gregorian `YYYY-MM-DD`; the calendar conversion is not modelled.
- Store.NotionStore.RunDailyAutomation: assumes, as the Notion API does, that a created page comes last among the parent's children.

## Findings

| source | as written | input that shows it | evidently intended | confidence | as-written member | corrected member |
|---|---|---|---|---|---|---|
| index.js:20, 51 | both lookups read only `response.results` of one `blocks.children.list` call. They pass no cursor and ignore `has_more`, so they see at most the first 100 children | a parent with 100 children and no page for today: the page created for today comes 101st, the lookup still finds nothing, and every later run creates another page for today | the lookups search all of the parent's children, so the check before creation makes creation idempotent | medium, not executed; it rests on the Notion API's page size of 100 | `Paging.CreatedPageHiddenBeyondFirstResultsPage` | `LookupFacts.CreatedPageIsFound` |

Outside the Findings, `Paging` is not used. The lookups in the rest of the model read the whole listing.
