/**
 * The lookups as index.js writes them read only the first page of results
 * of `blocks.children.list`: the call passes no `start_cursor` and ignores
 * `has_more`, and the Notion API answers with at most 100 children per page.
 * The rest of the model gives the lookups the complete listing, which is
 * what the existence check before page creation needs.
 */
module Paging {
  import opened Wrappers
  import opened Titles
  import opened Lookup
  import opened LookupFacts

  /** The Notion API's default and largest `page_size` for listing children. */
  const ResultsPageSize: nat := 100

  /** `response.results` of one `blocks.children.list` call without a cursor. */
  function FirstResultsPage(listing: seq<Child>): (r: seq<Child>)
    ensures |r| <= ResultsPageSize && r <= listing
    ensures |listing| <= ResultsPageSize ==> r == listing
    ensures |listing| > ResultsPageSize ==> r == listing[..ResultsPageSize]
  {
    if |listing| <= ResultsPageSize then listing else listing[..ResultsPageSize]
  }

  /** `getTodayPageId` as written: the search runs over the first page of results only. */
  function TodayPageIdAsWritten(listing: seq<Child>, tag: DateFormat, today: Day): (r: Option<PageId>)
    ensures |listing| <= ResultsPageSize ==> r == TodayPageId(listing, tag, today)
    ensures r.None? <==> NoHit(FirstResultsPage(listing), DayTitle(tag, today))
  {
    TodayPageId(FirstResultsPage(listing), tag, today)
  }

  /**
   * Once the parent holds 100 children and none of the first 100 is
   * today's page, the page `createDailyPage` adds at the end lies beyond the
   * first page of results: the lookup as written still finds nothing, and
   * the first page of results is the same as before, so the next run of
   * `runDailyAutomation` is in the same position and creates another page
   * for the same day. The lookup over the complete listing finds a page for
   * today, the created one when there was none before.
   */
  lemma {:induction false} CreatedPageHiddenBeyondFirstResultsPage(listing: seq<Child>, tag: DateFormat, today: Day, id: PageId)
    requires |listing| >= ResultsPageSize
    requires NoHit(FirstResultsPage(listing), DayTitle(tag, today))
    ensures FirstResultsPage(listing + [ChildPage(id, DayTitle(tag, today))]) == FirstResultsPage(listing)
    ensures TodayPageIdAsWritten(listing + [ChildPage(id, DayTitle(tag, today))], tag, today).None?
    ensures TodayPageId(listing + [ChildPage(id, DayTitle(tag, today))], tag, today).Some?
    ensures NoHit(listing, DayTitle(tag, today)) ==>
      TodayPageId(listing + [ChildPage(id, DayTitle(tag, today))], tag, today) == Some(id)
  {
    var created := listing + [ChildPage(id, DayTitle(tag, today))];
    assert FirstResultsPage(created) == listing[..ResultsPageSize];
    CreatedPageIsFound(listing, tag, today, id);
  }
}
