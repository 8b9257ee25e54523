/**
 * One daily run on a concrete store, so that the run's requirements are
 * seen to be met by an actual parent page, calendar day and date tag.
 */
module Scenario {
  import opened Wrappers
  import opened Titles
  import opened Lookup
  import opened Migration
  import opened Store

  /**
   * The parent holds only yesterday's page, with one open and one done task.
   * The run creates today's page, and the open task alone is copied onto it,
   * still unchecked.
   */
  method YesterdaysOpenTaskMoves() returns (ok: bool, todayBlocks: seq<Block>)
    ensures ok
    ensures todayBlocks == [ToDo([Span("call back", {})], false)]
  {
    var today: Day := 739000;
    var open := ToDo([Span("call back", {})], false);
    var done := ToDo([Span("send invoice", {})], true);
    var yesterday := ChildPage(0, DayTitle(DayNumberTag, today - 1));
    var contents := map[0 := [open, done]];
    var store := new NotionStore([yesterday], contents, 1);
    DayNumberTagIsFullDateFormat();

    ContainsSelf(yesterday.title);
    assert FirstMatch([yesterday], DayTitle(DayNumberTag, today - 1)) == Some(0);
    assert NearestDay([yesterday], DayNumberTag, today, 1) == Some(today - 1);
    assert MostRecentPage([yesterday], DayNumberTag, today) == Some(yesterday);
    assert !IsPageFor(yesterday, DayTitle(DayNumberTag, today)) by {
      if IsPageFor(yesterday, DayTitle(DayNumberTag, today)) {
        TitleMatchesOnlyItsDay(DayNumberTag, today - 1, today);
      }
    }
    assert TodayPageId([yesterday], DayNumberTag, today) == None;
    assert IncompleteTasks([open, done]) == [open];

    CreationDefinesMigration([yesterday], contents, DayNumberTag, today, 1);
    MigratedSingle(open, []);
    ok := store.RunDailyAutomation(DayNumberTag, today, true);
    todayBlocks := store.pages[1];
  }
}
