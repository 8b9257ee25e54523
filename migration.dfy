/**
 * The migration diff of `moveIncompleteTasks` (index.js): which blocks of the
 * prior page are carried over to today's page, compared against a snapshot of
 * today's page taken before any append.
 */
module Migration {

  /** One rich-text span: its plain content and the styling the copy carries along. */
  datatype Span = Span(content: string, annotations: set<string>)

  /** A block of a page: a `to_do` with its rich text and `checked` flag, or any other block. */
  datatype Block = ToDo(richText: seq<Span>, checked: bool) | OtherBlock

  /** The `filter` predicate at index.js:70. */
  predicate IsIncomplete(b: Block) {
    b.ToDo? && !b.checked
  }

  /** The top-level `to_do` blocks of a page that are not checked, in page order. */
  function IncompleteTasks(blocks: seq<Block>): (r: seq<Block>)
    ensures forall b :: b in r <==> b in blocks && IsIncomplete(b)
    ensures |r| <= |blocks|
  {
    if blocks == [] then []
    else (if IsIncomplete(blocks[0]) then [blocks[0]] else []) + IncompleteTasks(blocks[1..])
  }

  /** The filter keeps page order: filtering `a + b` gives `a`'s tasks, then `b`'s. */
  lemma {:induction false} IncompleteTasksAppend(a: seq<Block>, b: seq<Block>)
    ensures IncompleteTasks(a + b) == IncompleteTasks(a) + IncompleteTasks(b)
  {
    if a == [] {
      assert a + b == b;
    } else {
      assert (a + b)[1..] == a[1..] + b;
      IncompleteTasksAppend(a[1..], b);
    }
  }

  /** Every `to_do` among `blocks` has a first span, so `rich_text[0]` can be read. */
  predicate WellFormed(blocks: seq<Block>) {
    forall b :: b in blocks ==> b.ToDo? ==> |b.richText| > 0
  }

  /** A migration candidate: a `to_do` whose first span exists. */
  predicate IsTask(b: Block) {
    b.ToDo? && |b.richText| > 0
  }

  /** The content of a `to_do`'s first span, the key of the duplicate test. */
  function LeadingText(b: Block): string
    requires IsTask(b)
  {
    b.richText[0].content
  }

  /**
   * The `some` test at index.js:73-76: the snapshot holds a `to_do` whose
   * first span has the same content as the candidate's first span.
   */
  predicate AlreadyExists(snapshot: seq<Block>, task: Block)
    requires WellFormed(snapshot) && IsTask(task)
  {
    exists b :: b in snapshot && b.ToDo? && LeadingText(b) == LeadingText(task)
  }

  /** The block appended for a candidate: its full rich text, `checked` false. */
  function Reopened(task: Block): Block
    requires task.ToDo?
  {
    ToDo(task.richText, false)
  }

  /**
   * The blocks the loop at index.js:72-96 appends, in order: each candidate
   * that has no duplicate in the snapshot, reopened.
   */
  function Migrated(candidates: seq<Block>, snapshot: seq<Block>): (r: seq<Block>)
    requires forall c :: c in candidates ==> IsTask(c)
    requires WellFormed(snapshot)
    ensures |r| <= |candidates|
    ensures forall b :: b in r ==>
      && b.ToDo? && !b.checked
      && exists c :: c in candidates && !AlreadyExists(snapshot, c) && b.richText == c.richText
  {
    if candidates == [] then []
    else
      var c := candidates[0];
      var rest := Migrated(candidates[1..], snapshot);
      if AlreadyExists(snapshot, c) then rest else [Reopened(c)] + rest
  }

  /** Appends follow candidate order: migrating `a + b` appends `a`'s blocks, then `b`'s. */
  lemma {:induction false} MigratedAppend(a: seq<Block>, b: seq<Block>, snapshot: seq<Block>)
    requires forall c :: c in a + b ==> IsTask(c)
    requires WellFormed(snapshot)
    ensures Migrated(a + b, snapshot) == Migrated(a, snapshot) + Migrated(b, snapshot)
  {
    if a == [] {
      assert a + b == b;
    } else {
      assert (a + b)[1..] == a[1..] + b;
      MigratedAppend(a[1..], b, snapshot);
    }
  }

  /** One candidate: appended reopened exactly when the snapshot has no duplicate of it. */
  lemma {:induction false} MigratedSingle(task: Block, snapshot: seq<Block>)
    requires IsTask(task) && WellFormed(snapshot)
    ensures Migrated([task], snapshot) == if AlreadyExists(snapshot, task) then [] else [Reopened(task)]
  {
    assert [task][1..] == [];
  }

  /** Migrating one more candidate of the list appends that candidate's outcome alone. */
  lemma {:induction false} MigratedPrefixStep(candidates: seq<Block>, snapshot: seq<Block>, i: nat)
    requires forall c :: c in candidates ==> IsTask(c)
    requires WellFormed(snapshot)
    requires i < |candidates|
    ensures Migrated(candidates[..i + 1], snapshot) ==
      Migrated(candidates[..i], snapshot) + (if AlreadyExists(snapshot, candidates[i]) then [] else [Reopened(candidates[i])])
  {
    assert candidates[..i + 1] == candidates[..i] + [candidates[i]];
    MigratedAppend(candidates[..i], [candidates[i]], snapshot);
    MigratedSingle(candidates[i], snapshot);
  }

  /** Every candidate without a duplicate in the snapshot is appended. */
  lemma {:induction false} MigratedComplete(candidates: seq<Block>, snapshot: seq<Block>, c: Block)
    requires forall x :: x in candidates ==> IsTask(x)
    requires WellFormed(snapshot)
    requires c in candidates && !AlreadyExists(snapshot, c)
    ensures Reopened(c) in Migrated(candidates, snapshot)
  {
    if candidates[0] != c {
      MigratedComplete(candidates[1..], snapshot, c);
    }
  }

  /** When every candidate has a duplicate in the snapshot, nothing is appended. */
  lemma {:induction false} AllDuplicatesMigrateNothing(candidates: seq<Block>, snapshot: seq<Block>)
    requires forall x :: x in candidates ==> IsTask(x)
    requires WellFormed(snapshot)
    requires forall x :: x in candidates ==> AlreadyExists(snapshot, x)
    ensures Migrated(candidates, snapshot) == []
  {
    if candidates != [] {
      AllDuplicatesMigrateNothing(candidates[1..], snapshot);
    }
  }

  /**
   * Migrating the same candidates against today's page after a first
   * migration appends nothing: every block the first run appended now
   * matches its candidate by first span.
   */
  lemma {:induction false} MigratedIdempotent(candidates: seq<Block>, snapshot: seq<Block>)
    requires forall x :: x in candidates ==> IsTask(x)
    requires WellFormed(snapshot)
    ensures WellFormed(snapshot + Migrated(candidates, snapshot))
    ensures Migrated(candidates, snapshot + Migrated(candidates, snapshot)) == []
  {
    var m := Migrated(candidates, snapshot);
    var after := snapshot + m;
    assert WellFormed(after);
    forall x | x in candidates
      ensures AlreadyExists(after, x)
    {
      if AlreadyExists(snapshot, x) {
        var b :| b in snapshot && b.ToDo? && LeadingText(b) == LeadingText(x);
        assert b in after;
      } else {
        MigratedComplete(candidates, snapshot, x);
        assert Reopened(x) in after;
      }
    }
    AllDuplicatesMigrateNothing(candidates, after);
  }

  /**
   * When the prior page is today's page itself, every candidate is its own
   * duplicate in the snapshot, so nothing is appended.
   */
  lemma {:induction false} SelfMigrationIsNoop(blocks: seq<Block>)
    requires WellFormed(blocks)
    ensures forall x :: x in IncompleteTasks(blocks) ==> IsTask(x)
    ensures Migrated(IncompleteTasks(blocks), blocks) == []
  {
    var candidates := IncompleteTasks(blocks);
    forall x | x in candidates
      ensures IsTask(x) && AlreadyExists(blocks, x)
    {
      assert x in blocks;
    }
    AllDuplicatesMigrateNothing(candidates, blocks);
  }

  /**
   * The snapshot is not refreshed inside the loop: two candidates with the
   * same leading text, absent from the snapshot, are both appended.
   */
  lemma {:induction false} StaleSnapshotKeepsBoth(a: Block, b: Block, snapshot: seq<Block>)
    requires IsTask(a) && IsTask(b) && WellFormed(snapshot)
    requires LeadingText(a) == LeadingText(b)
    requires !AlreadyExists(snapshot, a)
    ensures Migrated([a, b], snapshot) == [Reopened(a), Reopened(b)]
  {
    assert [a, b][1..] == [b];
    assert !AlreadyExists(snapshot, b);
  }
}
