/**
 * The monthly history page (app/month_task/page.tsx): a calendar of
 * completed tasks. Clicking a day opens an editor that lists the records of
 * that day and adds or deletes records; every record added or deleted is
 * paired with a server-side adjustment of the XP counter by the record's xp.
 *
 * Day keys are opaque strings compared for equality. The function `keyOf`
 * stands for `format(new Date(d), "yyyy-MM-dd")` applied to a record's date,
 * and the page holds the selected day as its key,
 * `format(selectedDate, "yyyy-MM-dd")`.
 *
 * Assumption, not verified: the server procedures `increment_xp(xp_to_add)`
 * and `decrement_xp(xp_to_subtract)` add their argument to, and subtract it
 * from, the one XP counter. Their code is not part of this model.
 */
module MonthTask {
  import opened Wrappers
  import Rows

  /** A row of the history's `tasks` table. */
  datatype Record = Record(id: string, title: string, xp: int, date: string)

  // ---------------------------------------------------------------------
  // The day filter feeding TaskEditor
  // ---------------------------------------------------------------------

  /** `tasks.filter((t) => key(t.date) === key(selectedDate))`: the records of
      one day, in the order they were fetched. */
  function OnDay(records: seq<Record>, keyOf: string -> string, day: string): (r: seq<Record>)
    ensures |r| <= |records|
    ensures forall x :: x in r <==> x in records && keyOf(x.date) == day
  {
    if records == [] then []
    else if keyOf(records[0].date) == day then [records[0]] + OnDay(records[1..], keyOf, day)
    else OnDay(records[1..], keyOf, day)
  }

  /** The filter keeps the fetched order: filtering a concatenation is
      concatenating the filtered parts. */
  lemma {:induction false} OnDayAppend(a: seq<Record>, b: seq<Record>, keyOf: string -> string, day: string)
    ensures OnDay(a + b, keyOf, day) == OnDay(a, keyOf, day) + OnDay(b, keyOf, day)
  {
    if a == [] {
      assert a + b == b;
    } else {
      assert (a + b)[1..] == a[1..] + b;
      OnDayAppend(a[1..], b, keyOf, day);
    }
  }

  /** The filter keeps every record of the day as often as it occurs, and
      nothing else. */
  lemma {:induction false} OnDayCounts(records: seq<Record>, keyOf: string -> string, day: string, x: Record)
    ensures multiset(OnDay(records, keyOf, day))[x]
         == if keyOf(x.date) == day then multiset(records)[x] else 0
  {
    if records != [] {
      OnDayCounts(records[1..], keyOf, day, x);
      assert records == [records[0]] + records[1..];
    }
  }

  /** A list that holds only records of the day passes the filter whole. */
  lemma {:induction false} OnDayKeepsDay(records: seq<Record>, keyOf: string -> string, day: string)
    requires forall k :: 0 <= k < |records| ==> keyOf(records[k].date) == day
    ensures OnDay(records, keyOf, day) == records
  {
    if records != [] {
      OnDayKeepsDay(records[1..], keyOf, day);
    }
  }

  /** Filtering twice by the same day is filtering once. */
  lemma OnDayIdempotent(records: seq<Record>, keyOf: string -> string, day: string)
    ensures OnDay(OnDay(records, keyOf, day), keyOf, day) == OnDay(records, keyOf, day)
  {
    var r := OnDay(records, keyOf, day);
    forall k | 0 <= k < |r|
      ensures keyOf(r[k].date) == day
    {
      assert r[k] in r;
    }
    OnDayKeepsDay(r, keyOf, day);
  }

  // ---------------------------------------------------------------------
  // The store and the paired XP adjustments
  // ---------------------------------------------------------------------

  /** The backend as the page uses it: the history rows and the XP counter. */
  datatype Store = Store(records: seq<Record>, xp: int)

  /** The XP adjustment a handler asks the server for. */
  datatype XpCall = Increment(amount: int) | Decrement(amount: int)

  /** The store after a handler, and the adjustment it asked for, if any. */
  datatype Step = Step(store: Store, call: Option<XpCall>)

  /** The id of a record, as the table's key. */
  function RecordId(r: Record): string
  {
    r.id
  }

  /** The xp of all rows. */
  function SumXp(records: seq<Record>): int
  {
    if records == [] then 0 else records[0].xp + SumXp(records[1..])
  }

  /** addTask: insert the row; if the insert fails, stop before any XP call;
      otherwise call `increment_xp` with the row's xp, which changes the
      counter when the call succeeds (`adjusted`). */
  function AddRecord(s: Store, title: string, xp: int, date: string, newId: string,
                     inserted: bool, adjusted: bool): (r: Step)
    ensures !inserted ==> r == Step(s, None)
    ensures inserted ==> r.call == Some(Increment(xp))
    ensures inserted ==> r.store.records == s.records + [Record(newId, title, xp, date)]
    ensures r.store.xp == if inserted && adjusted then s.xp + xp else s.xp
  {
    if !inserted then Step(s, None)
    else
      var records := s.records + [Record(newId, title, xp, date)];
      Step(Store(records, if adjusted then s.xp + xp else s.xp), Some(Increment(xp)))
  }

  /** deleteTask: delete the row; if the delete fails, stop before any XP
      call; otherwise call `decrement_xp` with the xp of the record the
      editor showed, which changes the counter when the call succeeds. */
  function DeleteRecord(s: Store, task: Record, deleted: bool, adjusted: bool): (r: Step)
    ensures !deleted ==> r == Step(s, None)
    ensures deleted ==> r.call == Some(Decrement(task.xp))
    ensures deleted ==> r.store.records == Rows.RemoveId(s.records, RecordId, task.id)
    ensures r.store.xp == if deleted && adjusted then s.xp - task.xp else s.xp
  {
    if !deleted then Step(s, None)
    else
      var records := Rows.RemoveId(s.records, RecordId, task.id);
      Step(Store(records, if adjusted then s.xp - task.xp else s.xp), Some(Decrement(task.xp)))
  }

  /** The XP counter agrees with the rows: `base` plus the xp of every row. */
  predicate Consistent(s: Store, base: int)
  {
    s.xp == base + SumXp(s.records)
  }

  lemma {:induction false} SumXpAppend(records: seq<Record>, x: Record)
    ensures SumXp(records + [x]) == SumXp(records) + x.xp
  {
    if records != [] {
      assert (records + [x])[1..] == records[1..] + [x];
      SumXpAppend(records[1..], x);
    }
  }

  /** With unique ids, deleting the id of a row takes exactly that row's xp
      out of the total. */
  lemma {:induction false} SumXpRemove(records: seq<Record>, task: Record)
    requires Rows.UniqueIds(records, RecordId) && task in records
    ensures SumXp(Rows.RemoveId(records, RecordId, task.id)) == SumXp(records) - task.xp
  {
    Rows.UniqueIdsTail(records, RecordId);
    if records[0] == task {
      Rows.HeadIdUnique(records, RecordId);
      Rows.RemoveAbsentId(records[1..], RecordId, task.id);
    } else {
      assert records[0].id != task.id by {
        var k :| 0 <= k < |records| && records[k] == task;
      }
      SumXpRemove(records[1..], task);
    }
  }

  /** A successful add, with its increment applied, keeps counter and rows
      in agreement. */
  lemma AddKeepsConsistent(s: Store, base: int, title: string, xp: int, date: string, newId: string)
    requires Consistent(s, base)
    ensures Consistent(AddRecord(s, title, xp, date, newId, true, true).store, base)
  {
    SumXpAppend(s.records, Record(newId, title, xp, date));
  }

  /** A successful delete of a shown row, with its decrement applied, keeps
      counter and rows in agreement. */
  lemma DeleteKeepsConsistent(s: Store, base: int, task: Record)
    requires Consistent(s, base) && Rows.UniqueIds(s.records, RecordId) && task in s.records
    ensures Consistent(DeleteRecord(s, task, true, true).store, base)
  {
    SumXpRemove(s.records, task);
  }

  /** A failed `increment_xp` after a successful insert leaves the counter
      out of step with the rows: the source does not roll the insert back. */
  lemma LostIncrementBreaksConsistency(s: Store, base: int, title: string, xp: int, date: string, newId: string)
    requires Consistent(s, base) && xp != 0
    ensures !Consistent(AddRecord(s, title, xp, date, newId, true, false).store, base)
  {
    SumXpAppend(s.records, Record(newId, title, xp, date));
  }

  /** A delete whose row is already gone (a second click on the same ✕
      before the refetch) still succeeds, matching no row, and still calls
      `decrement_xp`: the rows stay as they are while the counter drops by
      the record's xp. */
  lemma StaleDeleteBreaksConsistency(s: Store, base: int, task: Record)
    requires Consistent(s, base) && task.xp != 0
    requires forall x :: x in s.records ==> x.id != task.id
    ensures DeleteRecord(s, task, true, true).store.records == s.records
    ensures !Consistent(DeleteRecord(s, task, true, true).store, base)
  {
    Rows.RemoveAbsentId(s.records, RecordId, task.id);
  }

  /** Deleting the same shown record twice, both deletes and both decrements
      succeeding, takes its xp off the counter twice: the first delete keeps
      counter and rows in agreement, the second breaks it. */
  lemma DoubleDeleteBreaksConsistency(s: Store, base: int, task: Record)
    requires Consistent(s, base) && Rows.UniqueIds(s.records, RecordId)
    requires task in s.records && task.xp != 0
    ensures var once := DeleteRecord(s, task, true, true).store;
            Consistent(once, base) && !Consistent(DeleteRecord(once, task, true, true).store, base)
  {
    DeleteKeepsConsistent(s, base, task);
    var once := DeleteRecord(s, task, true, true).store;
    Rows.RemoveIdMembers(s.records, RecordId, task.id);
    StaleDeleteBreaksConsistency(once, base, task);
  }

  /** Adding a record and then deleting that same record restores both the
      rows and the XP counter. */
  lemma {:induction false} AddThenDeleteRestores(s: Store, title: string, xp: int, date: string, newId: string)
    requires forall x :: x in s.records ==> x.id != newId
    ensures var added := AddRecord(s, title, xp, date, newId, true, true);
            DeleteRecord(added.store, Record(newId, title, xp, date), true, true).store == s
  {
    var x := Record(newId, title, xp, date);
    assert s.records[..|s.records|] + [x] + s.records[|s.records|..] == s.records + [x];
    Rows.RemoveUndoesInsert(s.records, RecordId, |s.records|, x);
  }

  /** A record added from the editor of a day shows in that day's editor,
      provided the day key reads back as itself (`keyOf(day) == day`, which
      date-fns gives for a "yyyy-MM-dd" string when parsing and formatting
      agree on the time zone). */
  lemma AddedRecordShownOnItsDay(s: Store, keyOf: string -> string, day: string,
                                 title: string, xp: int, newId: string, adjusted: bool)
    requires keyOf(day) == day
    ensures Record(newId, title, xp, day)
            in OnDay(AddRecord(s, title, xp, day, newId, true, adjusted).store.records, keyOf, day)
  {
  }

  // ---------------------------------------------------------------------
  // The page and its editor
  // ---------------------------------------------------------------------

  /** The page's state: the fetched rows (the table, after each refetch),
      the XP counter on the server, the selected day's key and whether the
      editor is open. */
  class MonthTaskPage {
    var records: seq<Record>
    var serverXp: int
    var selectedDay: string
    var showEditor: bool

    ghost predicate Valid()
      reads this
    {
      Rows.UniqueIds(records, RecordId)
    }

    /** `today` is the key of `new Date()` when the page mounts; `xp` the
        counter the server holds then. */
    constructor (today: string, xp: int)
      ensures Valid()
      ensures records == [] && serverXp == xp && selectedDay == today && !showEditor
    {
      records, serverXp := [], xp;
      selectedDay, showEditor := today, false;
    }

    /** The records handed to the editor. */
    function EditorTasks(keyOf: string -> string): (r: seq<Record>)
      reads this
      ensures forall x :: x in r <==> x in records && keyOf(x.date) == selectedDay
    {
      OnDay(records, keyOf, selectedDay)
    }

    /** addTask; `newId` is the id the table gives the row, `inserted` and
        `adjusted` whether the insert and the increment succeed. */
    method AddTask(title: string, xp: int, date: string, newId: string, inserted: bool, adjusted: bool)
      returns (call: Option<XpCall>)
      requires Valid()
      requires forall x :: x in records ==> x.id != newId
      modifies this`records, this`serverXp
      ensures Valid()
      ensures Step(Store(records, serverXp), call)
           == AddRecord(old(Store(records, serverXp)), title, xp, date, newId, inserted, adjusted)
    {
      if !inserted {
        return None;
      }
      records := records + [Record(newId, title, xp, date)];
      call := Some(Increment(xp));
      if adjusted {
        serverXp := serverXp + xp;
      }
    }

    /** deleteTask; `deleted` and `adjusted` are whether the delete and the
        decrement succeed. */
    method DeleteTask(task: Record, deleted: bool, adjusted: bool) returns (call: Option<XpCall>)
      requires Valid()
      modifies this`records, this`serverXp
      ensures Valid()
      ensures Step(Store(records, serverXp), call)
           == DeleteRecord(old(Store(records, serverXp)), task, deleted, adjusted)
    {
      if !deleted {
        return None;
      }
      Rows.RemoveKeepsUniqueIds(records, RecordId, task.id);
      records := Rows.RemoveId(records, RecordId, task.id);
      call := Some(Decrement(task.xp));
      if adjusted {
        serverXp := serverXp - task.xp;
      }
    }

    /** handleDayClick: select the day and open the editor. */
    method HandleDayClick(day: string)
      modifies this`selectedDay, this`showEditor
      ensures selectedDay == day && showEditor
    {
      selectedDay := day;
      showEditor := true;
    }

    /** The editor's close button. */
    method CloseEditor()
      modifies this`showEditor
      ensures !showEditor
    {
      showEditor := false;
    }
  }

  /** The editor's own form state. */
  class TaskEditor {
    var title: string
    var xp: int

    constructor ()
      ensures title == "" && xp == 0
    {
      title, xp := "", 0;
    }

    /** handleSubmit: add the form's title and xp under the editor's day
        (the page's selected day), then clear the form whatever the add's
        outcome. The title input is `required`, so the browser submits the
        form only with a title; the xp input always holds a number. */
    method HandleSubmit(page: MonthTaskPage, newId: string, inserted: bool, adjusted: bool)
      returns (call: Option<XpCall>)
      requires title != ""
      requires page.Valid()
      requires forall x :: x in page.records ==> x.id != newId
      modifies this, page`records, page`serverXp
      ensures page.Valid()
      ensures Step(Store(page.records, page.serverXp), call)
           == AddRecord(old(Store(page.records, page.serverXp)), old(title), old(xp),
                        page.selectedDay, newId, inserted, adjusted)
      ensures title == "" && xp == 0
    {
      call := page.AddTask(title, xp, page.selectedDay, newId, inserted, adjusted);
      title := "";
      xp := 0;
    }
  }
}
