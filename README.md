# XP tracker domain logic, in Dafny

A model of the three pieces of domain logic in the pages of a personal
task/XP tracker (a Next.js app whose persistence is a hosted Supabase
backend):

- **Task catalog** (`app/tasks/page.tsx`, module `Tasks`): an ordered list
  of reusable tasks with an `order_index` each, in the order the fetch
  returns them (ascending `order_index`, `Tasks.Sorted`). Tasks are added at
  `order_index = tasks.length` and the refetch lists the new row at its
  place in that order (`Tasks.Added`): last on a list without gaps, but
  ahead of older rows once deletes have left gaps
  (`Tasks.AddAfterDeletesComesFirst`). Tasks are deleted without
  renumbering, edited (title and xp), and reordered by drag and drop: two
  `splice` calls move the dragged task, then every `order_index` is set to
  the task's position.
  The page is the class `TasksPage`; the drag is done in place on an
  `array` and proved equal to `DragResult`, whose contract states the
  permutation, position, order and frame properties.
- **Delete by id** (module `Rows`, shared by the tasks and history pages):
  `.delete().eq("id", id)` on a table whose ids are unique, as a filter
  over the rows, with its membership, uniqueness and undo properties.
- **Level-up arithmetic** (`app/page.tsx`, module `Home`): reporting a task
  adds its xp to the profile; if the sum reaches the fixed threshold
  `xpToNextLevel` (500), the threshold is taken off once and the level goes
  up once. `ApplyReport` is the arithmetic, `Report` the whole handler with
  its guards and the update's success or failure, `HomePage.ReportTask` the
  step-by-step handler proved equal to it. Lemmas prove conservation
  (`level * T + xp` grows by exactly the task's xp), the range invariant, the
  single-level-up cap, and agreement with the reference reading "level and
  xp are the quotient and remainder of the total by T" whenever the
  starting xp is in [0, T) and every task is worth between 0 and T.
- **Per-day history** (`app/month_task/page.tsx`, module `MonthTask`): the
  day filter that feeds the editor (`OnDay`, with day keys as opaque
  strings), and the insert/delete handlers, each paired with an
  `increment_xp`/`decrement_xp` call of the record's xp, skipped when the row
  operation fails (`AddRecord`, `DeleteRecord`, the classes `MonthTaskPage`
  and `TaskEditor`). The model assumes, without proof, that the server
  procedures `increment_xp` and `decrement_xp` add and subtract their
  argument; under that assumption adding then deleting a record restores
  the rows and the counter, and successful handlers keep the counter equal
  to a base plus the xp of all rows, as long as a delete removes a row that
  is still in the table. A delete of a row already gone (a second click on
  the same ✕ before the refetch) succeeds without removing anything and
  still decrements the counter (`MonthTask.StaleDeleteBreaksConsistency`,
  `MonthTask.DoubleDeleteBreaksConsistency`).

Every remote call is replaced by the in-memory list or counter it changes,
with its success or failure as a `bool` parameter; ids the table generates
are parameters too, required to be fresh. A refetch after a write is taken
to succeed, so the page's list stands for the table.

The code, and so the model, behaves as follows where one might expect
otherwise:
- deleting a task does not renumber the others (`Tasks.DeleteLeavesGap`),
  and a later add can then repeat an `order_index` still in use
  (`Tasks.DeleteThenAddRepeatsIndex`);
- a report never lowers the level and never "borrows" from a previous level
  for negative xp: the code has no such branch;
- nothing checks titles or xp values before a write, except that the
  history editor's title input is `required`, so the browser submits that
  form only with a title (`MonthTask.TaskEditor.HandleSubmit` requires
  `title != ""`); the tasks page's inputs carry no such check, so it
  writes an empty title.

`!selectedTask` in the home page is true for an empty string as well as for
no selection, and `profile?.level || 1` shows a level of 0 as 1; both are
modelled (`Home.NoSelection`, `Home.DisplayLevel`).

## Model

| member | source | states |
|---|---|---|
| `Tasks.RemoveAt` | app/tasks/page.tsx:87 | `splice(i, 1)`: one shorter, the elements before `i` in place, those after it one place left |
| `Tasks.InsertAt` | app/tasks/page.tsx:88 | `splice(i, 0, x)`: one longer, `x` at `i`, the elements before `i` in place, those from `i` on one place right |
| `Tasks.RemoveUndoesInsert` | app/tasks/page.tsx:87-88 | taking out the element just spliced in at an index gives the list back |
| `Tasks.Moved` | app/tasks/page.tsx:86-88 | the two splices put the dragged element at the destination; the element now at any index `i` is the one formerly at `SourceIndex(i)`: those between source and destination shift by one, the others stay |
| `Tasks.MoveToTop` | app/tasks/page.tsx:86-88 | moving the 4th of 5 items to index 0 shifts the first three down by one and keeps the last |
| `Tasks.MovedPermutes` | app/tasks/page.tsx:86-88 | the move is a permutation (same multiset) |
| `Tasks.MovedKeepsOthersInOrder` | app/tasks/page.tsx:87-88 | with the moved element taken out, the result is the original list with it taken out: the others keep their relative order |
| `Tasks.SourceIndexInjective` | app/tasks/page.tsx:87-88 | distinct positions after the move come from distinct positions before |
| `Tasks.Renumbered` | app/tasks/page.tsx:91-94 | every `order_index` becomes the task's position; id, title and xp of every task are unchanged |
| `Tasks.PositionedIndices` | app/tasks/page.tsx:91-94 | after renumbering the `order_index` values are exactly 0..n-1, each used once |
| `Tasks.DragResult` | app/tasks/page.tsx:83-96 | a drop without destination leaves the list unchanged; otherwise same length, positioned, dragged task at the destination, same multiset of (id, title, xp) and of ids, and the others in their old relative order |
| `Tasks.DragKeepsUniqueIds` | app/tasks/page.tsx:86-94 | a drop keeps the ids unique |
| `Tasks.SortedPlace` | app/tasks/page.tsx:34-41 | the place a fetch sorted by `order_index` gives a new row: every row ahead of it has an `order_index` at most the new one, the row after it a larger one |
| `Tasks.Added` | app/tasks/page.tsx:43-52 | after a successful insert and refetch the list is one longer, the new row (old length as `order_index`) sits at its `SortedPlace`, and taking it out gives the old list |
| `Tasks.InsertKeepsSorted` | app/tasks/page.tsx:34-41 | a row inserted between the rows with smaller or equal `order_index` and those with a larger one keeps the list sorted |
| `Tasks.AddKeepsSorted` | app/tasks/page.tsx:43-52 | after an add the list is still in `order_index` order |
| `Tasks.AddKeepsUniqueIds` | app/tasks/page.tsx:43-52 | an add with a fresh id keeps the ids unique |
| `Tasks.AddToPositioned` | app/tasks/page.tsx:43-52 | on a list whose `order_index` values are its positions the new row comes last and the list stays positioned |
| `Tasks.AddAfterDeletesComesFirst` | app/tasks/page.tsx:34-58 | from a(0) b(1) c(2), deleting a and b and adding d lists d(1) before c(2): after gaps a new task is not last |
| `Tasks.RemoveKeepsSorted` | app/tasks/page.tsx:56-58 | a delete keeps the list in `order_index` order |
| `Rows.RemoveIdMembers` | app/tasks/page.tsx:56-58 | after `.delete().eq("id", id)` exactly the rows with another id remain, none added (also app/month_task/page.tsx:52) |
| `Rows.RemoveAbsentId` | app/tasks/page.tsx:56-58 | deleting an id no row has leaves the table unchanged |
| `Rows.RemoveIdAt` | app/tasks/page.tsx:56-58 | with unique ids, deleting the id of the row at `k` removes exactly that row: the others keep their order and their fields (no renumbering) |
| `Rows.RemoveKeepsUniqueIds` | app/tasks/page.tsx:56-58 | a delete keeps the ids unique (also app/month_task/page.tsx:52) |
| `Rows.RemoveId` | app/tasks/page.tsx:57 | `.delete().eq("id", id)` as a filter over the rows (also app/month_task/page.tsx:52): it never adds a row; which rows remain is `Rows.RemoveIdMembers` |
| `Rows.InsertKeepsUniqueIds` | app/tasks/page.tsx:43-52 | a row with a fresh id keeps the ids unique wherever it is inserted |
| `Rows.RemoveUndoesInsert` | app/tasks/page.tsx:43-58 | deleting the row just added, whose id no other row has, gives the table back wherever the refetch placed it |
| `Tasks.DeleteUndoesAdd` | app/tasks/page.tsx:43-58 | deleting a task just added (with a fresh id) gives the list back |
| `Tasks.DeleteLeavesGap` | app/tasks/page.tsx:56-58 | delete does not renumber: a list can be left with a gap in its positions |
| `Tasks.DeleteThenAddRepeatsIndex` | app/tasks/page.tsx:43-59 | `order_index = tasks.length` after a delete can repeat an index still in use |
| `Tasks.Edited` | app/tasks/page.tsx:69-73 | the update by id changes title and xp of the tasks with that id only; ids, positions and all other tasks are unchanged |
| `Tasks.EditKeepsShape` | app/tasks/page.tsx:69-79 | an edit keeps the id list, positions and uniqueness, and is idempotent |
| `Tasks.TasksPage.constructor` | app/tasks/page.tsx:23-28 | the page starts with an empty list and empty add and edit forms |
| `Tasks.TasksPage.AddTask` | app/tasks/page.tsx:43-54 | on success the list is `Added` with the form's title and xp at `order_index` = old length, and the form resets to "" and 0; on failure nothing changes; ids stay unique and the list sorted |
| `Tasks.TasksPage.DeleteTask` | app/tasks/page.tsx:56-59 | the list loses the tasks with the id exactly when the store deleted them; ids stay unique |
| `Tasks.TasksPage.StartEdit` | app/tasks/page.tsx:62-66 | the edit form takes the task's id, title and xp |
| `Tasks.TasksPage.SaveEdit` | app/tasks/page.tsx:69-80 | on success the list is `Edited` with the edit form's title and xp and `editingId` is cleared; on failure nothing changes |
| `Tasks.ShiftOut` | app/tasks/page.tsx:87 | `splice(source, 1)` in place: the first `Length - 1` cells hold the list without the element at `source`, the last cell is untouched |
| `Tasks.ShiftIn` | app/tasks/page.tsx:88 | `splice(destination, 0, x)` in place: the array holds the list of its first `Length - 1` cells with `x` inserted at `destination` |
| `Tasks.MoveInPlace` | app/tasks/page.tsx:86-88 | the two in-place splices leave the array equal to `Moved` of its old contents |
| `Tasks.TasksPage.HandleDragEnd` | app/tasks/page.tsx:83-96 | the in-place splices on a copied array followed by the renumbering leave exactly `DragResult`; ids stay unique |
| `Home.ApplyReport` | app/page.tsx:67-73 | level * T + xp grows by exactly the task's xp; the level rises by one exactly when the sum reaches T, and otherwise stays |
| `Home.ReportAtPageThreshold` | app/page.tsx:26-73 | at T = 500: (1, 480) + 50 gives (2, 30); (1, 400) + 50 gives (1, 450) |
| `Home.ReportStaysInRange` | app/page.tsx:67-73 | from 0 <= xp < T with 0 <= task xp <= T, the new xp is in [0, T) and the level does not fall |
| `Home.ReportLevelsUpOnce` | app/page.tsx:70-73 | a sum of at least 2T still gives one level-up only, leaving an xp of at least T |
| `Home.ReportIsDivision` | app/page.tsx:67-73 | inside those bounds one report equals the reference reading: level + (xp + task xp) / T and (xp + task xp) % T |
| `Home.ReportAll` | app/page.tsx:67-73 | reporting tasks one after another: no report leaves the standing as it is, a single report is `ApplyReport` |
| `Home.ReportAllConserves` | app/page.tsx:67-73 | over any sequence of reports the total level * T + xp grows by the sum of the reported xp |
| `Home.ReportAllStaysInRange` | app/page.tsx:67-73 | reports of at most T each keep the xp in [0, T) and never lower the level |
| `Home.ReportAllIsDivision` | app/page.tsx:67-73 | under those bounds the standing after any sequence of reports is the quotient and remainder of the total xp by T |
| `Home.FirstIndex` | app/page.tsx:64 | the index of the first task with the id, every earlier task having another id, or the length when none has it |
| `Home.FindTask` | app/page.tsx:64 | `find` gives no task exactly when no task has the id, and otherwise the first task with that id |
| `Home.Report` | app/page.tsx:61-88 | no selection (null or "") alerts and leaves the profile; a missing task or profile returns silently; a failed update alerts and leaves the profile; only a successful update changes it, keeping its id and setting level and xp to `ApplyReport` |
| `Home.NoSelection` | app/page.tsx:62 | `!selectedTask` holds exactly for no selection and for the empty string |
| `Home.CurrentXp` | app/page.tsx:29 | `profile?.xp`, or 0: 0 before the profile is fetched, its xp after |
| `Home.DisplayLevel` | app/page.tsx:30 | `profile?.level`, or 1: never 0; 1 without a profile or at level 0, the profile's level otherwise |
| `Home.Remaining` | app/page.tsx:34-37 | the "Remaining" slice and the current xp add up to the threshold |
| `Home.DisplayValues` | app/page.tsx:29-37 | with no profile level 1 and xp 0 are shown and the whole threshold remains; current xp plus "Remaining" is the threshold; a level of at least 1 is shown as is |
| `Home.HomePage.constructor` | app/page.tsx:24-27 | no tasks, no profile, no selection, threshold 500 |
| `Home.HomePage.FetchTasks` | app/page.tsx:45-52 | on success the list is the fetched rows, on error it stays |
| `Home.HomePage.FetchProfile` | app/page.tsx:54-58 | on success the profile is the fetched row, on error it stays |
| `Home.HomePage.SelectTask` | app/page.tsx:126 | the select sets the selected task id |
| `Home.HomePage.ReportTask` | app/page.tsx:61-88 | the step-by-step handler ends in the outcome and profile `Report` gives, and changes nothing else |
| `MonthTask.OnDay` | app/month_task/page.tsx:98-102 | the editor gets exactly the records whose day key equals the selected day's key |
| `MonthTask.OnDayAppend` | app/month_task/page.tsx:98-102 | the filter keeps the fetched order: it distributes over concatenation |
| `MonthTask.OnDayCounts` | app/month_task/page.tsx:98-102 | each record of the day appears as often as in the fetched list; other records not at all |
| `MonthTask.OnDayKeepsDay` | app/month_task/page.tsx:98-102 | a list holding only records of the day passes whole and in order |
| `MonthTask.OnDayIdempotent` | app/month_task/page.tsx:98-102 | filtering twice by the same day is filtering once |
| `MonthTask.AddRecord` | app/month_task/page.tsx:36-49 | a failed insert requests no XP increment and changes nothing; otherwise the row is added and the increment requested equals the row's xp, changing the counter by that xp when it succeeds |
| `MonthTask.DeleteRecord` | app/month_task/page.tsx:51-63 | a failed delete requests no XP decrement and changes nothing; otherwise the row is removed and the decrement requested equals the record's xp |
| `MonthTask.SumXpRemove` | app/month_task/page.tsx:51-60 | with unique ids, deleting a row takes exactly its xp out of the rows' total |
| `MonthTask.AddKeepsConsistent` | app/month_task/page.tsx:36-49 | a fully successful add keeps counter = base + total xp of the rows |
| `MonthTask.DeleteKeepsConsistent` | app/month_task/page.tsx:51-63 | a fully successful delete of a stored row keeps counter = base + total xp of the rows |
| `MonthTask.LostIncrementBreaksConsistency` | app/month_task/page.tsx:44-48 | a failed increment after a successful insert (not rolled back) leaves the counter out of step for any nonzero xp |
| `MonthTask.StaleDeleteBreaksConsistency` | app/month_task/page.tsx:51-62 | a delete by an id no row has still succeeds and still decrements: rows unchanged, counter out of step for any nonzero xp |
| `MonthTask.DoubleDeleteBreaksConsistency` | app/month_task/page.tsx:51-62 | deleting the same shown record twice keeps counter and rows in agreement after the first delete and breaks it after the second |
| `MonthTask.AddThenDeleteRestores` | app/month_task/page.tsx:36-63 | adding a record and deleting that same record restores the rows and the XP counter |
| `MonthTask.AddedRecordShownOnItsDay` | app/month_task/page.tsx:98-102 | a record added under a day key shows in that day's editor when the key reads back as itself |
| `MonthTask.MonthTaskPage.constructor` | app/month_task/page.tsx:18-20 | no rows, today selected, editor closed |
| `MonthTask.MonthTaskPage.EditorTasks` | app/month_task/page.tsx:96-102 | the editor's list holds exactly the rows of the selected day |
| `MonthTask.MonthTaskPage.AddTask` | app/month_task/page.tsx:36-49 | rows, counter and XP request after the handler are those `AddRecord` gives; ids stay unique |
| `MonthTask.MonthTaskPage.DeleteTask` | app/month_task/page.tsx:51-63 | rows, counter and XP request after the handler are those `DeleteRecord` gives; ids stay unique |
| `MonthTask.MonthTaskPage.HandleDayClick` | app/month_task/page.tsx:65-68 | the clicked day is selected and the editor opens |
| `MonthTask.MonthTaskPage.CloseEditor` | app/month_task/page.tsx:103 | the editor closes |
| `MonthTask.TaskEditor.constructor` | app/month_task/page.tsx:126-127 | the form starts with title "" and xp 0 |
| `MonthTask.TaskEditor.HandleSubmit` | app/month_task/page.tsx:129-134 | with a title (the input is `required`, line 183), adds the form's title and xp under the editor's day as `AddRecord` does, then resets the form to "" and 0 whatever the outcome |

## Left out

- All Supabase calls: each is the in-memory change it makes, with its success as a `bool` parameter and a generated id as a parameter required to be fresh.
- `fetchTasks` and `fetchProfile`: reading a table is I/O. The home page's fetches on mount are `Home.HomePage.FetchTasks` and `Home.HomePage.FetchProfile`, with the fetched rows and the outcome as parameters; the tasks and history pages start from the empty list and grow it through their handlers. The model takes every refetch after a write to succeed, so a failed refetch that leaves the page's list stale is not modelled.
- The order of rows that tie in a refetch: a sort by `order_index` (tasks page) or by `date` (history page) leaves the order of equal keys to the database. `Tasks.Added` lists a new row after the rows whose `order_index` equals its own, which is one such order.
- The history page's refetch sorted by date, newest first: the model keeps the rows in insertion order. Only the editor shows the rows, one day at a time; when `date` holds the day alone, the rows of one day tie and their order is the database's, so this is one order the page can show; the day-filter lemmas hold for any order.
- Handlers that overlap: every handler is modelled as running to completion before the next one starts. In the program the awaits let them interleave. Two `reportTask` calls made before the first update returns both start from the same `profile`, so one report's xp is lost (`Home.HomePage.ReportTask`). Two `addTask` calls made before a refetch both read the same `tasks.length` and insert the same `order_index` (`Tasks.TasksPage.AddTask`). A second ✕ on a history row before the refetch is the stale delete of `MonthTask.StaleDeleteBreaksConsistency`.
- The `Promise.all` write of every `order_index` after a drag: concurrent remote writes; only the resulting local list is modelled, not a partial failure.
- The server procedures `increment_xp` and `decrement_xp`: not part of this model; their add/subtract behaviour is an assumption.
- `progress` and `toFixed(1)`: floating-point display values.
- date-fns `format` and `new Date(...)`: day keys are opaque strings; `keyOf` stands for formatting a record's date, and its reading back a "yyyy-MM-dd" key as itself (which depends on the time zone) is a stated precondition, not a fact.
- `Number(e.target.value)`: xp is an integer; NaN and fractional xp are not modelled.
- The form inputs' `onChange` handlers that only copy a typed value into `title`, `xp`, `editTitle` or `editXp`: plain assignments.
- JSX rendering, the drag-and-drop library, the chart, the calendar, `app/FooterNav.tsx` and `app/layout.tsx`: presentation only.
- Both the tasks page and the history page use a table named `tasks` with different columns; the model keeps them as two separate tables.
