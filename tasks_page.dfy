/**
 * The task catalog page (app/tasks/page.tsx): an ordered list of reusable
 * task definitions that the user adds, deletes, edits and reorders by drag
 * and drop. The `tasks` table of the backend is replaced by the page's own
 * list: after every write the page refetches the table and replaces its list,
 * so the list stands for the table as the page sees it.
 */
module Tasks {
  import opened Wrappers
  import Rows

  /** A row of the `tasks` table: id, title, xp and its position `order_index`. */
  datatype Task = Task(id: string, title: string, xp: int, orderIndex: int)

  /** What a task is apart from its position. */
  datatype Entry = Entry(id: string, title: string, xp: int)

  function EntryOf(t: Task): Entry
  {
    Entry(t.id, t.title, t.xp)
  }

  function Entries(s: seq<Task>): (r: seq<Entry>)
    ensures |r| == |s|
    ensures forall i :: 0 <= i < |s| ==> r[i] == EntryOf(s[i])
  {
    seq(|s|, i requires 0 <= i < |s| => EntryOf(s[i]))
  }

  /** The id of a task, as the table's key. */
  function TaskId(t: Task): string
  {
    t.id
  }

  function Ids(s: seq<Task>): (r: seq<string>)
    ensures |r| == |s|
    ensures forall i :: 0 <= i < |s| ==> r[i] == s[i].id
  {
    seq(|s|, i requires 0 <= i < |s| => TaskId(s[i]))
  }

  /** Every task's order_index is its position in the list. */
  predicate Positioned(s: seq<Task>)
  {
    forall i :: 0 <= i < |s| ==> s[i].orderIndex == i
  }

  // ---------------------------------------------------------------------
  // Array.prototype.splice, in the two forms handleDragEnd uses
  // ---------------------------------------------------------------------

  /** `s.splice(i, 1)`: the list without its element at `i`. */
  function RemoveAt<T>(s: seq<T>, i: nat): (r: seq<T>)
    requires i < |s|
    ensures |r| == |s| - 1
    ensures forall k :: 0 <= k < i ==> r[k] == s[k]
    ensures forall k :: i <= k < |r| ==> r[k] == s[k + 1]
  {
    s[..i] + s[i + 1..]
  }

  /** `s.splice(i, 0, x)`: the list with `x` inserted so that it sits at `i`. */
  function InsertAt<T>(s: seq<T>, i: nat, x: T): (r: seq<T>)
    requires i <= |s|
    ensures |r| == |s| + 1 && r[i] == x
    ensures forall k :: 0 <= k < i ==> r[k] == s[k]
    ensures forall k :: i < k < |r| ==> r[k] == s[k - 1]
  {
    s[..i] + [x] + s[i..]
  }

  /** Taking out what was just inserted gives the list back. */
  lemma RemoveUndoesInsert<T>(s: seq<T>, i: nat, x: T)
    requires i <= |s|
    ensures RemoveAt(InsertAt(s, i, x), i) == s
  {
    var r := RemoveAt(InsertAt(s, i, x), i);
    assert forall k :: 0 <= k < |s| ==> r[k] == s[k];
  }

  // ---------------------------------------------------------------------
  // The drag-and-drop move
  // ---------------------------------------------------------------------

  /** The index, before the move, of the element that ends at index `i`
      when the element at `source` is moved to `destination`. */
  function SourceIndex(i: nat, source: nat, destination: nat): nat
  {
    if i == destination then source
    else if source <= i < destination then i + 1
    else if destination < i <= source then i - 1
    else i
  }

  /** The two splices of handleDragEnd: take the element at `source` out and
      put it back in at `destination`. Elements between the two positions
      shift by one towards `source`; all others stay where they were. */
  function Moved<T>(s: seq<T>, source: nat, destination: nat): (r: seq<T>)
    requires source < |s| && destination < |s|
    ensures |r| == |s| && r[destination] == s[source]
    ensures forall i :: 0 <= i < |s| ==>
      SourceIndex(i, source, destination) < |s| && r[i] == s[SourceIndex(i, source, destination)]
  {
    InsertAt(RemoveAt(s, source), destination, s[source])
  }

  /** Distinct positions after the move come from distinct positions before. */
  lemma SourceIndexInjective(i: nat, j: nat, source: nat, destination: nat)
    requires i != j
    ensures SourceIndex(i, source, destination) != SourceIndex(j, source, destination)
  {
  }

  /** Dragging the fourth of five items to the top shifts the first three
      down by one and leaves the last in place. */
  lemma MoveToTop()
    ensures Moved([10, 11, 12, 13, 14], 3, 0) == [13, 10, 11, 12, 14]
  {
    var r := Moved([10, 11, 12, 13, 14], 3, 0);
    assert SourceIndex(1, 3, 0) == 0 && SourceIndex(4, 3, 0) == 4;
  }

  /** The move is a permutation. */
  lemma MovedPermutes<T>(s: seq<T>, source: nat, destination: nat)
    requires source < |s| && destination < |s|
    ensures multiset(Moved(s, source, destination)) == multiset(s)
  {
    var x := s[source];
    var rest := RemoveAt(s, source);
    assert s == s[..source] + [x] + s[source + 1..];
    assert rest == s[..source] + s[source + 1..];
    assert multiset(rest) + multiset{x} == multiset(s);
    assert rest == rest[..destination] + rest[destination..];
    assert Moved(s, source, destination) == rest[..destination] + [x] + rest[destination..];
  }

  /** Every element other than the moved one keeps its relative order. */
  lemma MovedKeepsOthersInOrder<T>(s: seq<T>, source: nat, destination: nat)
    requires source < |s| && destination < |s|
    ensures RemoveAt(Moved(s, source, destination), destination) == RemoveAt(s, source)
  {
    RemoveUndoesInsert(RemoveAt(s, source), destination, s[source]);
  }

  /** Moving tasks and then looking at their entries is the same as moving
      the entries. */
  lemma EntriesMoved(s: seq<Task>, source: nat, destination: nat)
    requires source < |s| && destination < |s|
    ensures Entries(Moved(s, source, destination)) == Moved(Entries(s), source, destination)
  {
    var a := Entries(Moved(s, source, destination));
    var b := Moved(Entries(s), source, destination);
    forall i | 0 <= i < |s|
      ensures a[i] == b[i]
    {
      var k := SourceIndex(i, source, destination);
      assert a[i] == EntryOf(s[k]) == b[i];
    }
  }

  /** The same for the ids alone. */
  lemma IdsMoved(s: seq<Task>, source: nat, destination: nat)
    requires source < |s| && destination < |s|
    ensures Ids(Moved(s, source, destination)) == Moved(Ids(s), source, destination)
  {
    var a := Ids(Moved(s, source, destination));
    var b := Moved(Ids(s), source, destination);
    forall i | 0 <= i < |s|
      ensures a[i] == b[i]
    {
      var k := SourceIndex(i, source, destination);
      assert a[i] == s[k].id == b[i];
    }
  }

  /** `newTasks.map((t, index) => ({ ...t, order_index: index }))`: every
      task gets its position as order_index and keeps id, title and xp. */
  function Renumbered(s: seq<Task>): (r: seq<Task>)
    ensures |r| == |s| && Positioned(r)
    ensures Entries(r) == Entries(s) && Ids(r) == Ids(s)
  {
    seq(|s|, i requires 0 <= i < |s| => s[i].(orderIndex := i))
  }

  /** The order_index values in use. */
  function OrderIndices(s: seq<Task>): set<int>
  {
    set t | t in s :: t.orderIndex
  }

  /** On a positioned list the order_index values are exactly 0 .. n-1,
      each taken by one task. */
  lemma PositionedIndices(s: seq<Task>)
    requires Positioned(s)
    ensures forall x :: x in OrderIndices(s) ==> 0 <= x < |s|
    ensures forall i :: 0 <= i < |s| ==> i in OrderIndices(s)
    ensures forall i, j :: 0 <= i < j < |s| ==> s[i].orderIndex != s[j].orderIndex
  {
    forall i | 0 <= i < |s|
      ensures i in OrderIndices(s)
    {
      assert s[i] in s;
    }
  }

  /** The list handleDragEnd leaves: unchanged when the drop has no
      destination; otherwise the dragged task sits at the destination, the
      others keep their relative order, nothing but order_index changes, and
      every order_index is the task's position. */
  function DragResult(s: seq<Task>, source: nat, destination: Option<nat>): (r: seq<Task>)
    requires source < |s|
    requires destination.Some? ==> destination.value < |s|
    ensures |r| == |s|
    ensures destination.None? ==> r == s
    ensures destination.Some? ==> Positioned(r)
    ensures destination.Some? ==> EntryOf(r[destination.value]) == EntryOf(s[source])
    ensures destination.Some? ==> multiset(Entries(r)) == multiset(Entries(s))
    ensures destination.Some? ==> multiset(Ids(r)) == multiset(Ids(s))
    ensures destination.Some? ==> RemoveAt(Entries(r), destination.value) == RemoveAt(Entries(s), source)
  {
    match destination
    case None => s
    case Some(d) =>
      EntriesMoved(s, source, d);
      IdsMoved(s, source, d);
      MovedPermutes(Entries(s), source, d);
      MovedPermutes(Ids(s), source, d);
      MovedKeepsOthersInOrder(Entries(s), source, d);
      Renumbered(Moved(s, source, d))
  }

  /** A drop keeps the ids unique. */
  lemma DragKeepsUniqueIds(s: seq<Task>, source: nat, destination: Option<nat>)
    requires source < |s|
    requires destination.Some? ==> destination.value < |s|
    requires Rows.UniqueIds(s, TaskId)
    ensures Rows.UniqueIds(DragResult(s, source, destination), TaskId)
  {
    if destination.Some? {
      var d := destination.value;
      var m := Moved(s, source, d);
      var r := DragResult(s, source, destination);
      forall i, j | 0 <= i < j < |r|
        ensures r[i].id != r[j].id
      {
        SourceIndexInjective(i, j, source, d);
        assert Ids(r)[i] == Ids(m)[i] == s[SourceIndex(i, source, d)].id;
        assert Ids(r)[j] == Ids(m)[j] == s[SourceIndex(j, source, d)].id;
      }
    }
  }

  // ---------------------------------------------------------------------
  // Add, delete and edit
  // ---------------------------------------------------------------------

  /** The order every fetch returns the list in: ascending order_index. */
  predicate Sorted(s: seq<Task>)
  {
    forall i, j :: 0 <= i < j < |s| ==> s[i].orderIndex <= s[j].orderIndex
  }

  lemma PositionedIsSorted(s: seq<Task>)
    requires Positioned(s)
    ensures Sorted(s)
  {
  }

  /** Where a fetch sorted by order_index lists a new row whose order_index is
      `key`: before the first row with a larger order_index and after every
      row ahead of that one, rows that tie with `key` included. */
  function SortedPlace(s: seq<Task>, key: int): (k: nat)
    ensures k <= |s|
    ensures forall i :: 0 <= i < k ==> s[i].orderIndex <= key
    ensures k < |s| ==> s[k].orderIndex > key
  {
    if s == [] || s[0].orderIndex > key then 0
    else 1 + SortedPlace(s[1..], key)
  }

  /** addTask after a successful insert and refetch: the new row gets
      `order_index = tasks.length`, and the refetch lists it at its
      `SortedPlace`; taking it out again gives the old list. */
  function Added(s: seq<Task>, id: string, title: string, xp: int): (r: seq<Task>)
    ensures |r| == |s| + 1
    ensures r[SortedPlace(s, |s|)] == Task(id, title, xp, |s|)
    ensures RemoveAt(r, SortedPlace(s, |s|)) == s
  {
    var k := SortedPlace(s, |s|);
    var row := Task(id, title, xp, |s|);
    RemoveUndoesInsert(s, k, row);
    InsertAt(s, k, row)
  }

  /** Inserting a row between the rows whose order_index is at most its own
      and those whose order_index is larger keeps a list sorted. */
  lemma InsertKeepsSorted(s: seq<Task>, k: nat, x: Task)
    requires Sorted(s) && k <= |s|
    requires forall i :: 0 <= i < k ==> s[i].orderIndex <= x.orderIndex
    requires k < |s| ==> x.orderIndex < s[k].orderIndex
    ensures Sorted(InsertAt(s, k, x))
  {
    var r := s[..k] + [x] + s[k..];
    forall i, j | 0 <= i < j < |r|
      ensures r[i].orderIndex <= r[j].orderIndex
    {
      if j < k {
        assert r[i] == s[i] && r[j] == s[j];
      } else if j == k {
        assert r[i] == s[i];
      } else if i < k {
        assert r[i] == s[i] && r[j] == s[j - 1];
      } else if i == k {
        assert r[j] == s[j - 1] && s[k].orderIndex <= s[j - 1].orderIndex;
      } else {
        assert r[i] == s[i - 1] && r[j] == s[j - 1];
      }
    }
  }

  /** An add keeps the list in the order of the refetch. */
  lemma AddKeepsSorted(s: seq<Task>, id: string, title: string, xp: int)
    requires Sorted(s)
    ensures Sorted(Added(s, id, title, xp))
  {
    InsertKeepsSorted(s, SortedPlace(s, |s|), Task(id, title, xp, |s|));
  }

  /** An add with a fresh id keeps the ids unique. */
  lemma AddKeepsUniqueIds(s: seq<Task>, id: string, title: string, xp: int)
    requires Rows.UniqueIds(s, TaskId)
    requires forall t :: t in s ==> t.id != id
    ensures Rows.UniqueIds(Added(s, id, title, xp), TaskId)
  {
    Rows.InsertKeepsUniqueIds(s, TaskId, SortedPlace(s, |s|), Task(id, title, xp, |s|));
  }

  /** On a positioned list every order_index is below the length, so the
      refetch lists the new row last and the list stays positioned. */
  lemma AddToPositioned(s: seq<Task>, id: string, title: string, xp: int)
    requires Positioned(s)
    ensures Added(s, id, title, xp) == s + [Task(id, title, xp, |s|)]
    ensures Positioned(Added(s, id, title, xp))
  {
    var k := SortedPlace(s, |s|);
    assert k == |s|;
    assert s[..k] == s && s[k..] == [];
  }

  /** Deleting a and b from a(0) b(1) c(2) leaves c(2) alone. */
  lemma DeleteFirstTwo()
    ensures var s := [Task("a", "A", 10, 0), Task("b", "B", 20, 1), Task("c", "C", 30, 2)];
            Rows.RemoveId(Rows.RemoveId(s, TaskId, "a"), TaskId, "b") == [Task("c", "C", 30, 2)]
  {
    var s := [Task("a", "A", 10, 0), Task("b", "B", 20, 1), Task("c", "C", 30, 2)];
    var bc := [Task("b", "B", 20, 1), Task("c", "C", 30, 2)];
    var c := [Task("c", "C", 30, 2)];
    assert Rows.RemoveId(s, TaskId, "a") == bc by {
      assert s[1..] == bc && bc[1..] == c && c[1..] == [];
    }
    assert Rows.RemoveId(bc, TaskId, "b") == c by {
      assert bc[1..] == c && c[1..] == [];
    }
  }

  /** After deletes leave a gap, `order_index = tasks.length` can be smaller
      than one still in use, and the refetch then lists the new row first:
      deleting a and b from a(0) b(1) c(2) and adding d gives d(1) c(2). */
  lemma AddAfterDeletesComesFirst()
    ensures var s := [Task("a", "A", 10, 0), Task("b", "B", 20, 1), Task("c", "C", 30, 2)];
            var left := Rows.RemoveId(Rows.RemoveId(s, TaskId, "a"), TaskId, "b");
            Added(left, "d", "D", 40) == [Task("d", "D", 40, 1), Task("c", "C", 30, 2)]
  {
    DeleteFirstTwo();
    var c := [Task("c", "C", 30, 2)];
    var d := Task("d", "D", 40, 1);
    assert SortedPlace(c, 1) == 0;
    assert InsertAt(c, 0, d) == [d] + c by {
      assert c[..0] == [] && c[0..] == c;
    }
  }

  /** Deleting a task that was just added gives the list back. */
  lemma DeleteUndoesAdd(s: seq<Task>, id: string, title: string, xp: int)
    requires forall t :: t in s ==> t.id != id
    ensures Rows.RemoveId(Added(s, id, title, xp), TaskId, id) == s
  {
    Rows.RemoveUndoesInsert(s, TaskId, SortedPlace(s, |s|), Task(id, title, xp, |s|));
  }

  /** A delete keeps the list in the order of the refetch. */
  lemma {:induction false} RemoveKeepsSorted(s: seq<Task>, id: string)
    requires Sorted(s)
    ensures Sorted(Rows.RemoveId(s, TaskId, id))
  {
    if s != [] {
      var t := s[1..];
      assert Sorted(t) by {
        forall i, j | 0 <= i < j < |t|
          ensures t[i].orderIndex <= t[j].orderIndex
        {
          assert t[i] == s[i + 1] && t[j] == s[j + 1];
        }
      }
      RemoveKeepsSorted(t, id);
      if s[0].id != id {
        var rest := Rows.RemoveId(t, TaskId, id);
        Rows.RemoveIdMembers(t, TaskId, id);
        var r := [s[0]] + rest;
        forall i, j | 0 <= i < j < |r|
          ensures r[i].orderIndex <= r[j].orderIndex
        {
          assert r[j] == rest[j - 1];
          if i == 0 {
            assert rest[j - 1] in t;
            var m :| 0 <= m < |t| && t[m] == rest[j - 1];
            assert t[m] == s[m + 1];
          } else {
            assert r[i] == rest[i - 1];
          }
        }
      }
    }
  }

  /** Delete does not renumber: removing the first of two positioned tasks
      leaves order_index 1 at position 0. */
  lemma DeleteLeavesGap()
    ensures !Positioned(Rows.RemoveId([Task("a", "A", 10, 0), Task("b", "B", 20, 1)], TaskId, "a"))
  {
    var s := [Task("a", "A", 10, 0), Task("b", "B", 20, 1)];
    assert Rows.RemoveId(s, TaskId, "a") == [Task("b", "B", 20, 1)] by {
      assert s[1..] == [Task("b", "B", 20, 1)];
      assert s[1..][1..] == [];
    }
  }

  /** `order_index = tasks.length` after a delete repeats an index still in
      use: the catalog's positions are not unique after delete then add. */
  lemma DeleteThenAddRepeatsIndex()
    ensures var s := Rows.RemoveId([Task("a", "A", 10, 0), Task("b", "B", 20, 1)], TaskId, "a");
            var r := Added(s, "c", "C", 30);
            |r| == 2 && r[0].orderIndex == r[1].orderIndex == 1
  {
    var s := [Task("a", "A", 10, 0), Task("b", "B", 20, 1)];
    var b := [Task("b", "B", 20, 1)];
    assert Rows.RemoveId(s, TaskId, "a") == b by {
      assert s[1..] == b;
      assert s[1..][1..] == [];
    }
    assert SortedPlace(b, 1) == 1 by {
      assert b[1..] == [];
    }
  }

  /** `.update({ title, xp }).eq("id", id)` and the refetch. */
  function Edited(s: seq<Task>, id: string, title: string, xp: int): (r: seq<Task>)
    ensures |r| == |s|
    ensures forall i :: 0 <= i < |s| && s[i].id != id ==> r[i] == s[i]
    ensures forall i :: 0 <= i < |s| && s[i].id == id ==> r[i] == Task(id, title, xp, s[i].orderIndex)
  {
    seq(|s|, i requires 0 <= i < |s| => if s[i].id == id then s[i].(title := title, xp := xp) else s[i])
  }

  /** An edit keeps ids, positions and uniqueness, and saving the same edit
      twice is the same as saving it once. */
  lemma EditKeepsShape(s: seq<Task>, id: string, title: string, xp: int)
    ensures Ids(Edited(s, id, title, xp)) == Ids(s)
    ensures Positioned(s) ==> Positioned(Edited(s, id, title, xp))
    ensures Rows.UniqueIds(s, TaskId) ==> Rows.UniqueIds(Edited(s, id, title, xp), TaskId)
    ensures Sorted(s) ==> Sorted(Edited(s, id, title, xp))
    ensures Edited(Edited(s, id, title, xp), id, title, xp) == Edited(s, id, title, xp)
  {
    assert Ids(Edited(s, id, title, xp)) == Ids(s);
  }

  // ---------------------------------------------------------------------
  // The page
  // ---------------------------------------------------------------------

  /** `splice(source, 1)` on an array: the elements after `source` shift one
      place left; the first `Length - 1` cells then hold the list without the
      element at `source`, and the last cell is left as it was. */
  method ShiftOut<T>(a: array<T>, source: nat)
    requires source < a.Length
    modifies a
    ensures a[..a.Length - 1] == RemoveAt(old(a[..]), source)
    ensures a[a.Length - 1] == old(a[a.Length - 1])
  {
    ghost var s := a[..];
    var i := source;
    while i < a.Length - 1
      invariant source <= i <= a.Length - 1
      invariant forall k :: 0 <= k < source ==> a[k] == s[k]
      invariant forall k :: source <= k < i ==> a[k] == s[k + 1]
      invariant forall k :: i <= k < a.Length ==> a[k] == s[k]
    {
      a[i] := a[i + 1];
      i := i + 1;
    }
  }

  /** `splice(destination, 0, x)` on an array whose first `Length - 1` cells
      hold the list: the elements from `destination` on shift one place right
      and `x` goes in at `destination`. */
  method ShiftIn<T>(a: array<T>, destination: nat, x: T)
    requires destination < a.Length
    modifies a
    ensures a[..] == InsertAt(old(a[..a.Length - 1]), destination, x)
  {
    ghost var s := a[..a.Length - 1];
    var j := a.Length - 1;
    while j > destination
      invariant destination <= j <= a.Length - 1
      invariant forall k :: 0 <= k < j ==> a[k] == s[k]
      invariant forall k :: j < k < a.Length ==> a[k] == s[k - 1]
    {
      a[j] := a[j - 1];
      j := j - 1;
    }
    a[destination] := x;
  }

  /** The two splices of handleDragEnd on the copied array. */
  method MoveInPlace<T>(a: array<T>, source: nat, destination: nat)
    requires source < a.Length && destination < a.Length
    modifies a
    ensures a[..] == Moved(old(a[..]), source, destination)
  {
    // take the dragged element out, closing the gap behind it ...
    var moved := a[source];
    ShiftOut(a, source);
    // ... and put it back in at the drop position
    ShiftIn(a, destination, moved);
  }

  /** The page's state: the task list, the add form and the edit form. */
  class TasksPage {
    var tasks: seq<Task>
    var title: string
    var xp: int
    var editingId: Option<string>
    var editTitle: string
    var editXp: int

    /** The ids are the table's key, and the list is in the order of the
        fetch, ascending order_index. */
    ghost predicate Valid()
      reads this
    {
      Rows.UniqueIds(tasks, TaskId) && Sorted(tasks)
    }

    constructor ()
      ensures Valid()
      ensures tasks == [] && title == "" && xp == 0
      ensures editingId == None && editTitle == "" && editXp == 0
    {
      tasks, title, xp := [], "", 0;
      editingId, editTitle, editXp := None, "", 0;
    }

    /** addTask: insert the form's title and xp at `order_index = tasks.length`;
        `newId` is the id the table gives the row and `inserted` whether the
        insert succeeded. On success the form is cleared and the refetch
        lists the new row at its place in order_index order; on failure
        nothing changes. */
    method AddTask(newId: string, inserted: bool)
      requires Valid()
      requires forall t :: t in tasks ==> t.id != newId
      modifies this`tasks, this`title, this`xp
      ensures Valid()
      ensures inserted ==> tasks == Added(old(tasks), newId, old(title), old(xp))
      ensures inserted ==> title == "" && xp == 0
      ensures !inserted ==> tasks == old(tasks) && title == old(title) && xp == old(xp)
    {
      var newOrder := |tasks|;
      if inserted {
        var row := Task(newId, title, xp, newOrder);
        AddKeepsSorted(tasks, newId, title, xp);
        AddKeepsUniqueIds(tasks, newId, title, xp);
        title, xp := "", 0;
        tasks := InsertAt(tasks, SortedPlace(tasks, newOrder), row);
      }
    }

    /** deleteTask: the delete's error is ignored and the list refetched, so
        the list loses the rows with that id exactly when the store deleted
        them. */
    method DeleteTask(id: string, deleted: bool)
      requires Valid()
      modifies this`tasks
      ensures Valid()
      ensures tasks == if deleted then Rows.RemoveId(old(tasks), TaskId, id) else old(tasks)
    {
      if deleted {
        Rows.RemoveKeepsUniqueIds(tasks, TaskId, id);
        RemoveKeepsSorted(tasks, id);
        tasks := Rows.RemoveId(tasks, TaskId, id);
      }
    }

    /** startEdit: the edit form takes the task's id, title and xp. */
    method StartEdit(task: Task)
      modifies this`editingId, this`editTitle, this`editXp
      ensures editingId == Some(task.id) && editTitle == task.title && editXp == task.xp
    {
      editingId := Some(task.id);
      editTitle := task.title;
      editXp := task.xp;
    }

    /** saveEdit: write the edit form's title and xp to the row with `id`;
        on success the edit mode ends and the list is refetched, on failure
        nothing changes. */
    method SaveEdit(id: string, updated: bool)
      requires Valid()
      modifies this`tasks, this`editingId
      ensures Valid()
      ensures updated ==> tasks == Edited(old(tasks), id, editTitle, editXp) && editingId == None
      ensures !updated ==> tasks == old(tasks) && editingId == old(editingId)
    {
      if updated {
        EditKeepsShape(tasks, id, editTitle, editXp);
        tasks := Edited(tasks, id, editTitle, editXp);
        editingId := None;
      }
    }

    /** handleDragEnd: copy the list, splice the dragged task out at `source`
        and back in at `destination`, then renumber every order_index. A drop
        outside the list (no destination) changes nothing. The drag library
        reports indices inside the list. */
    method HandleDragEnd(source: nat, destination: Option<nat>)
      requires Valid()
      requires source < |tasks|
      requires destination.Some? ==> destination.value < |tasks|
      modifies this`tasks
      ensures Valid()
      ensures tasks == DragResult(old(tasks), source, destination)
    {
      if destination.None? {
        return;
      }
      var dst := destination.value;
      var s := tasks;
      var a := new Task[|s|](i requires 0 <= i < |s| => s[i]);
      assert a[..] == s;
      MoveInPlace(a, source, dst);
      tasks := Renumbered(a[..]);
      assert tasks == DragResult(s, source, destination);
      DragKeepsUniqueIds(s, source, destination);
      PositionedIsSorted(tasks);
    }
  }

}
