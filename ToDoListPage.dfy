/**
 * The list transformations of the task-list screen. Every update builds a new
 * list from the current one (`filter`, `map`, `+`) and hands it back to the
 * owner of the list; the screen itself keeps only the id counter.
 */
module ToDoListPage {
  import opened ToDoRecord

  /** The editor's state: the list it shows and the counter the next added task takes its id from. */
  datatype Page = Page(toDoList: seq<ToDo>, idCounter: int32)

  /** An empty list, and a counter that starts at 1. */
  const InitialPage: Page := Page([], 1)

  /** The ids of a list, position by position. */
  function Ids(list: seq<ToDo>): (r: seq<int32>)
    ensures |r| == |list|
  {
    seq(|list|, i requires 0 <= i < |list| => list[i].id)
  }

  // ---------------------------------------------------------------------------
  // Delete: `toDoList.filter { it.id != item.id }`
  // ---------------------------------------------------------------------------

  /** Keeps, in order, every task whose id is not `id`. */
  function Delete(list: seq<ToDo>, id: int32): (r: seq<ToDo>)
    ensures |r| <= |list|
    ensures forall t :: t in r <==> t in list && t.id != id
  {
    if list == [] then []
    else if list[0].id != id then [list[0]] + Delete(list[1..], id)
      else Delete(list[1..], id)
  }

  /** Each kept task occurs as often as before; the deleted ones not at all. */
  lemma {:induction false} DeleteMultiplicity(list: seq<ToDo>, id: int32)
    ensures forall t :: multiset(Delete(list, id))[t] == if t.id == id then 0 else multiset(list)[t]
  {
    if list != [] {
      assert list == [list[0]] + list[1..];
      DeleteMultiplicity(list[1..], id);
    }
  }

  /** Filtering a concatenation filters each part: the kept tasks stay in their relative order. */
  lemma {:induction false} DeleteConcat(a: seq<ToDo>, b: seq<ToDo>, id: int32)
    ensures Delete(a + b, id) == Delete(a, id) + Delete(b, id)
  {
    if a == [] {
      assert a + b == b;
    } else {
      assert (a + b)[0] == a[0];
      assert (a + b)[1..] == a[1..] + b;
      DeleteConcat(a[1..], b, id);
    }
  }

  /** Deleting an id that no task carries leaves the list as it was. */
  lemma {:induction false} DeleteAbsent(list: seq<ToDo>, id: int32)
    requires forall t :: t in list ==> t.id != id
    ensures Delete(list, id) == list
  {
    if list != [] {
      assert list[0] in list;
      assert forall t :: t in list[1..] ==> t in list;
      DeleteAbsent(list[1..], id);
    }
  }

  // ---------------------------------------------------------------------------
  // Replace by id: `toDoList.map { if (it.id == updated.id) updated else it }`
  // ---------------------------------------------------------------------------

  /** Every task whose id is `updated.id` is replaced by `updated`; the others are kept. */
  function ReplaceById(list: seq<ToDo>, updated: ToDo): (r: seq<ToDo>)
    ensures |r| == |list|
    ensures forall i :: 0 <= i < |list| ==> r[i] == if list[i].id == updated.id then updated else list[i]
  {
    if list == [] then []
    else [if list[0].id == updated.id then updated else list[0]] + ReplaceById(list[1..], updated)
  }

  /** Replacing by id never changes the sequence of ids. */
  lemma ReplaceKeepsIds(list: seq<ToDo>, updated: ToDo)
    ensures Ids(ReplaceById(list, updated)) == Ids(list)
  {
  }

  // ---------------------------------------------------------------------------
  // Toggle: the clicked item, copied with its flag negated, replaces by id
  // ---------------------------------------------------------------------------

  /** `item.copy(isCompleted = !isCompleted)` */
  function Toggled(item: ToDo): (r: ToDo)
    ensures r.id == item.id && r.title == item.title && r.description == item.description
    ensures r.isCompleted == !item.isCompleted
  {
    item.(isCompleted := !item.isCompleted)
  }

  /** The toggle button of `item`: every task with `item`'s id becomes `item` with its flag negated. */
  function Toggle(list: seq<ToDo>, item: ToDo): (r: seq<ToDo>)
    ensures |r| == |list| && Ids(r) == Ids(list)
    ensures forall i :: 0 <= i < |list| && list[i].id == item.id ==>
      r[i].id == item.id && r[i].title == item.title && r[i].description == item.description &&
      r[i].isCompleted == !item.isCompleted
    ensures forall i :: 0 <= i < |list| && list[i].id != item.id ==> r[i] == list[i]
  {
    ReplaceKeepsIds(list, Toggled(item));
    ReplaceById(list, Toggled(item))
  }

  /** Every task carrying `item`'s id is `item` itself (true when ids are distinct and `item` is in the list). */
  predicate OnlyCopiesOf(list: seq<ToDo>, item: ToDo)
  {
    forall t :: t in list && t.id == item.id ==> t == item
  }

  /** When the clicked item is the only task with its id, toggling negates that task's own flag and nothing else. */
  lemma ToggleFlipsOwnFlag(list: seq<ToDo>, item: ToDo)
    requires OnlyCopiesOf(list, item)
    ensures forall i :: 0 <= i < |list| ==>
      Toggle(list, item)[i] == if list[i].id == item.id then Toggled(list[i]) else list[i]
  {
  }

  /** Clicking toggle twice (the second time on the toggled copy now shown) replaces every task with `item`'s id by `item`. */
  lemma ToggleTwiceReplaces(list: seq<ToDo>, item: ToDo)
    ensures Toggle(Toggle(list, item), Toggled(item)) == ReplaceById(list, item)
  {
  }

  /** ... so it restores the list whenever `item` was the only task with its id. */
  lemma ToggleTwiceRestores(list: seq<ToDo>, item: ToDo)
    requires OnlyCopiesOf(list, item)
    ensures Toggle(Toggle(list, item), Toggled(item)) == list
  {
  }

  // ---------------------------------------------------------------------------
  // Edit: guarded by non-empty fields, then the edited copy replaces by id
  // ---------------------------------------------------------------------------

  /** The confirm button of the edit dialog for `task`, with the title and description typed in. */
  function Edit(list: seq<ToDo>, task: ToDo, title: string, description: string): (r: seq<ToDo>)
    ensures title == [] || description == [] ==> r == list
    ensures |r| == |list| && Ids(r) == Ids(list)
    ensures title != [] && description != [] ==> forall i :: 0 <= i < |list| ==>
      r[i] == if list[i].id == task.id then ToDo(task.id, title, description, task.isCompleted) else list[i]
  {
    if title != [] && description != [] then
      ReplaceKeepsIds(list, task.(title := title, description := description));
      ReplaceById(list, task.(title := title, description := description))
    else list
  }

  /** When the edited task is the only one with its id, edit keeps every flag and changes only that task's title and description. */
  lemma EditKeepsFlags(list: seq<ToDo>, task: ToDo, title: string, description: string)
    requires OnlyCopiesOf(list, task)
    ensures forall i :: 0 <= i < |list| ==>
      var r := Edit(list, task, title, description);
      r[i].id == list[i].id && r[i].isCompleted == list[i].isCompleted &&
      (list[i].id != task.id ==> r[i] == list[i]) &&
      (list[i].id == task.id && title != [] && description != [] ==>
        r[i] == list[i].(title := title, description := description))
  {
  }

  // ---------------------------------------------------------------------------
  // Add: guarded by non-empty fields, takes `idCounter++` as the new id
  // ---------------------------------------------------------------------------

  /** The confirm button of the add dialog. */
  function Add(p: Page, title: string, description: string): (q: Page)
    ensures title == [] || description == [] ==> q == p
    ensures title != [] && description != [] ==>
      |q.toDoList| == |p.toDoList| + 1 &&
      q.toDoList[..|p.toDoList|] == p.toDoList &&
      q.toDoList[|p.toDoList|] == ToDo(p.idCounter, title, description, false) &&
      q.idCounter == Inc32(p.idCounter)
  {
    if title != [] && description != [] then
      Page(p.toDoList + [ToDo(p.idCounter, title, description, false)], Inc32(p.idCounter))
    else p
  }

  /** Adding and then deleting the id just handed out restores the list, if no task already had that id. */
  lemma AddThenDelete(p: Page, title: string, description: string)
    requires forall t :: t in p.toDoList ==> t.id != p.idCounter
    ensures Delete(Add(p, title, description).toDoList, p.idCounter) == p.toDoList
  {
    var added := ToDo(p.idCounter, title, description, false);
    DeleteConcat(p.toDoList, [added], p.idCounter);
    DeleteAbsent(p.toDoList, p.idCounter);
  }

  // ---------------------------------------------------------------------------
  // Id numbering: a conditional invariant
  // ---------------------------------------------------------------------------

  /** Every id is below `counter`. */
  predicate IdsBelow(list: seq<ToDo>, counter: int32)
  {
    forall i :: 0 <= i < |list| ==> list[i].id < counter
  }

  /** No two tasks share an id. */
  predicate IdsDistinct(list: seq<ToDo>)
  {
    forall i, j :: 0 <= i < j < |list| ==> list[i].id != list[j].id
  }

  /** The condition under which the counter hands out only unused ids. */
  predicate WellNumbered(p: Page)
  {
    IdsBelow(p.toDoList, p.idCounter) && IdsDistinct(p.toDoList)
  }

  /** Distinct ids mean the task at a position is the only one with its id. */
  lemma DistinctOnlyCopies(list: seq<ToDo>, i: nat)
    requires IdsDistinct(list) && i < |list|
    ensures OnlyCopiesOf(list, list[i])
  {
  }

  /** Under the numbering condition, toggling a task of the list twice restores the list. */
  lemma ToggleTwiceRestoresNumbered(p: Page, i: nat)
    requires WellNumbered(p) && i < |p.toDoList|
    ensures Toggle(Toggle(p.toDoList, p.toDoList[i]), Toggled(p.toDoList[i])) == p.toDoList
  {
    DistinctOnlyCopies(p.toDoList, i);
    ToggleTwiceRestores(p.toDoList, p.toDoList[i]);
  }

  /** Under the numbering condition, editing a task of the list keeps every id and flag and changes only that task. */
  lemma EditKeepsFlagsNumbered(p: Page, i: nat, title: string, description: string)
    requires WellNumbered(p) && i < |p.toDoList|
    ensures forall j :: 0 <= j < |p.toDoList| ==>
      var l := p.toDoList;
      var r := Edit(l, l[i], title, description);
      r[j].id == l[j].id && r[j].isCompleted == l[j].isCompleted &&
      (j != i ==> r[j] == l[j]) &&
      (title != [] && description != [] ==> r[i] == l[i].(title := title, description := description))
  {
    DistinctOnlyCopies(p.toDoList, i);
    EditKeepsFlags(p.toDoList, p.toDoList[i], title, description);
  }

  /** The empty list with counter 1 is well numbered. */
  lemma InitialWellNumbered()
    ensures WellNumbered(InitialPage)
  {
  }

  /** Add hands out an id no task has, and keeps the numbering, as long as the counter does not wrap. */
  lemma AddPreservesNumbering(p: Page, title: string, description: string)
    requires WellNumbered(p)
    requires p.idCounter as int < INT32_MAX
    ensures forall t :: t in p.toDoList ==> t.id != p.idCounter
    ensures WellNumbered(Add(p, title, description))
  {
  }

  /** Putting a task in front of a list that does not carry its id keeps ids distinct. */
  lemma DistinctCons(x: ToDo, s: seq<ToDo>)
    requires IdsDistinct(s)
    requires forall t :: t in s ==> t.id != x.id
    ensures IdsDistinct([x] + s)
  {
  }

  /** The tail of a distinct list is distinct and does not carry the head's id. */
  lemma DistinctTail(list: seq<ToDo>)
    requires IdsDistinct(list) && list != []
    ensures IdsDistinct(list[1..])
    ensures forall t :: t in list[1..] ==> t.id != list[0].id
  {
  }

  /** Delete keeps ids distinct, whatever id is deleted. */
  lemma {:induction false} DeleteKeepsDistinct(list: seq<ToDo>, id: int32)
    requires IdsDistinct(list)
    ensures IdsDistinct(Delete(list, id))
  {
    if list != [] {
      DistinctTail(list);
      DeleteKeepsDistinct(list[1..], id);
      if list[0].id != id {
        DistinctCons(list[0], Delete(list[1..], id));
      }
    }
  }

  /** Delete keeps the numbering, whatever id is deleted. */
  lemma {:induction false} DeletePreservesNumbering(list: seq<ToDo>, counter: int32, id: int32)
    requires IdsBelow(list, counter) && IdsDistinct(list)
    ensures IdsBelow(Delete(list, id), counter) && IdsDistinct(Delete(list, id))
  {
    var r := Delete(list, id);
    forall i | 0 <= i < |r| ensures r[i].id < counter {
      assert r[i] in r;
      var j :| 0 <= j < |list| && list[j] == r[i];
    }
    DeleteKeepsDistinct(list, id);
  }

  /** Toggle keeps the numbering. */
  lemma TogglePreservesNumbering(list: seq<ToDo>, counter: int32, item: ToDo)
    requires IdsBelow(list, counter) && IdsDistinct(list)
    ensures IdsBelow(Toggle(list, item), counter) && IdsDistinct(Toggle(list, item))
  {
  }

  /** Edit keeps the numbering. */
  lemma EditPreservesNumbering(list: seq<ToDo>, counter: int32, task: ToDo, title: string, description: string)
    requires IdsBelow(list, counter) && IdsDistinct(list)
    ensures IdsBelow(Edit(list, task, title, description), counter)
    ensures IdsDistinct(Edit(list, task, title, description))
  {
  }

  /**
   * Nothing re-establishes the numbering after a load: the counter stays where
   * it was, so a loaded task with id 1 and a task added next share that id,
   * and deleting the new one deletes both.
   */
  lemma LoadedIdsCollide()
    ensures var loaded := Page([ToDo(1, "a", "b", false)], InitialPage.idCounter);
            var added := Add(loaded, "c", "d");
            !IdsDistinct(added.toDoList) && Delete(added.toDoList, 1) == []
  {
    var l := [ToDo(1, "a", "b", false), ToDo(1, "c", "d", false)];
    assert Add(Page([ToDo(1, "a", "b", false)], 1), "c", "d").toDoList == l;
    assert l[0].id == l[1].id;
    assert l[1..] == [l[1]] && l[1..][1..] == [];
    assert Delete(l, 1) == [];
  }
}
