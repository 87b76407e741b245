# ToDoMob task list: a Dafny model

This project models the logic core of a single-screen Android to-do app. Its
tasks are `ToDo(id, title, description, isCompleted)` records. The screen keeps
them in one ordered list, and the user can add, edit, toggle and delete tasks.
The list is saved as a new `storage<N>.json` file in the Documents/ToDolist
folder and can be loaded back from a file the user picks.

- `ToDoRecord.dfy`: the record (`ToDo.kt`) and Kotlin's 32-bit `Int`, with the
  wrap-around of `++`.
- `ToDoListPage.dfy`: the four list transformations of `ToDoListPage.kt` as
  pure functions (`filter` becomes `Delete`, `map` becomes `ReplaceById`), the
  empty-field guards of the two dialogs, and `Add` on a `Page` record that holds
  the list and `idCounter`. Lemmas prove the properties of each operation. They
  also prove that id uniqueness is a conditional invariant: if every id is below
  `idCounter` and no two ids are equal, delete, toggle and edit keep both facts
  true, and add keeps them as long as the counter is below the `Int` maximum
  (at the maximum `idCounter++` wraps to a negative value).
- `MainActivity.dfy`: the `generateIncrementedFileName` loop over an abstract
  directory (a set of entry names), proved to terminate and to return the
  smallest free index. It also holds `saveToDoList` over a `Folder` object,
  where the failure point is a parameter, and proves that a save never replaces
  an existing file. Finally it has an `App` class with the screen state (the
  list, the counter and the pending notification) and the callbacks that
  replace it.

Three behaviours of the code are worth stating, because a reader could easily
assume otherwise:

- Ids are not unique in general. `idCounter` starts at 1 whatever list was
  loaded (`ToDoListPage.kt:35`, `MainActivity.kt:65`), so uniqueness holds only
  when the condition above holds, and `LoadedIdsCollide` shows a load
  followed by an add that breaks it.
- Edit and toggle do not replace a single task. The code maps over the whole
  list and replaces *every* task carrying the id with one copy of the clicked
  (or edited) task, and the model does the same. The properties of a single
  task are proved under `OnlyCopiesOf` (every task with that id is the clicked
  task), which the numbering condition implies for any task of the list.
- A malformed file is not rejected on load. The decoding exception is not
  caught, so the model has only the two outcomes the code handles: no text
  read, or a decoded list.

## Model

| member | source | states |
|---|---|---|
| ToDoRecord.Inc32 | app/src/main/java/com/example/todolist/ToDoListPage.kt:76 | `idCounter++` on a Kotlin `Int` adds one below the maximum and wraps to the minimum at it |
| ToDoListPage.Delete | app/src/main/java/com/example/todolist/ToDoListPage.kt:59 | a task is in the result iff it is in the list and its id differs from the target. The result is never longer |
| ToDoListPage.DeleteMultiplicity | app/src/main/java/com/example/todolist/ToDoListPage.kt:59 | each task with another id occurs in the result exactly as often as in the list, and tasks with the target id do not occur at all |
| ToDoListPage.DeleteConcat | app/src/main/java/com/example/todolist/ToDoListPage.kt:59 | deleting from a concatenation deletes from each part, so the kept tasks stay in their original relative order |
| ToDoListPage.DeleteAbsent | app/src/main/java/com/example/todolist/ToDoListPage.kt:59 | deleting an id that no task carries leaves the list unchanged |
| ToDoListPage.ReplaceById | app/src/main/java/com/example/todolist/ToDoListPage.kt:62-64 | same length. Position by position, a task with the updated task's id becomes the updated task and every other task is kept |
| ToDoListPage.ReplaceKeepsIds | app/src/main/java/com/example/todolist/ToDoListPage.kt:91-93 | replacing by id leaves the sequence of ids unchanged |
| ToDoListPage.Toggled | app/src/main/java/com/example/todolist/ToDoListPage.kt:136 | the copy has the clicked item's id, title and description, with its flag negated |
| ToDoListPage.Toggle | app/src/main/java/com/example/todolist/ToDoListPage.kt:62-64 | keeps the length and the id sequence. Each task with the item's id gets the item's id, title and description and the negated flag. Every other task is untouched |
| ToDoListPage.ToggleFlipsOwnFlag | app/src/main/java/com/example/todolist/ToDoListPage.kt:136 | when the clicked item is the only version of its id, toggling negates exactly that task's own flag |
| ToDoListPage.ToggleTwiceReplaces | app/src/main/java/com/example/todolist/ToDoListPage.kt:62-64 | toggling, then toggling the shown copy, replaces every task with that id by the original item |
| ToDoListPage.ToggleTwiceRestoresNumbered | app/src/main/java/com/example/todolist/ToDoListPage.kt:62-64 | under the numbering condition, toggling any task of the list twice returns the original list |
| ToDoListPage.ToggleTwiceRestores | app/src/main/java/com/example/todolist/ToDoListPage.kt:62-64 | toggling the same task twice returns the original list when the item is the only version of its id |
| ToDoListPage.Edit | app/src/main/java/com/example/todolist/ToDoListPage.kt:232-233 | an empty title or description leaves the list unchanged. Otherwise length and ids are kept, each task with the edited id becomes that task with the new title and description and its flag kept, and the rest are untouched |
| ToDoListPage.EditKeepsFlagsNumbered | app/src/main/java/com/example/todolist/ToDoListPage.kt:91-93 | under the numbering condition, editing a task of the list keeps every id and every flag, changes no other task, and gives that task the new title and description when both are non-empty |
| ToDoListPage.EditKeepsFlags | app/src/main/java/com/example/todolist/ToDoListPage.kt:91-93 | when the edited task is the only version of its id, every id and every flag is kept and only that task's title and description change |
| ToDoListPage.Add | app/src/main/java/com/example/todolist/ToDoListPage.kt:75-80 | with non-empty fields, it appends one task `ToDo(old idCounter, title, description, false)`, the prefix is the old list and the counter takes one `Int` increment. With an empty field, nothing changes (guard at line 191) |
| ToDoListPage.AddThenDelete | app/src/main/java/com/example/todolist/ToDoListPage.kt:75-80 | deleting the old counter value after an add restores the list, if no task already had that id. With non-empty fields the add hands out that id; with an empty field the add changes nothing and the delete removes nothing |
| ToDoListPage.InitialWellNumbered | app/src/main/java/com/example/todolist/ToDoListPage.kt:35 | the starting state, an empty list with counter 1, satisfies the numbering condition |
| ToDoListPage.AddPreservesNumbering | app/src/main/java/com/example/todolist/ToDoListPage.kt:75-80 | if all ids are below the counter and distinct, the id handed out is unused and both facts still hold afterwards (as long as the counter is below the `Int` maximum) |
| ToDoListPage.DeleteKeepsDistinct | app/src/main/java/com/example/todolist/ToDoListPage.kt:59 | deleting keeps ids pairwise distinct |
| ToDoListPage.DeletePreservesNumbering | app/src/main/java/com/example/todolist/ToDoListPage.kt:59 | deleting keeps all ids below the counter and distinct |
| ToDoListPage.TogglePreservesNumbering | app/src/main/java/com/example/todolist/ToDoListPage.kt:62-64 | toggling keeps all ids below the counter and distinct |
| ToDoListPage.EditPreservesNumbering | app/src/main/java/com/example/todolist/ToDoListPage.kt:91-93 | editing keeps all ids below the counter and distinct |
| ToDoListPage.LoadedIdsCollide | app/src/main/java/com/example/todolist/ToDoListPage.kt:35 | with the counter still at 1 after loading a task with id 1, the next add creates a second id 1, and deleting that id removes both tasks |
| MainActivity.DecimalString | app/src/main/java/com/example/todolist/MainActivity.kt:151 | the rendering is a non-empty string of decimal digits with no leading zero (it starts with '0' exactly for 0), as Kotlin's `Int.toString` writes a non-negative number |
| MainActivity.DecimalRoundTrip | app/src/main/java/com/example/todolist/MainActivity.kt:151 | reading the decimal rendering of an index back gives the index |
| MainActivity.FileName | app/src/main/java/com/example/todolist/MainActivity.kt:155 | the name is the base name, then the decimal index, then `.json` |
| MainActivity.FileNameInjective | app/src/main/java/com/example/todolist/MainActivity.kt:155 | different indices give different file names |
| MainActivity.GenerateIncrementedFileName | app/src/main/java/com/example/todolist/MainActivity.kt:149-159 | the loop terminates for any finite directory. It returns `baseName + N + ".json"` with `N >= 1`, that name is not in the directory, and every index from 1 to N-1 is |
| MainActivity.SmallestFreeUnique | app/src/main/java/com/example/todolist/MainActivity.kt:150-156 | the smallest free index is unique, so the search result is determined by the directory |
| MainActivity.NextSaveLarger | app/src/main/java/com/example/todolist/MainActivity.kt:135-138 | once the chosen file exists, the next search returns a strictly larger index and so a different name |
| MainActivity.SaveToDoList | app/src/main/java/com/example/todolist/MainActivity.kt:126-147 | returns true exactly when nothing failed. It writes to the smallest free `storage<N>.json`, adds that entry unless the file could not be created, and records the list only on a full write. Every earlier file and its content is kept |
| MainActivity.SaveMessage | app/src/main/java/com/example/todolist/MainActivity.kt:92-93 | "Data saved successfully" exactly when the save returned true, otherwise "Failed to save data" |
| MainActivity.App.constructor | app/src/main/java/com/example/todolist/MainActivity.kt:56 | the app starts with an empty list, counter 1 and no notification |
| MainActivity.App.UpdateToDoList | app/src/main/java/com/example/todolist/MainActivity.kt:79 | the list handed back by the page replaces the app's list. Nothing else changes |
| MainActivity.App.OnDeleteClick | app/src/main/java/com/example/todolist/ToDoListPage.kt:58-60 | the list becomes `Delete` of the old list, and the numbering condition is kept |
| MainActivity.App.OnToggleComplete | app/src/main/java/com/example/todolist/ToDoListPage.kt:61-65 | the list becomes `Toggle` of the old list, and the numbering condition is kept |
| MainActivity.App.OnEditConfirm | app/src/main/java/com/example/todolist/ToDoListPage.kt:88-96 | the list becomes `Edit` of the old list (unchanged with an empty field), and the numbering condition is kept |
| MainActivity.App.OnAddConfirm | app/src/main/java/com/example/todolist/ToDoListPage.kt:72-82 | the state becomes `Add` of the old state, and the numbering condition is kept while the counter is below the maximum |
| MainActivity.App.OnFilePicked | app/src/main/java/com/example/todolist/MainActivity.kt:61-70 | no file: nothing changes. Unreadable file (null text): the list and the counter stay and the message is "Failed to load data". Decoded list: it replaces the list, the counter stays, and the message is "Data loaded successfully" |
| MainActivity.App.OnSaveClick | app/src/main/java/com/example/todolist/MainActivity.kt:91-94 | the current list is saved to `storage<N>.json` with N the smallest free index of the old folder; the entry and the contents change by failure point as in `SaveToDoList`, and the message matches the save result |

## Left out

- The Compose UI is not modelled: layout, icons, colours, the dialog visibility flags (`showAddDialog`, `showEditDialog`, `taskToEdit`) and the dismiss buttons. The dialogs enter the model only through their confirm guards.
- Showing the notification and clearing it afterwards (`MainActivity.kt:118-121`) is UI work. The model stops when the message is set.
- JSON encoding and decoding go through kotlinx.serialization, whose code is not part of this model. A saved file's content is recorded as the list itself, and a load receives the decoded list as `Pick.Read`. No save/load round trip is stated.
- Decoding failures in `Json.decodeFromString` (`MainActivity.kt:65`) and read failures inside `readText` raise exceptions that the code does not catch. The model has no outcome for them.
- The Android file system is reduced to a set of entry names plus the saved contents. Directory creation (`mkdirs`) is not modelled: a failure to create the folder shows up as `Fault.CannotOpen`. Other processes creating files between the existence check and the write are not modelled.
- Logging (`Log.d`, `printStackTrace`) is not modelled.
- MainActivity.GenerateIncrementedFileName: the index is an unbounded natural number. Kotlin's `Int` would wrap after 2^31-1 existing files, which this model does not capture.
- ToDoListPage.AddPreservesNumbering: requires the counter to be below the `Int` maximum, because at the maximum `idCounter++` wraps to a negative value and the "all ids below the counter" condition fails.
- ToDoListPage.ToggleFlipsOwnFlag: proved only when the clicked item is the only version of its id (`OnlyCopiesOf`). With duplicate ids, which a loaded file can contain, the code overwrites the other tasks with that id using the clicked item's toggled copy.
- ToDoListPage.EditKeepsFlags: proved only under `OnlyCopiesOf`, for the same reason. With duplicates, the other tasks with that id take the edited task's flag, title and description.
- ToDoListPage.ToggleTwiceRestores: proved only under `OnlyCopiesOf`. In general the result is `ReplaceById(list, item)` (see `ToggleTwiceReplaces`).
