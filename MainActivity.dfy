/**
 * The activity: choosing a fresh file name, saving the list to the documents
 * folder, loading a picked file, and the screen state those callbacks and the
 * list editor update.
 */
module MainActivity {
  import opened ToDoRecord
  import opened ToDoListPage

  datatype Option<T> = None | Some(value: T)

  // ---------------------------------------------------------------------------
  // File names: "$baseName$index.json"
  // ---------------------------------------------------------------------------

  function DigitChar(d: nat): (c: char)
    requires d < 10
    ensures '0' <= c <= '9' && c as int - '0' as int == d
  {
    ('0' as int + d) as char
  }

  /** The decimal rendering of a non-negative number, without leading zeros, as a string template writes it. */
  function DecimalString(n: nat): (s: string)
    ensures |s| >= 1
    ensures forall i :: 0 <= i < |s| ==> '0' <= s[i] <= '9'
    ensures s[0] == '0' <==> n == 0
  {
    if n < 10 then [DigitChar(n)] else DecimalString(n / 10) + [DigitChar(n % 10)]
  }

  /** The number a string of decimal digits denotes, read most significant digit first. */
  function DigitsValue(s: string): (v: int)
    ensures (forall i :: 0 <= i < |s| ==> '0' <= s[i] <= '9') ==> v >= 0
  {
    if s == [] then 0 else 10 * DigitsValue(s[..|s| - 1]) + (s[|s| - 1] as int - '0' as int)
  }

  /** Reading back a rendered number gives the number. */
  lemma {:induction false} DecimalRoundTrip(n: nat)
    ensures DigitsValue(DecimalString(n)) == n
  {
    if n >= 10 {
      var s := DecimalString(n);
      assert s[..|s| - 1] == DecimalString(n / 10);
      DecimalRoundTrip(n / 10);
    }
  }

  /** The file name for an index. */
  function FileName(baseName: string, index: nat): (name: string)
    ensures |name| == |baseName| + |DecimalString(index)| + 5
    ensures name[..|baseName|] == baseName
    ensures name[|baseName|..|name| - 5] == DecimalString(index)
    ensures name[|name| - 5..] == ".json"
  {
    baseName + DecimalString(index) + ".json"
  }

  /** Different indices give different names. */
  lemma FileNameInjective(baseName: string, a: nat, b: nat)
    requires FileName(baseName, a) == FileName(baseName, b)
    ensures a == b
  {
    DecimalRoundTrip(a);
    DecimalRoundTrip(b);
  }

  /** `index` is the least positive index whose file name is not in `directory`. */
  predicate IsSmallestFree(directory: set<string>, baseName: string, index: nat)
  {
    index >= 1 &&
    FileName(baseName, index) !in directory &&
    forall k :: 1 <= k < index ==> FileName(baseName, k) in directory
  }

  /**
   * Tries `storage1.json`, `storage2.json`, ... until a name is not in the
   * directory. Every name it steps past is a distinct entry of the finite
   * directory, which bounds the loop.
   */
  method GenerateIncrementedFileName(directory: set<string>, baseName: string)
    returns (fileName: string, ghost index: nat)
    ensures IsSmallestFree(directory, baseName, index)
    ensures fileName == FileName(baseName, index)
    ensures fileName !in directory
  {
    var i: nat := 1;
    fileName := FileName(baseName, i);
    ghost var passed: set<string> := {};
    while fileName in directory
      invariant i >= 1 && fileName == FileName(baseName, i)
      invariant forall k :: 1 <= k < i ==> FileName(baseName, k) in directory
      invariant passed <= directory
      invariant forall s :: s in passed ==> exists k :: 1 <= k < i && s == FileName(baseName, k)
      decreases directory - passed
    {
      assert fileName !in passed by {
        if fileName in passed {
          var k :| 1 <= k < i && fileName == FileName(baseName, k);
          FileNameInjective(baseName, k, i);
        }
      }
      passed := passed + {fileName};
      i := i + 1;
      fileName := FileName(baseName, i);
    }
    index := i;
  }

  /** A directory has exactly one smallest free index. */
  lemma SmallestFreeUnique(directory: set<string>, baseName: string, n: nat, m: nat)
    requires IsSmallestFree(directory, baseName, n)
    requires IsSmallestFree(directory, baseName, m)
    ensures n == m
  {
  }

  /** Once the chosen file exists, the next search picks a strictly larger index, hence another file. */
  lemma NextSaveLarger(directory: set<string>, baseName: string, n: nat, m: nat)
    requires IsSmallestFree(directory, baseName, n)
    requires IsSmallestFree(directory + {FileName(baseName, n)}, baseName, m)
    ensures m > n
    ensures FileName(baseName, m) != FileName(baseName, n)
    ensures FileName(baseName, m) !in directory
  {
  }

  // ---------------------------------------------------------------------------
  // Saving
  // ---------------------------------------------------------------------------

  /** The Documents/ToDolist directory: its entry names, and the list held by each file written in full. */
  class Folder {
    var entries: set<string>
    var contents: map<string, seq<ToDo>>

    ghost predicate Valid()
      reads this
    {
      contents.Keys <= entries
    }

    /** A directory whose entries are given and none of which holds a saved list yet. */
    constructor (entries: set<string>)
      ensures Valid()
      ensures this.entries == entries && contents == map[]
    {
      this.entries := entries;
      contents := map[];
    }
  }

  /** Where the file system gives way during a save: nowhere, when creating the file, or when writing to it. */
  datatype Fault = NoFault | CannotOpen | CannotWrite

  const SaveBaseName: string := "storage"

  /**
   * Writes the list to a fresh `storage<N>.json`. The result is true exactly
   * when nothing failed; no existing entry or saved file is ever replaced.
   */
  method SaveToDoList(folder: Folder, toDoList: seq<ToDo>, fault: Fault)
    returns (saved: bool, ghost fileName: string, ghost index: nat)
    requires folder.Valid()
    modifies folder
    ensures folder.Valid()
    ensures saved <==> fault == NoFault
    ensures IsSmallestFree(old(folder.entries), SaveBaseName, index)
    ensures fileName == FileName(SaveBaseName, index) && fileName !in old(folder.entries)
    ensures folder.entries == if fault == CannotOpen then old(folder.entries) else old(folder.entries) + {fileName}
    ensures folder.contents == if fault == NoFault then old(folder.contents)[fileName := toDoList] else old(folder.contents)
    ensures forall name :: name in old(folder.contents) ==>
      name in folder.contents && folder.contents[name] == old(folder.contents)[name]
  {
    var name;
    name, index := GenerateIncrementedFileName(folder.entries, SaveBaseName);
    fileName := name;
    match fault {
      case CannotOpen =>
        saved := false;
      case CannotWrite =>
        folder.entries := folder.entries + {name};
        saved := false;
      case NoFault =>
        folder.entries := folder.entries + {name};
        folder.contents := folder.contents[name := toDoList];
        saved := true;
    }
  }

  /** The notification shown after a save. */
  function SaveMessage(saved: bool): (msg: string)
    ensures msg == "Data saved successfully" <==> saved
    ensures msg == "Failed to save data" <==> !saved
  {
    if saved then "Data saved successfully" else "Failed to save data"
  }

  // ---------------------------------------------------------------------------
  // The screen state and its callbacks
  // ---------------------------------------------------------------------------

  /** What the file picker delivers: no file chosen, a file whose text cannot be read, or the list decoded from it. */
  datatype Pick = NoFile | Unreadable | Read(decoded: seq<ToDo>)

  /** The list held by the app, the page's id counter, and the notification waiting to be shown. */
  class App {
    var page: Page
    var toast: Option<string>

    constructor ()
      ensures page == InitialPage && toast == None
    {
      page := InitialPage;
      toast := None;
    }

    /** `onUpdateToDoList`: the app takes the list the page built. */
    method UpdateToDoList(updated: seq<ToDo>)
      modifies this
      ensures page == old(page).(toDoList := updated) && toast == old(toast)
    {
      page := page.(toDoList := updated);
    }

    method OnDeleteClick(item: ToDo)
      modifies this
      ensures page == old(page).(toDoList := Delete(old(page.toDoList), item.id)) && toast == old(toast)
      ensures old(WellNumbered(page)) ==> WellNumbered(page)
    {
      if WellNumbered(page) {
        DeletePreservesNumbering(page.toDoList, page.idCounter, item.id);
      }
      UpdateToDoList(Delete(page.toDoList, item.id));
    }

    method OnToggleComplete(item: ToDo)
      modifies this
      ensures page == old(page).(toDoList := Toggle(old(page.toDoList), item)) && toast == old(toast)
      ensures old(WellNumbered(page)) ==> WellNumbered(page)
    {
      if WellNumbered(page) {
        TogglePreservesNumbering(page.toDoList, page.idCounter, item);
      }
      UpdateToDoList(Toggle(page.toDoList, item));
    }

    /** The edit dialog's confirm button; with an empty field nothing is handed back. */
    method OnEditConfirm(task: ToDo, title: string, description: string)
      modifies this
      ensures page == old(page).(toDoList := Edit(old(page.toDoList), task, title, description))
      ensures toast == old(toast)
      ensures old(WellNumbered(page)) ==> WellNumbered(page)
    {
      if title != [] && description != [] {
        if WellNumbered(page) {
          EditPreservesNumbering(page.toDoList, page.idCounter, task, title, description);
        }
        UpdateToDoList(Edit(page.toDoList, task, title, description));
      }
    }

    /** The add dialog's confirm button: append a task numbered `idCounter++`. */
    method OnAddConfirm(title: string, description: string)
      modifies this
      ensures page == Add(old(page), title, description) && toast == old(toast)
      ensures old(WellNumbered(page)) && old(page.idCounter) as int < INT32_MAX ==> WellNumbered(page)
    {
      if title != [] && description != [] {
        if WellNumbered(page) && page.idCounter as int < INT32_MAX {
          AddPreservesNumbering(page, title, description);
        }
        var id := page.idCounter;
        page := page.(idCounter := Inc32(id));
        UpdateToDoList(page.toDoList + [ToDo(id, title, description, false)]);
      }
    }

    /** The picker's callback: a decoded list replaces the current one; the id counter is left as it is. */
    method OnFilePicked(pick: Pick)
      modifies this
      ensures pick == NoFile ==> page == old(page) && toast == old(toast)
      ensures pick == Unreadable ==> page == old(page) && toast == Some("Failed to load data")
      ensures pick.Read? ==>
        page == old(page).(toDoList := pick.decoded) && toast == Some("Data loaded successfully")
    {
      match pick {
        case NoFile =>
        case Unreadable =>
          toast := Some("Failed to load data");
        case Read(decoded) =>
          page := page.(toDoList := decoded);
          toast := Some("Data loaded successfully");
      }
    }

    /** The save button: save the current list, then report the outcome. */
    method OnSaveClick(folder: Folder, fault: Fault)
      requires folder.Valid()
      modifies this, folder
      ensures folder.Valid() && page == old(page)
      ensures toast == Some(SaveMessage(fault == NoFault))
      ensures exists index: nat :: var name := FileName(SaveBaseName, index);
        (IsSmallestFree(old(folder.entries), SaveBaseName, index) &&
         folder.entries == (if fault == CannotOpen then old(folder.entries) else old(folder.entries) + {name}) &&
         folder.contents == (if fault == NoFault then old(folder.contents)[name := old(page.toDoList)] else old(folder.contents)))
    {
      var saved;
      ghost var name, index;
      saved, name, index := SaveToDoList(folder, page.toDoList, fault);
      toast := Some(SaveMessage(saved));
    }
  }
}
