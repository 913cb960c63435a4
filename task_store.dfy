/** The plain front end (script.js): a task list kept as one serialized array
    under a key of the browser's local storage, read-modify-written by every
    operation, and the three event handlers that drive it. A stored item is a
    `seq<Task>`; a key that holds nothing is absent from the map. */
module TaskStore {
  import opened Seqs
  import opened Tasks

  /** `data.filter((item) => item.id !== id)`. */
  function WithoutId(tasks: seq<Task>, id: int): (r: seq<Task>)
    ensures forall t <- r :: t in tasks && t.id != id
    ensures forall t <- tasks :: t.id != id ==> t in r
  {
    Select(tasks, (t: Task) => t.id != id)
  }

  /** `tasks.map((task) => task.id === id ? { ...task, ...patch } : task)`. */
  function UpdatedById(tasks: seq<Task>, id: int, patch: Patch): (r: seq<Task>)
    ensures |r| == |tasks|
    ensures forall i :: 0 <= i < |tasks| ==>
      r[i] == if tasks[i].id == id then Merge(tasks[i], patch) else tasks[i]
  {
    if tasks == [] then []
    else
      [if tasks[0].id == id then Merge(tasks[0], patch) else tasks[0]]
      + UpdatedById(tasks[1..], id, patch)
  }

  /** The position `Array.prototype.find` stops at: the first task with `id`. */
  function FindIndex(tasks: seq<Task>, id: int): (k: Option<nat>)
    ensures k.Some? ==>
      k.value < |tasks| && tasks[k.value].id == id &&
      forall j :: 0 <= j < k.value ==> tasks[j].id != id
    ensures k.None? ==> forall j :: 0 <= j < |tasks| ==> tasks[j].id != id
  {
    if tasks == [] then None
    else if tasks[0].id == id then Some(0)
    else match FindIndex(tasks[1..], id)
      case None => None
      case Some(k) => Some(k + 1)
  }

  /** `tasks.find((task) => task.id === id)`; `None` stands for `undefined`. */
  function FindById(tasks: seq<Task>, id: int): (r: Option<Task>) {
    match FindIndex(tasks, id)
    case None => None
    case Some(k) => Some(tasks[k])
  }

  /** No two tasks share the id `id` (ids come from the clock and are not
      checked for collisions, so this is an assumption, never a guarantee). */
  ghost predicate UniqueId(tasks: seq<Task>, id: int) {
    forall i, j :: 0 <= i < |tasks| && 0 <= j < |tasks| && tasks[i].id == id && tasks[j].id == id ==> i == j
  }

  /** All tasks carrying `id` agree on `completed` (true if the id is unique). */
  ghost predicate AgreeOnCompleted(tasks: seq<Task>, id: int) {
    forall i, j :: 0 <= i < |tasks| && 0 <= j < |tasks| && tasks[i].id == id && tasks[j].id == id ==>
      tasks[i].completed == tasks[j].completed
  }

  /** Removing an id keeps exactly the other tasks, each as often as before and
      in their original order, and leaves none with that id. */
  lemma WithoutIdIsExact(tasks: seq<Task>, id: int)
    ensures IsSubsequence(WithoutId(tasks, id), tasks)
    ensures forall t :: multiset(WithoutId(tasks, id))[t] == if t.id != id then multiset(tasks)[t] else 0
  {
    SelectIsExact(tasks, (t: Task) => t.id != id);
  }

  /** Removing an id no task has changes nothing. */
  lemma WithoutAbsentId(tasks: seq<Task>, id: int)
    requires forall t <- tasks :: t.id != id
    ensures WithoutId(tasks, id) == tasks
  {
    SelectKeepsAll(tasks, (t: Task) => t.id != id);
  }

  /** Removing an id held by exactly one task shortens the list by one. */
  lemma {:induction false} WithoutUniqueIdLength(tasks: seq<Task>, id: int)
    requires FindById(tasks, id).Some? && UniqueId(tasks, id)
    ensures |WithoutId(tasks, id)| == |tasks| - 1
  {
    assert tasks == [tasks[0]] + tasks[1..];
    var rest := tasks[1..];
    if tasks[0].id == id {
      forall t | t in rest ensures t.id != id {
        var j :| 0 <= j < |rest| && rest[j] == t;
        assert tasks[j + 1] == t;
      }
      WithoutAbsentId(rest, id);
    } else {
      assert UniqueId(rest, id) by {
        forall i, j | 0 <= i < |rest| && 0 <= j < |rest| && rest[i].id == id && rest[j].id == id
          ensures i == j
        {
          assert tasks[i + 1] == rest[i] && tasks[j + 1] == rest[j];
        }
      }
      WithoutUniqueIdLength(rest, id);
    }
  }

  /** Updating an id no task has changes nothing. */
  lemma UpdateAbsentId(tasks: seq<Task>, id: int, patch: Patch)
    requires forall t <- tasks :: t.id != id
    ensures UpdatedById(tasks, id, patch) == tasks
  {
  }

  /** Key under which the plain front end keeps its list. */
  const TasksKey: string := "tasks"

  /** The browser's `localStorage`, restricted to the items this app writes. */
  class LocalStorage {
    /** The serialized array stored under each key; an absent key is an item
        for which `getItem` returns null. */
    var items: map<string, seq<Task>>

    constructor ()
      ensures items == map[]
    {
      items := map[];
    }

    /** `getTasks(key)`: the stored list, or the empty list when the key holds nothing. */
    function GetTasks(key: string): (r: seq<Task>)
      reads this
      ensures key !in items ==> r == []
      ensures key in items ==> r == items[key]
    {
      if key in items then items[key] else []
    }

    /** `appendToLocalStorage`: the stored list (empty if none) with `newData`
        pushed at its end; other keys keep their items. */
    method AppendToLocalStorage(key: string, newData: Task)
      modifies this
      ensures items == old(items)[key := old(GetTasks(key)) + [newData]]
    {
      var data := GetTasks(key);
      data := data + [newData];
      items := items[key := data];
    }

    /** `removeFromLocalStorage`: the stored list without the tasks whose id is `id`. */
    method RemoveFromLocalStorage(key: string, id: int)
      modifies this
      ensures items == old(items)[key := WithoutId(old(GetTasks(key)), id)]
    {
      var data := GetTasks(key);
      data := WithoutId(data, id);
      items := items[key := data];
    }

    /** `updateLocalStorage`: `patch` spread over every stored task whose id is `id`. */
    method UpdateLocalStorage(key: string, id: int, patch: Patch)
      modifies this
      ensures items == old(items)[key := UpdatedById(old(GetTasks(key)), id, patch)]
    {
      var tasks := GetTasks(key);
      tasks := UpdatedById(tasks, id, patch);
      items := items[key := tasks];
    }
  }

  /** The store after the complete control of a row is clicked: every task
      with `id` gets `completed` set to the negation of the first such task's
      flag. `None` is the TypeError the handler throws when no task has `id`
      (`task.completed` on `undefined`). */
  function Toggled(tasks: seq<Task>, id: int): (r: Option<seq<Task>>)
    ensures r.None? <==> forall t <- tasks :: t.id != id
  {
    match FindById(tasks, id)
    case None => None
    case Some(task) => Some(UpdatedById(tasks, id, CompletedPatch(!task.completed)))
  }

  /** Toggling changes `completed` of the tasks with `id` and nothing else:
      the list keeps its length and order, every other task is untouched. */
  lemma ToggledFlipsOnlyCompleted(tasks: seq<Task>, id: int)
    requires AgreeOnCompleted(tasks, id)
    requires Toggled(tasks, id).Some?
    ensures |Toggled(tasks, id).value| == |tasks|
    ensures forall i :: 0 <= i < |tasks| ==>
      Toggled(tasks, id).value[i] ==
        if tasks[i].id == id then tasks[i].(completed := !tasks[i].completed) else tasks[i]
  {
    var k := FindIndex(tasks, id).value;
    forall i | 0 <= i < |tasks| && tasks[i].id == id
      ensures Toggled(tasks, id).value[i] == tasks[i].(completed := !tasks[i].completed)
    {
      assert tasks[i].completed == tasks[k].completed;
      MergeCompletedPatch(tasks[i], !tasks[k].completed);
    }
  }

  /** Toggling the same task twice restores the list. */
  lemma ToggleTwiceRestores(tasks: seq<Task>, id: int)
    requires AgreeOnCompleted(tasks, id)
    requires Toggled(tasks, id).Some?
    ensures Toggled(Toggled(tasks, id).value, id) == Some(tasks)
  {
    var once := Toggled(tasks, id).value;
    ToggledFlipsOnlyCompleted(tasks, id);
    assert AgreeOnCompleted(once, id) by {
      forall i, j | 0 <= i < |once| && 0 <= j < |once| && once[i].id == id && once[j].id == id
        ensures once[i].completed == once[j].completed
      {
        assert tasks[i].id == id && tasks[j].id == id;
      }
    }
    var k := FindIndex(tasks, id).value;
    assert once[k].id == id;
    ToggledFlipsOnlyCompleted(once, id);
    var twice := Toggled(once, id).value;
    assert |twice| == |tasks|;
    forall i | 0 <= i < |tasks| ensures twice[i] == tasks[i] {
      if tasks[i].id == id {
        assert once[i] == tasks[i].(completed := !tasks[i].completed);
      }
    }
    assert twice == tasks;
  }

  /** The store after Enter in a row's title field: only the title of the
      tasks with `id` changes. The plain front end makes no blank check here. */
  lemma EditTitleChangesOnlyTitle(tasks: seq<Task>, id: int, value: string)
    ensures |UpdatedById(tasks, id, TitlePatch(value))| == |tasks|
    ensures forall i :: 0 <= i < |tasks| ==>
      UpdatedById(tasks, id, TitlePatch(value))[i] ==
        if tasks[i].id == id then tasks[i].(title := value) else tasks[i]
  {
    forall i | 0 <= i < |tasks| && tasks[i].id == id
      ensures UpdatedById(tasks, id, TitlePatch(value))[i] == tasks[i].(title := value)
    {
      MergeTitlePatch(tasks[i], value);
    }
  }

  /** Which control of a task row a click landed on. */
  datatype RowControl = CompleteButton | DeleteButton | OtherControl

  /** The add button: a blank title is ignored; otherwise an incomplete task
      with that title is appended under the `tasks` key. */
  method OnAddClick(storage: LocalStorage, title: string, id: int)
    modifies storage
    ensures IsBlank(title) ==> storage.items == old(storage.items)
    ensures !IsBlank(title) ==>
      storage.items == old(storage.items)[TasksKey := old(storage.GetTasks(TasksKey)) + [NewTask(id, title)]]
  {
    if IsBlank(title) {
      return;
    }
    var newTask := NewTask(id, title);
    storage.AppendToLocalStorage(TasksKey, newTask);
  }

  /** A click inside the row of the task with id `id`. `threw` reports the
      TypeError of a complete click on a task that is no longer stored; the
      store is then untouched. */
  method OnListClick(storage: LocalStorage, id: int, control: RowControl) returns (threw: bool)
    modifies storage
    ensures threw <==> control == CompleteButton && Toggled(old(storage.GetTasks(TasksKey)), id).None?
    ensures control == CompleteButton && !threw ==>
      storage.items == old(storage.items)[TasksKey := Toggled(old(storage.GetTasks(TasksKey)), id).value]
    ensures control == DeleteButton ==>
      storage.items == old(storage.items)[TasksKey := WithoutId(old(storage.GetTasks(TasksKey)), id)]
    ensures control == OtherControl || threw ==> storage.items == old(storage.items)
  {
    threw := false;
    var task := FindById(storage.GetTasks(TasksKey), id);
    match control {
      case CompleteButton =>
        if task.None? {
          threw := true;
          return;
        }
        storage.UpdateLocalStorage(TasksKey, id, CompletedPatch(!task.value.completed));
      case DeleteButton =>
        storage.RemoveFromLocalStorage(TasksKey, id);
      case OtherControl =>
    }
  }

  /** A key released in the list; only Enter in a row's title field commits
      the field's value as the title of the row's task. */
  method OnKeyUp(storage: LocalStorage, onTitleField: bool, key: string, id: int, value: string)
    modifies storage
    ensures onTitleField && key == "Enter" ==>
      storage.items == old(storage.items)[TasksKey := UpdatedById(old(storage.GetTasks(TasksKey)), id, TitlePatch(value))]
    ensures !(onTitleField && key == "Enter") ==> storage.items == old(storage.items)
  {
    if !onTitleField {
      return;
    }
    if key == "Enter" {
      storage.UpdateLocalStorage(TasksKey, id, TitlePatch(value));
    }
  }
}
