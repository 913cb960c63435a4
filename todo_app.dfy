/** `ToDoApp` and the handlers of the class-based front end
    (classApproach.js), as one object holding the data the page shows: the
    backend's task collection, the rendered rows, whether the filter group and
    the clear-completed button are shown, the filter buttons, and the
    new-task input. Requests complete one after another, in program order. */
module ToDoApp {
  import opened Seqs
  import opened Tasks
  import opened TaskStore
  import opened TaskList
  import opened TaskFilter

  /** The rows after an edit commit on row `row`: a blank value removes the
      row, any other value becomes the row's displayed title. */
  function CommittedRows(rows: seq<Task>, row: nat, value: string): (r: seq<Task>)
    requires row < |rows|
    ensures IsBlank(value) ==> |r| == |rows| - 1 && r[..row] == rows[..row] && r[row..] == rows[row + 1..]
    ensures !IsBlank(value) ==> |r| == |rows| && r[row] == rows[row].(title := value)
    ensures !IsBlank(value) ==> forall i :: 0 <= i < |rows| && i != row ==> r[i] == rows[i]
  {
    if IsBlank(value) then rows[..row] + rows[row + 1..] else rows[row := rows[row].(title := value)]
  }

  /** A blank edit commit on the only task empties the collection, but the
      edit handlers never call `turnFilters`, so the filter group and the
      clear-completed button stay shown over an empty list. */
  method BlankEditOfLastTaskKeepsFilters(t: Task) returns (app: App)
    ensures app.tasks == [] && app.rows == [] && app.filtersShown
  {
    app := new App([t]);
    app.HandleSaveEdittedTask(Some(0), "Enter", "");
    BlankCommitRemoves([t], t.id, "");
    assert forall u <- WithoutId([t], t.id) :: u.id != t.id && u == t;
  }

  class App {
    /** The backend's task collection (`GET /tasks`). */
    var tasks: seq<Task>
    /** The task list element: one row per entry, in order, with the data it displays. */
    var rows: seq<Task>
    /** The filter group and the clear-completed button are not hidden. */
    var filtersShown: bool
    /** The `active` classes and `ToDoApp.previousActiveFilter`. */
    var buttons: FilterButtons
    /** The value of the new-task text input. */
    var input: string

    ghost predicate Valid()
      reads this
    {
      MarkedOnlyPrevious(buttons)
    }

    /** `init`: an empty page with the filters hidden and no button marked,
        then `renderTasks` on the stored collection. */
    constructor (stored: seq<Task>)
      ensures Valid()
      ensures tasks == stored && rows == stored && filtersShown == (|stored| > 0)
      ensures buttons == Unmarked && input == ""
    {
      tasks := stored;
      rows := [];
      filtersShown := false;
      buttons := Unmarked;
      input := "";
      new;
      RenderTasks();
    }

    /** `turnFilters`. */
    method TurnFilters(turnOn: bool)
      modifies this`filtersShown
      ensures filtersShown == turnOn
    {
      filtersShown := turnOn;
    }

    /** `clearFilters`. */
    method ClearFilters()
      requires Valid()
      modifies this`buttons
      ensures Valid()
      ensures buttons == TaskFilter.ClearFilters(old(buttons))
    {
      ClearFiltersMarksAll(buttons);
      buttons := TaskFilter.ClearFilters(buttons);
    }

    /** `renderTasks`: every stored task becomes a row, in order; the filters
        are shown iff there is a task, and then `clearFilters` runs, which
        makes 'all' the marked button once some button has been remembered. */
    method RenderTasks()
      requires Valid()
      modifies this`rows, this`filtersShown, this`buttons
      ensures Valid()
      ensures rows == tasks && filtersShown == (|tasks| > 0)
      ensures buttons == if |tasks| > 0 then TaskFilter.ClearFilters(old(buttons)) else old(buttons)
    {
      rows := [];
      var tasksData := tasks;
      TurnFilters(false);
      if |tasksData| > 0 {
        TurnFilters(true);
        ClearFilters();
        var rendered := [];
        for i := 0 to |tasksData|
          invariant rendered == tasksData[..i]
        {
          rendered := rendered + [tasksData[i]];
        }
        rows := rendered;
      }
    }

    /** `filterTasks`: the list is emptied and then gets one row per task the
        option shows, in store order. */
    method FilterTasks(option: FilterOption)
      modifies this`rows
      ensures rows == Filtered(tasks, option)
    {
      rows := [];
      var data := tasks;
      if |data| < 1 {
        return;
      }
      var rendered := [];
      for i := 0 to |data|
        invariant rendered == Filtered(data[..i], option)
      {
        FilteredSnoc(data[..i], data[i], option);
        assert data[..i + 1] == data[..i] + [data[i]];
        if Shows(option, data[i]) {
          rendered := rendered + [data[i]];
        }
      }
      assert data[..|data|] == data;
      rows := rendered;
    }

    /** `handleFilterButtons` with the corrected rule `ClickButton`: the test
        of the clicked button is read before the remembered one is cleared
        (as written the order is the other way, see `ClickAsWritten`).
        `target` is the clicked filter option, `None` when the click was not
        on a filter button. */
    method HandleFilterButtons(target: Option<FilterOption>)
      requires Valid()
      modifies this`buttons, this`rows
      ensures Valid()
      ensures target.None? ==> buttons == old(buttons) && rows == old(rows)
      ensures target.Some? ==>
        buttons == ClickButton(old(buttons), target.value).buttons &&
        rows == Filtered(tasks, ClickButton(old(buttons), target.value).rendered)
    {
      if target.None? {
        return;
      }
      ClickButtonRule(buttons, target.value);
      var click := ClickButton(buttons, target.value);
      buttons := click.buttons;
      FilterTasks(click.rendered);
    }

    /** `handleAddTask`: a blank input is ignored; otherwise `clearFilters`
        runs (making 'all' the marked button once some button has been
        remembered), a fresh task with the input as title is POSTed, the list
        is re-rendered and the input is cleared. */
    method HandleAddTask(id: int)
      requires Valid()
      modifies this
      ensures Valid()
      ensures IsBlank(old(input)) ==> unchanged(this)
      ensures !IsBlank(old(input)) ==>
        && tasks == old(tasks) + [NewTask(id, old(input))]
        && rows == tasks && filtersShown && input == ""
        && buttons == TaskFilter.ClearFilters(old(buttons))
    {
      var title := input;
      if IsBlank(title) {
        return;
      }
      ghost var before := buttons;
      ClearFilters();
      var newTask := NewTask(id, title);
      tasks := tasks + [newTask];
      RenderTasks();
      ClearFiltersMarksAll(before);
      input := "";
      var currentTasks := tasks;
      if |currentTasks| > 0 {
        TurnFilters(true);
      }
    }

    /** `handleCompleteDelete`: `row` is the row the click landed in (`None`
        outside every row), `control` the button clicked in it. Complete PUTs
        the toggled task and toggles the row's display; with no stored task of
        that id the handler throws before either. Delete removes the task and
        the row, and shows the filters iff the list fetched before the delete
        had more than one task. */
    method HandleCompleteDelete(row: Option<nat>, control: RowControl)
      requires row.Some? ==> row.value < |rows|
      modifies this`tasks, this`rows, this`filtersShown
      ensures row.None? || control == OtherControl ==>
        tasks == old(tasks) && rows == old(rows) && filtersShown == old(filtersShown)
      ensures row.Some? && control == CompleteButton ==>
        var r := row.value;
        var id := old(rows[r].id);
        && tasks == Toggle(old(tasks), id) && filtersShown == old(filtersShown)
        && rows == if FindById(old(tasks), id).Some?
                   then old(rows)[r := old(rows[r]).(completed := !old(rows[r].completed))]
                   else old(rows)
      ensures row.Some? && control == DeleteButton ==>
        var r := row.value;
        && tasks == WithoutId(old(tasks), old(rows[r].id))
        && rows == old(rows[..r] + rows[r + 1..])
        && filtersShown == (|old(tasks)| - 1 > 0)
    {
      if row.None? {
        return;
      }
      var r := row.value;
      var taskId := rows[r].id;
      var fetched := tasks;
      match control {
        case CompleteButton =>
          var task := FindById(tasks, taskId);
          if task.None? {
            return;
          }
          tasks := UpdatedById(tasks, taskId, FullPatch(task.value.(completed := !task.value.completed)));
          rows := rows[r := rows[r].(completed := !rows[r].completed)];
        case DeleteButton =>
          tasks := WithoutId(tasks, taskId);
          rows := rows[..r] + rows[r + 1..];
          TurnFilters(|fetched| - 1 > 0);
        case OtherControl =>
      }
    }

    /** The shared body of the two edit commits on row `row` with the edit
        field's `value`. */
    method Commit(row: nat, value: string)
      requires row < |rows|
      modifies this`tasks, this`rows
      ensures tasks == CommitEdit(old(tasks), old(rows[row].id), value)
      ensures rows == CommittedRows(old(rows), row, value)
    {
      var taskId := rows[row].id;
      if IsBlank(value) {
        tasks := WithoutId(tasks, taskId);
      }
      var body := match FindById(tasks, taskId)
        case Some(task) => FullPatch(task.(title := value))
        case None => TitlePatch(value);
      tasks := UpdatedById(tasks, taskId, body);
      rows := CommittedRows(rows, row, value);
    }

    /** `handleSaveEdittedTask`: a key pressed in the list. `row` is the row
        whose title field has the focus (`None` when the target has no
        `data-title`); only Enter commits. */
    method HandleSaveEdittedTask(row: Option<nat>, key: string, value: string)
      requires row.Some? ==> row.value < |rows|
      modifies this`tasks, this`rows
      ensures row.Some? && key == "Enter" ==>
        tasks == CommitEdit(old(tasks), old(rows[row.value].id), value) &&
        rows == CommittedRows(old(rows), row.value, value)
      ensures !(row.Some? && key == "Enter") ==> tasks == old(tasks) && rows == old(rows)
    {
      if row.None? {
        return;
      }
      if key == "Enter" {
        Commit(row.value, value);
      }
    }

    /** `saveOnBlur`: the edit field of row `row` lost the focus. */
    method SaveOnBlur(row: nat, value: string)
      requires row < |rows|
      modifies this`tasks, this`rows
      ensures tasks == CommitEdit(old(tasks), old(rows[row].id), value)
      ensures rows == CommittedRows(old(rows), row, value)
    {
      Commit(row, value);
    }

    /** `clearCompleted`: a DELETE for each completed task, in store order,
        then `renderTasks`. */
    method ClearCompleted()
      requires Valid()
      modifies this`tasks, this`rows, this`filtersShown, this`buttons
      ensures Valid()
      ensures tasks == TaskList.ClearCompleted(old(tasks))
      ensures rows == tasks && filtersShown == (|tasks| > 0)
      ensures buttons == if |tasks| > 0 then TaskFilter.ClearFilters(old(buttons)) else old(buttons)
    {
      var fetched := tasks;
      var done := Select(fetched, IsCompleted);
      for i := 0 to |done|
        invariant tasks == RemoveEach(fetched, done[..i])
        invariant buttons == old(buttons)
        invariant Valid()
      {
        assert done[..i + 1][..i] == done[..i];
        tasks := WithoutId(tasks, done[i].id);
      }
      assert done[..|done|] == done;
      RenderTasks();
    }
  }
}
