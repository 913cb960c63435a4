/** `TaskFilter` and the filter-button bookkeeping of `ToDoApp` in the
    class-based front end (classApproach.js): which rows a filter option
    renders, and which filter button carries the `active` class. */
module TaskFilter {
  import opened Seqs
  import opened Tasks
  import opened TaskList

  /** The `data-filter` value of a filter button: 'all', 'active' or
      'completed'. 'all' is the `default` branch of `filterTasks`. */
  datatype FilterOption = All | Active | Completed

  /** Whether a task belongs to the rows rendered under `option`. */
  predicate Shows(option: FilterOption, t: Task) {
    match option
    case Active => !t.completed
    case Completed => t.completed
    case All => true
  }

  /** The rows `filterTasks` renders: nothing for an empty collection,
      otherwise the selected tasks in collection order. */
  function Filtered(tasks: seq<Task>, option: FilterOption): (r: seq<Task>) {
    if |tasks| < 1 then []
    else match option
      case Active => Select(tasks, IsActive)
      case Completed => Select(tasks, IsCompleted)
      case All => tasks
  }

  /** Every option renders exactly the tasks it shows, each as often as it is
      stored and in store order: Active the unfinished ones, Completed the
      finished ones, All every task. */
  lemma FilteredIsExact(tasks: seq<Task>, option: FilterOption)
    ensures IsSubsequence(Filtered(tasks, option), tasks)
    ensures forall t :: multiset(Filtered(tasks, option))[t] == if Shows(option, t) then multiset(tasks)[t] else 0
  {
    match option
    case Active => SelectIsExact(tasks, IsActive);
    case Completed => SelectIsExact(tasks, IsCompleted);
    case All => SubsequenceReflexive(tasks);
  }

  /** The Active and the Completed view split the collection between them. */
  lemma ActiveAndCompletedPartition(tasks: seq<Task>)
    ensures multiset(Filtered(tasks, Active)) + multiset(Filtered(tasks, Completed)) == multiset(tasks)
  {
    FilteredIsExact(tasks, Active);
    FilteredIsExact(tasks, Completed);
    assert forall t :: (multiset(Filtered(tasks, Active)) + multiset(Filtered(tasks, Completed)))[t] == multiset(tasks)[t];
  }

  /** Rendering a collection one more task long, as the render loop does. */
  lemma FilteredSnoc(tasks: seq<Task>, t: Task, option: FilterOption)
    ensures Filtered(tasks + [t], option) == if Shows(option, t) then Filtered(tasks, option) + [t] else Filtered(tasks, option)
  {
    match option
    case Active => SelectSnoc(tasks, t, IsActive);
    case Completed => SelectSnoc(tasks, t, IsCompleted);
    case All =>
  }

  /** The `active` class on the filter buttons, and the button that
      `ToDoApp.previousActiveFilter` refers to (`None`: not yet set). */
  datatype FilterButtons = FilterButtons(marked: set<FilterOption>, previous: Option<FilterOption>)

  /** The page as `init` builds it: no button marked, nothing remembered. */
  const Unmarked: FilterButtons := FilterButtons({}, None)

  /** The class `active` sits only on the remembered button. Every handler
      keeps this, and it starts out true. */
  predicate MarkedOnlyPrevious(b: FilterButtons) {
    forall o <- b.marked :: b.previous == Some(o)
  }

  lemma AtMostOneMarked(b: FilterButtons)
    requires MarkedOnlyPrevious(b)
    ensures |b.marked| <= 1
  {
    if b.previous.Some? {
      assert b.marked <= {b.previous.value};
      assert b.marked == {} || b.marked == {b.previous.value};
    } else {
      assert b.marked == {};
    }
  }

  /** The effect of a click on a filter button: the new button state, and the
      option the list is re-rendered with. */
  datatype ButtonClick = ButtonClick(buttons: FilterButtons, rendered: FilterOption)

  /** `handleFilterButtons` as written: the remembered button loses `active`
      first, and only then is the clicked button asked whether it is active. */
  function ClickAsWritten(b: FilterButtons, target: FilterOption): (r: ButtonClick) {
    var cleared := if b.previous.Some? then b.marked - {b.previous.value} else b.marked;
    if target in cleared then ButtonClick(FilterButtons(cleared - {target}, Some(target)), All)
    else ButtonClick(FilterButtons(cleared + {target}, Some(target)), target)
  }

  /** As written, the toggle-off branch is dead: from every reachable state a
      click marks the clicked button and renders its own option. */
  lemma AsWrittenNeverTogglesOff(b: FilterButtons, target: FilterOption)
    requires MarkedOnlyPrevious(b)
    ensures ClickAsWritten(b, target) == ButtonClick(FilterButtons({target}, Some(target)), target)
  {
    var cleared := if b.previous.Some? then b.marked - {b.previous.value} else b.marked;
    assert cleared == {};
  }

  /** The witness: clicking 'active' twice leaves it marked and the list
      filtered to active tasks, where the second click should reset to all. */
  lemma AsWrittenSecondClickKeepsFilter()
    ensures ClickAsWritten(ClickAsWritten(Unmarked, Active).buttons, Active)
         == ButtonClick(FilterButtons({Active}, Some(Active)), Active)
  {
    AsWrittenNeverTogglesOff(Unmarked, Active);
    AsWrittenNeverTogglesOff(FilterButtons({Active}, Some(Active)), Active);
  }

  /** `handleFilterButtons` as intended: the clicked button's `active` class
      is read before the remembered button is cleared. */
  function ClickButton(b: FilterButtons, target: FilterOption): (r: ButtonClick) {
    var initiallyActive := target in b.marked;
    var cleared := if b.previous.Some? then b.marked - {b.previous.value} else b.marked;
    if initiallyActive then ButtonClick(FilterButtons(cleared - {target}, Some(target)), All)
    else ButtonClick(FilterButtons(cleared + {target}, Some(target)), target)
  }

  /** The one-active-button rule: clicking the marked button renders every
      task and leaves no button marked; clicking any other button marks it
      alone and renders its option. */
  lemma ClickButtonRule(b: FilterButtons, target: FilterOption)
    requires MarkedOnlyPrevious(b)
    ensures MarkedOnlyPrevious(ClickButton(b, target).buttons)
    ensures ClickButton(b, target).buttons.previous == Some(target)
    ensures target in b.marked ==>
      ClickButton(b, target).rendered == All && ClickButton(b, target).buttons.marked == {}
    ensures target !in b.marked ==>
      ClickButton(b, target).rendered == target && ClickButton(b, target).buttons.marked == {target}
  {
    var cleared := if b.previous.Some? then b.marked - {b.previous.value} else b.marked;
    assert cleared == {};
  }

  /** `clearFilters`: once some button has been remembered, the 'all' button
      becomes the marked and remembered one; before that nothing changes. */
  function ClearFilters(b: FilterButtons): (r: FilterButtons) {
    if b.previous.Some? then FilterButtons(b.marked - {b.previous.value} + {All}, Some(All)) else b
  }

  lemma ClearFiltersMarksAll(b: FilterButtons)
    requires MarkedOnlyPrevious(b)
    ensures b.previous.Some? ==> ClearFilters(b) == FilterButtons({All}, Some(All))
    ensures MarkedOnlyPrevious(ClearFilters(b))
    ensures ClearFilters(ClearFilters(b)) == ClearFilters(b)
  {
    if b.previous.Some? {
      assert b.marked - {b.previous.value} == {};
    }
  }
}
