/**
  The page's state: the module-level `todos` array and `currentFilter`
  string, with one method per handler that changes them and the two queries
  `render` makes (the visible list and the count label).
 */
module Store {
  import opened Wrappers
  import opened Seqs
  import opened Text
  import opened TodoList
  import opened Sorting
  import opened View

  class TodoStore {
    var todos: seq<Todo>
    var currentFilter: string

    /**
      Page start: `loadTodos()` gives the stored list, or the empty list when
      nothing is stored or the stored value does not parse (`stored == None`);
      the filter starts as "all".
     */
    constructor (stored: Option<seq<Todo>>)
      ensures todos == (if stored.Some? then stored.value else [])
      ensures currentFilter == "all"
    {
      todos := if stored.Some? then stored.value else [];
      currentFilter := "all";
    }

    /**
      The form's submit handler: a blank text is ignored; otherwise the new
      task is put at the front of the list (`unshift`).
     */
    method Add(text: string, due: Option<int>, id: Id, now: int)
      modifies this`todos
      ensures todos == Added(old(todos), text, due, id, now)
      ensures WellFormed(old(todos)) && FreshId(old(todos), id) ==> WellFormed(todos)
    {
      var trimmed := Trim(text);
      if trimmed == [] {
        return;
      }
      todos := [Todo(id, trimmed, false, due, now)] + todos;
      if WellFormed(old(todos)) && FreshId(old(todos), id) {
        AddKeepsWellFormed(old(todos), text, due, id, now);
      }
    }

    /** `toggleTodo(id)`. */
    method Toggle(id: Id)
      modifies this`todos
      ensures todos == Toggled(old(todos), id)
      ensures WellFormed(old(todos)) ==> WellFormed(todos)
    {
      todos := Toggled(todos, id);
      if WellFormed(old(todos)) {
        ToggleKeepsWellFormed(old(todos), id);
      }
    }

    /** `deleteTodo(id)`. */
    method Delete(id: Id)
      modifies this`todos
      ensures todos == Deleted(old(todos), id)
      ensures WellFormed(old(todos)) ==> WellFormed(todos)
    {
      todos := Deleted(todos, id);
      if WellFormed(old(todos)) {
        DeleteKeepsWellFormed(old(todos), id);
      }
    }

    /** The clear-completed button's handler. */
    method ClearCompleted()
      modifies this`todos
      ensures todos == Cleared(old(todos))
      ensures ActiveCount(todos) == |todos|
      ensures WellFormed(old(todos)) ==> WellFormed(todos)
    {
      todos := Cleared(todos);
      ClearThenAllActive(old(todos));
      if WellFormed(old(todos)) {
        ClearKeepsWellFormed(old(todos));
      }
    }

    /** `finish(save)` of an edit of task `id` whose edit box holds `value`. */
    method CommitEdit(id: Id, value: string, save: bool)
      modifies this`todos
      ensures todos == Edited(old(todos), id, value, save)
      ensures WellFormed(old(todos)) ==> WellFormed(todos)
    {
      var newText := Trim(value);
      if save && newText != [] {
        var list := todos;
        todos := seq(|list|, i requires 0 <= i < |list| => RenamedOne(list[i], id, newText));
      }
      if WellFormed(old(todos)) {
        EditKeepsWellFormed(old(todos), id, value, save);
      }
    }

    /** A filter button's handler. */
    method SetFilter(mode: string)
      modifies this`currentFilter
      ensures currentFilter == mode
    {
      currentFilter := mode;
    }

    /**
      `getVisibleTodos()`: the tasks of the current filter, the dated ones
      first by due day, then the undated ones newest first. The two groups
      are copied into arrays and sorted in place, as `Array.prototype.sort`
      does.
     */
    method VisibleTodos() returns (visible: seq<Todo>)
      ensures visible == Visible(todos, currentFilter)
      ensures multiset(visible) == multiset(Select(todos, currentFilter))
    {
      var filtered := todos;
      if currentFilter == "active" {
        filtered := Filter(todos, IsActive);
      }
      if currentFilter == "completed" {
        filtered := Filter(todos, IsCompleted);
      }
      var dated := Filter(filtered, HasDue);
      var undated := Filter(filtered, NoDue);
      var withDue := new Todo[|dated|](i requires 0 <= i < |dated| => dated[i]);
      var withoutDue := new Todo[|undated|](i requires 0 <= i < |undated| => undated[i]);
      assert withDue[..] == dated;
      assert withoutDue[..] == undated;
      InsertionSort(withDue, DueDay);
      InsertionSort(withoutDue, Recency);
      visible := withDue[..] + withoutDue[..];
      VisiblePermutesSelection(todos, currentFilter);
    }

    /**
      What `render` computes: the visible list and the counter text, whose
      count is taken from the whole list and not from the visible one.
     */
    method Render() returns (visible: seq<Todo>, counter: string)
      ensures visible == Visible(todos, currentFilter)
      ensures counter == ItemsLeftLabel(ActiveCount(todos))
      ensures ParseDecimal(LeadingDigits(counter)) == |Visible(todos, "active")|
    {
      visible := VisibleTodos();
      var activeCount := |Filter(todos, IsActive)|;
      counter := ItemsLeftLabel(activeCount);
      ItemsLeftLabelShowsCount(activeCount);
      ActiveCountFromWholeList(todos, currentFilter);
    }
  }
}
