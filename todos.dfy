/**
  The to-do list itself: the task record and the list transformations that the
  page's handlers perform on the module-level `todos` array (add, toggle,
  delete, clear-completed, commit of an edit), each given as a function from
  the old list to the new one, with the count of tasks left.
 */
module TodoList {
  import opened Wrappers
  import opened Seqs
  import opened Text

  /** Task ids are the strings `crypto.randomUUID` produces. */
  type Id = string

  /**
    One task. `due` is the optional due day (a day number standing for the
    `YYYY-MM-DD` string of the date input); `createdAt` is the `Date.now()`
    time stamp of its creation.
   */
  datatype Todo = Todo(id: Id, text: string, completed: bool, due: Option<int>, createdAt: int)

  predicate IsActive(t: Todo) { !t.completed }

  predicate IsCompleted(t: Todo) { t.completed }

  /** No two tasks of the list share an id. */
  ghost predicate UniqueIds(todos: seq<Todo>)
  {
    forall i, j :: 0 <= i < |todos| && 0 <= j < |todos| && todos[i].id == todos[j].id ==> i == j
  }

  /** `id` is not used by any task of the list. */
  ghost predicate FreshId(todos: seq<Todo>, id: Id)
  {
    forall i :: 0 <= i < |todos| ==> todos[i].id != id
  }

  /** A stored text is never empty and carries no leading or trailing white space. */
  ghost predicate ValidText(text: string)
  {
    text != [] && Trim(text) == text
  }

  /** The invariant every handler keeps: unique ids and valid texts. */
  ghost predicate WellFormed(todos: seq<Todo>)
  {
    UniqueIds(todos) && forall i :: 0 <= i < |todos| ==> ValidText(todos[i].text)
  }

  // ---------------------------------------------------------------- add

  /**
    The form's submit handler: the input is trimmed; an empty result is
    rejected, anything else becomes a new incomplete task put at the front.
    `due` is `None` when the date input was empty; `id` and `now` are the
    values of `crypto.randomUUID()` and `Date.now()`.
   */
  function Added(todos: seq<Todo>, text: string, due: Option<int>, id: Id, now: int): (r: seq<Todo>)
  {
    var t := Trim(text);
    if t == [] then todos else [Todo(id, t, false, due, now)] + todos
  }

  /** A text made only of white space (the empty text included) adds nothing. */
  lemma AddBlankIsNoOp(todos: seq<Todo>, text: string, due: Option<int>, id: Id, now: int)
    requires AllWhiteSpace(text)
    ensures Added(todos, text, due, id, now) == todos
  {
    TrimEmptyIff(text);
  }

  /**
    Any other text adds exactly one task, in front of the unchanged old list:
    its text is the trimmed input, it is not completed and it carries the
    given id, due day and creation time.
   */
  lemma AddPrepends(todos: seq<Todo>, text: string, due: Option<int>, id: Id, now: int)
    requires !AllWhiteSpace(text)
    ensures var r := Added(todos, text, due, id, now);
      && |r| == |todos| + 1 && r[1..] == todos
      && r[0] == Todo(id, Trim(text), false, due, now)
      && ValidText(r[0].text)
  {
    TrimEmptyIff(text);
    TrimIdempotent(text);
  }

  /** Adding under a fresh id keeps the list well formed. */
  lemma AddKeepsWellFormed(todos: seq<Todo>, text: string, due: Option<int>, id: Id, now: int)
    requires WellFormed(todos) && FreshId(todos, id)
    ensures WellFormed(Added(todos, text, due, id, now))
  {
    var t := Trim(text);
    if t != [] {
      var r := [Todo(id, t, false, due, now)] + todos;
      TrimIdempotent(text);
      assert forall i :: 1 <= i < |r| ==> r[i] == todos[i - 1];
      forall i | 0 <= i < |r| ensures ValidText(r[i].text) {
        if i > 0 { assert r[i].text == todos[i - 1].text; }
      }
      forall i, j | 0 <= i < |r| && 0 <= j < |r| && r[i].id == r[j].id ensures i == j {
        if i > 0 && j > 0 { assert todos[i - 1].id == todos[j - 1].id; }
      }
    }
  }

  /** One submission of the form. */
  datatype Submission = Submission(text: string, due: Option<int>, id: Id, now: int)

  /** The list after the submissions `subs`, in the order they were made. */
  function AddedAll(todos: seq<Todo>, subs: seq<Submission>): (r: seq<Todo>)
    decreases |subs|
  {
    if subs == [] then todos
    else
      var s := subs[|subs| - 1];
      Added(AddedAll(todos, subs[..|subs| - 1]), s.text, s.due, s.id, s.now)
  }

  /** The number of submissions whose text is not all white space. */
  function NonBlankCount(subs: seq<Submission>): (n: nat)
    decreases |subs|
  {
    if subs == [] then 0
    else NonBlankCount(subs[..|subs| - 1]) + if AllWhiteSpace(subs[|subs| - 1].text) then 0 else 1
  }

  /** After a run of submissions the list has grown by the number of non-blank ones. */
  lemma {:induction false} AddedAllLength(todos: seq<Todo>, subs: seq<Submission>)
    ensures |AddedAll(todos, subs)| == |todos| + NonBlankCount(subs)
    decreases |subs|
  {
    if subs != [] {
      var s := subs[|subs| - 1];
      var prev := AddedAll(todos, subs[..|subs| - 1]);
      AddedAllLength(todos, subs[..|subs| - 1]);
      if AllWhiteSpace(s.text) {
        AddBlankIsNoOp(prev, s.text, s.due, s.id, s.now);
      } else {
        AddPrepends(prev, s.text, s.due, s.id, s.now);
      }
    }
  }

  // ---------------------------------------------------------------- toggle

  /** `t` with its `completed` flag flipped when its id is `id`. */
  function ToggledOne(t: Todo, id: Id): (r: Todo)
  {
    if t.id == id then t.(completed := !t.completed) else t
  }

  /** `toggleTodo`: flips `completed` on the tasks whose id matches. */
  function Toggled(todos: seq<Todo>, id: Id): (r: seq<Todo>)
    ensures |r| == |todos|
  {
    seq(|todos|, i requires 0 <= i < |todos| => ToggledOne(todos[i], id))
  }

  /**
    Toggling touches only the `completed` flag, and only of the matching tasks:
    position, id, text, due day and creation time are kept everywhere.
   */
  lemma ToggleOnlyFlips(todos: seq<Todo>, id: Id, i: nat)
    requires i < |todos|
    ensures var r := Toggled(todos, id);
      && r[i].id == todos[i].id && r[i].text == todos[i].text
      && r[i].due == todos[i].due && r[i].createdAt == todos[i].createdAt
      && (r[i].completed <==> (todos[i].completed != (todos[i].id == id)))
  {
  }

  /** Toggling the same id twice restores the list. */
  lemma ToggleTwice(todos: seq<Todo>, id: Id)
    ensures Toggled(Toggled(todos, id), id) == todos
  {
    var r := Toggled(Toggled(todos, id), id);
    forall i | 0 <= i < |todos| ensures r[i] == todos[i] {
      ToggleOnlyFlips(todos, id, i);
    }
  }

  /** An id that no task has: toggling it changes nothing. */
  lemma ToggleAbsent(todos: seq<Todo>, id: Id)
    requires FreshId(todos, id)
    ensures Toggled(todos, id) == todos
  {
  }

  lemma ToggleKeepsWellFormed(todos: seq<Todo>, id: Id)
    requires WellFormed(todos)
    ensures WellFormed(Toggled(todos, id))
  {
    var r := Toggled(todos, id);
    forall i | 0 <= i < |r| ensures r[i].id == todos[i].id && r[i].text == todos[i].text {
      ToggleOnlyFlips(todos, id, i);
    }
  }

  // ---------------------------------------------------------------- delete

  function HasOtherId(id: Id): (p: Todo -> bool)
  {
    (t: Todo) => t.id != id
  }

  /** `deleteTodo`: keeps the tasks whose id is not `id`. */
  function Deleted(todos: seq<Todo>, id: Id): (r: seq<Todo>)
  {
    Filter(todos, HasOtherId(id))
  }

  /**
    Deleting removes every task with the id and keeps every other task, as
    many times as it occurs, in its original relative order.
   */
  lemma DeleteRemovesExactly(todos: seq<Todo>, id: Id)
    ensures var r := Deleted(todos, id);
      && (forall t :: t in r <==> t in todos && t.id != id)
      && (forall t :: multiset(r)[t] == if t.id == id then 0 else multiset(todos)[t])
      && SubsequenceOf(r, todos)
  {
    FilterMembers(todos, HasOtherId(id));
    forall t ensures multiset(Deleted(todos, id))[t] == if t.id == id then 0 else multiset(todos)[t] {
      FilterMultiset(todos, HasOtherId(id), t);
    }
    FilterIsSubsequence(todos, HasOtherId(id));
  }

  /** When ids are unique, deleting the id of the task at `k` removes that one task. */
  lemma DeleteOne(todos: seq<Todo>, k: nat)
    requires UniqueIds(todos) && k < |todos|
    ensures Deleted(todos, todos[k].id) == todos[..k] + todos[k + 1..]
  {
    var id := todos[k].id;
    var p := HasOtherId(id);
    assert todos == todos[..k] + ([todos[k]] + todos[k + 1..]);
    FilterConcat(todos[..k], [todos[k]] + todos[k + 1..], p);
    FilterConcat([todos[k]], todos[k + 1..], p);
    FilterKeepsAll(todos[..k], p);
    FilterKeepsAll(todos[k + 1..], p);
  }

  /** A second delete of the same id is a no-op. */
  lemma DeleteTwice(todos: seq<Todo>, id: Id)
    ensures Deleted(Deleted(todos, id), id) == Deleted(todos, id)
  {
    FilterIdempotent(todos, HasOtherId(id));
  }

  /** An id that no task has: deleting it changes nothing. */
  lemma DeleteAbsent(todos: seq<Todo>, id: Id)
    requires FreshId(todos, id)
    ensures Deleted(todos, id) == todos
  {
    FilterKeepsAll(todos, HasOtherId(id));
  }

  /** Elements of a subsequence come from the sequence, at a position no earlier. */
  lemma {:induction false} SubsequenceMembers(r: seq<Todo>, s: seq<Todo>)
    requires SubsequenceOf(r, s)
    ensures forall i :: 0 <= i < |r| ==> r[i] in s
    decreases |s|
  {
    if r != [] {
      if r[0] == s[0] && SubsequenceOf(r[1..], s[1..]) {
        SubsequenceMembers(r[1..], s[1..]);
        assert forall i :: 1 <= i < |r| ==> r[i] == r[1..][i - 1];
      } else {
        SubsequenceMembers(r, s[1..]);
      }
    }
  }

  /** A subsequence of a list with unique ids has unique ids. */
  lemma {:induction false} SubsequenceUniqueIds(r: seq<Todo>, s: seq<Todo>)
    requires SubsequenceOf(r, s) && UniqueIds(s)
    ensures UniqueIds(r)
    decreases |s|
  {
    if r != [] {
      assert UniqueIds(s[1..]) by {
        forall i, j | 0 <= i < |s[1..]| && 0 <= j < |s[1..]| && s[1..][i].id == s[1..][j].id ensures i == j {
          assert s[i + 1].id == s[j + 1].id;
        }
      }
      if r[0] == s[0] && SubsequenceOf(r[1..], s[1..]) {
        SubsequenceUniqueIds(r[1..], s[1..]);
        SubsequenceMembers(r[1..], s[1..]);
        forall i | 1 <= i < |r| ensures r[i].id != r[0].id {
          assert r[i] == r[1..][i - 1];
          var k :| 0 <= k < |s[1..]| && s[1..][k] == r[i];
          assert s[k + 1] == r[i];
        }
      } else {
        SubsequenceUniqueIds(r, s[1..]);
      }
    }
  }

  /** A sub-list of a well-formed list is well formed. */
  lemma SubsequenceWellFormed(r: seq<Todo>, s: seq<Todo>)
    requires SubsequenceOf(r, s) && WellFormed(s)
    ensures WellFormed(r)
  {
    SubsequenceUniqueIds(r, s);
    SubsequenceMembers(r, s);
  }

  lemma DeleteKeepsWellFormed(todos: seq<Todo>, id: Id)
    requires WellFormed(todos)
    ensures WellFormed(Deleted(todos, id))
  {
    FilterIsSubsequence(todos, HasOtherId(id));
    SubsequenceWellFormed(Deleted(todos, id), todos);
  }

  // ---------------------------------------------------------------- clear completed

  /** The clear-completed handler: keeps the tasks that are not completed. */
  function Cleared(todos: seq<Todo>): (r: seq<Todo>)
  {
    Filter(todos, IsActive)
  }

  /** The count shown as "N items left": the tasks of the whole list that are not completed. */
  function ActiveCount(todos: seq<Todo>): (n: nat)
  {
    |Filter(todos, IsActive)|
  }

  /**
    Clearing leaves exactly the incomplete tasks, each as often as before, in
    their prior relative order.
   */
  lemma ClearKeepsExactlyActive(todos: seq<Todo>)
    ensures var r := Cleared(todos);
      && (forall t :: t in r <==> t in todos && !t.completed)
      && (forall t :: multiset(r)[t] == if t.completed then 0 else multiset(todos)[t])
      && SubsequenceOf(r, todos)
  {
    FilterMembers(todos, IsActive);
    forall t ensures multiset(Cleared(todos))[t] == if t.completed then 0 else multiset(todos)[t] {
      FilterMultiset(todos, IsActive, t);
    }
    FilterIsSubsequence(todos, IsActive);
  }

  /** Clearing twice is clearing once. */
  lemma ClearIdempotent(todos: seq<Todo>)
    ensures Cleared(Cleared(todos)) == Cleared(todos)
  {
    FilterIdempotent(todos, IsActive);
  }

  /** After clearing, every task left is active. */
  lemma ClearThenAllActive(todos: seq<Todo>)
    ensures ActiveCount(Cleared(todos)) == |Cleared(todos)|
  {
    FilterIdempotent(todos, IsActive);
  }

  /** The tasks left and the completed tasks together make up the list. */
  lemma ActiveCountComplement(todos: seq<Todo>)
    ensures ActiveCount(todos) == |todos| - |Filter(todos, IsCompleted)|
  {
    FilterSplit(todos, IsActive, IsCompleted);
  }

  lemma ClearKeepsWellFormed(todos: seq<Todo>)
    requires WellFormed(todos)
    ensures WellFormed(Cleared(todos))
  {
    FilterIsSubsequence(todos, IsActive);
    SubsequenceWellFormed(Cleared(todos), todos);
  }

  // ---------------------------------------------------------------- edit

  /** `t` with its text replaced by `text` when its id is `id`. */
  function RenamedOne(t: Todo, id: Id, text: string): (r: Todo)
  {
    if t.id == id then t.(text := text) else t
  }

  /**
    The `finish(save)` closure of an edit of task `id`: the edit box's value is
    trimmed; the text is replaced only when `save` holds and the trimmed value
    is not empty.
   */
  function Edited(todos: seq<Todo>, id: Id, value: string, save: bool): (r: seq<Todo>)
    ensures |r| == |todos|
  {
    var newText := Trim(value);
    if save && newText != [] then
      seq(|todos|, i requires 0 <= i < |todos| => RenamedOne(todos[i], id, newText))
    else
      todos
  }

  /** Escape (no save) and a blank value both leave the list as it was. */
  lemma EditDiscarded(todos: seq<Todo>, id: Id, value: string, save: bool)
    requires !save || AllWhiteSpace(value)
    ensures Edited(todos, id, value, save) == todos
  {
    TrimEmptyIff(value);
  }

  /**
    A saved, non-blank edit replaces the text of the matching tasks by the
    trimmed value and changes nothing else: positions, ids, flags, due days
    and creation times are kept, and other tasks are untouched.
   */
  lemma EditOnlyRenames(todos: seq<Todo>, id: Id, value: string, i: nat)
    requires !AllWhiteSpace(value) && i < |todos|
    ensures var r := Edited(todos, id, value, true);
      && r[i].id == todos[i].id && r[i].completed == todos[i].completed
      && r[i].due == todos[i].due && r[i].createdAt == todos[i].createdAt
      && r[i].text == (if todos[i].id == id then Trim(value) else todos[i].text)
  {
    TrimEmptyIff(value);
  }

  lemma EditKeepsWellFormed(todos: seq<Todo>, id: Id, value: string, save: bool)
    requires WellFormed(todos)
    ensures WellFormed(Edited(todos, id, value, save))
  {
    var newText := Trim(value);
    if save && newText != [] {
      var r := Edited(todos, id, value, save);
      TrimIdempotent(value);
      assert ValidText(newText);
      forall i | 0 <= i < |r| ensures ValidText(r[i].text) && r[i].id == todos[i].id {
        assert r[i] == RenamedOne(todos[i], id, newText);
      }
    }
  }
}
