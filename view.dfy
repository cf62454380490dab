/**
  What the page shows: `getVisibleTodos`, which selects the tasks of the
  current filter and orders them (tasks with a due day first, earliest day
  first; then the others, newest first), and the "N items left" label.
 */
module View {
  import opened Wrappers
  import opened Seqs
  import opened Text
  import opened TodoList
  import opened Sorting

  /** The filter step: "active" and "completed" select by flag; any other mode shows everything. */
  function Select(todos: seq<Todo>, mode: string): (r: seq<Todo>)
  {
    if mode == "active" then Filter(todos, IsActive)
    else if mode == "completed" then Filter(todos, IsCompleted)
    else todos
  }

  /** The tasks a mode leaves out: completed ones for "active", incomplete ones for "completed". */
  predicate ModeHides(mode: string, t: Todo)
  {
    (mode == "active" && t.completed) || (mode == "completed" && !t.completed)
  }

  /** JavaScript truthiness of `t.due`: a due date is present. */
  predicate HasDue(t: Todo) { t.due.Some? }

  predicate NoDue(t: Todo) { t.due.None? }

  /** The sort key of `new Date(a.due) - new Date(b.due)`: ascending due day. */
  function DueDay(t: Todo): (k: int)
  {
    match t.due
    case Some(d) => d
    case None => 0
  }

  /** The sort key of `b.createdAt - a.createdAt`: descending creation time. */
  function Recency(t: Todo): (k: int)
  {
    -t.createdAt
  }

  /** `getVisibleTodos` for the list `todos` and the filter `mode`. */
  function Visible(todos: seq<Todo>, mode: string): (r: seq<Todo>)
  {
    var filtered := Select(todos, mode);
    InsertionSorted(Filter(filtered, HasDue), DueDay) + InsertionSorted(Filter(filtered, NoDue), Recency)
  }

  /** The visible list's two groups: the sorted dated tasks, then the sorted undated ones. */
  function DatedPart(todos: seq<Todo>, mode: string): (r: seq<Todo>)
  {
    InsertionSorted(Filter(Select(todos, mode), HasDue), DueDay)
  }

  function UndatedPart(todos: seq<Todo>, mode: string): (r: seq<Todo>)
  {
    InsertionSorted(Filter(Select(todos, mode), NoDue), Recency)
  }

  /** A property every element of `s` has survives the sort. */
  lemma SortKeeps(s: seq<Todo>, key: Todo -> int, p: Todo -> bool)
    requires forall i :: 0 <= i < |s| ==> p(s[i])
    ensures forall i :: 0 <= i < |InsertionSorted(s, key)| ==> p(InsertionSorted(s, key)[i])
  {
    var r := InsertionSorted(s, key);
    SortedIsPermutation(s, key);
    forall i | 0 <= i < |r| ensures p(r[i]) {
      assert r[i] in multiset(s);
    }
  }

  /** The mode's selection, element by element: which tasks it drops, and that it keeps the rest in order. */
  lemma SelectContents(todos: seq<Todo>, mode: string)
    ensures forall t :: multiset(Select(todos, mode))[t] == if ModeHides(mode, t) then 0 else multiset(todos)[t]
    ensures SubsequenceOf(Select(todos, mode), todos)
  {
    forall t ensures multiset(Select(todos, mode))[t] == if ModeHides(mode, t) then 0 else multiset(todos)[t]
    {
      FilterMultiset(todos, IsActive, t);
      FilterMultiset(todos, IsCompleted, t);
    }
    FilterIsSubsequence(todos, IsActive);
    FilterIsSubsequence(todos, IsCompleted);
    SubsequenceOfSelf(todos);
  }

  lemma {:induction false} SubsequenceOfSelf(s: seq<Todo>)
    ensures SubsequenceOf(s, s)
    decreases |s|
  {
    if s != [] {
      SubsequenceOfSelf(s[1..]);
    }
  }

  /** The visible list is a permutation of the mode's selection. */
  lemma VisiblePermutesSelection(todos: seq<Todo>, mode: string)
    ensures multiset(Visible(todos, mode)) == multiset(Select(todos, mode))
  {
    var f := Select(todos, mode);
    SortedIsPermutation(Filter(f, HasDue), DueDay);
    SortedIsPermutation(Filter(f, NoDue), Recency);
    forall t ensures multiset(Visible(todos, mode))[t] == multiset(f)[t] {
      FilterMultiset(f, HasDue, t);
      FilterMultiset(f, NoDue, t);
    }
    assert multiset(Visible(todos, mode)) == multiset(f);
  }

  /**
    Exactly the tasks the mode admits are shown, each as often as it occurs:
    "active" hides the completed tasks, "completed" the incomplete ones, any
    other mode hides nothing.
   */
  lemma VisibleContents(todos: seq<Todo>, mode: string, t: Todo)
    ensures multiset(Visible(todos, mode))[t] == if ModeHides(mode, t) then 0 else multiset(todos)[t]
  {
    VisiblePermutesSelection(todos, mode);
    SelectContents(todos, mode);
  }

  /** Which group each position of the visible list belongs to. */
  lemma VisibleGroups(todos: seq<Todo>, mode: string)
    ensures var v, d := Visible(todos, mode), DatedPart(todos, mode);
      && v == d + UndatedPart(todos, mode)
      && (forall i :: 0 <= i < |d| ==> v[i].due.Some?)
      && (forall i :: |d| <= i < |v| ==> v[i].due.None?)
  {
    var f := Select(todos, mode);
    SortKeeps(Filter(f, HasDue), DueDay, HasDue);
    SortKeeps(Filter(f, NoDue), Recency, NoDue);
  }

  /** Every dated task precedes every undated task. */
  lemma DatedBeforeUndated(todos: seq<Todo>, mode: string)
    ensures var v := Visible(todos, mode);
      forall i, j :: 0 <= i < |v| && 0 <= j < |v| && v[i].due.Some? && v[j].due.None? ==> i < j
  {
    VisibleGroups(todos, mode);
  }

  /** Dated tasks appear in non-decreasing order of their due day. */
  lemma DatedAscending(todos: seq<Todo>, mode: string)
    ensures var v := Visible(todos, mode);
      forall i, j :: 0 <= i < j < |v| && v[j].due.Some? ==> v[i].due.Some? && v[i].due.value <= v[j].due.value
  {
    var v, d := Visible(todos, mode), DatedPart(todos, mode);
    VisibleGroups(todos, mode);
    SortedIsSorted(Filter(Select(todos, mode), HasDue), DueDay);
    forall i, j | 0 <= i < j < |v| && v[j].due.Some?
      ensures v[i].due.Some? && v[i].due.value <= v[j].due.value
    {
      assert v[i] == d[i] && v[j] == d[j];
    }
  }

  /** Undated tasks appear in non-increasing order of their creation time. */
  lemma UndatedNewestFirst(todos: seq<Todo>, mode: string)
    ensures var v := Visible(todos, mode);
      forall i, j :: 0 <= i < j < |v| && v[i].due.None? ==> v[j].due.None? && v[i].createdAt >= v[j].createdAt
  {
    var v, d, u := Visible(todos, mode), DatedPart(todos, mode), UndatedPart(todos, mode);
    VisibleGroups(todos, mode);
    SortedIsSorted(Filter(Select(todos, mode), NoDue), Recency);
    forall i, j | 0 <= i < j < |v| && v[i].due.None?
      ensures v[j].due.None? && v[i].createdAt >= v[j].createdAt
    {
      assert v[i] == u[i - |d|] && v[j] == u[j - |d|];
      assert Recency(u[i - |d|]) <= Recency(u[j - |d|]);
    }
  }

  function DueOn(day: int): (p: Todo -> bool)
  {
    (t: Todo) => t.due == Some(day)
  }

  function UndatedCreatedAt(time: int): (p: Todo -> bool)
  {
    (t: Todo) => t.due.None? && t.createdAt == time
  }

  /**
    Sorting a group by `key` keeps the relative order of the elements that
    `p` picks, when on the group `p` picks exactly one key value.
   */
  lemma GroupSortStable(s: seq<Todo>, key: Todo -> int, group: Todo -> bool, p: Todo -> bool, k: int)
    requires forall i :: 0 <= i < |s| ==> group(s[i])
    requires forall x :: group(x) ==> (p(x) <==> key(x) == k)
    ensures Filter(InsertionSorted(s, key), p) == Filter(s, p)
  {
    var q := KeyIs(key, k);
    var sorted := InsertionSorted(s, key);
    SortKeeps(s, key, group);
    forall i | 0 <= i < |sorted| ensures p(sorted[i]) == q(sorted[i]) {
      assert group(sorted[i]);
    }
    FilterAgree(sorted, p, q);
    SortedIsStable(s, key, k);
    FilterAgree(s, p, q);
  }

  /** Tasks due on the same day keep their relative order from the list. */
  lemma DatedTiesStable(todos: seq<Todo>, mode: string, day: int)
    ensures Filter(Visible(todos, mode), DueOn(day)) == Filter(Select(todos, mode), DueOn(day))
  {
    var f := Select(todos, mode);
    var p := DueOn(day);
    var u := UndatedPart(todos, mode);
    VisibleGroups(todos, mode);
    FilterConcat(DatedPart(todos, mode), u, p);
    SortKeeps(Filter(f, NoDue), Recency, NoDue);
    assert forall i :: 0 <= i < |u| ==> NoDue(u[i]);
    FilterDropsAll(u, p);
    assert forall x :: HasDue(x) ==> (p(x) <==> DueDay(x) == day);
    GroupSortStable(Filter(f, HasDue), DueDay, HasDue, p, day);
    FilterNarrow(f, HasDue, p);
  }

  /** Undated tasks created at the same time keep their relative order from the list. */
  lemma UndatedTiesStable(todos: seq<Todo>, mode: string, time: int)
    ensures Filter(Visible(todos, mode), UndatedCreatedAt(time)) == Filter(Select(todos, mode), UndatedCreatedAt(time))
  {
    var f := Select(todos, mode);
    var p := UndatedCreatedAt(time);
    var d := DatedPart(todos, mode);
    VisibleGroups(todos, mode);
    FilterConcat(d, UndatedPart(todos, mode), p);
    SortKeeps(Filter(f, HasDue), DueDay, HasDue);
    assert forall i :: 0 <= i < |d| ==> HasDue(d[i]);
    FilterDropsAll(d, p);
    assert forall x :: NoDue(x) ==> (p(x) <==> Recency(x) == -time);
    GroupSortStable(Filter(f, NoDue), Recency, NoDue, p, -time);
    FilterNarrow(f, NoDue, p);
  }

  /**
    The count of tasks left is taken from the whole list, whatever the filter:
    it is the length of the "active" view, and the "all" view is the tasks
    left plus the "completed" view.
   */
  lemma ActiveCountFromWholeList(todos: seq<Todo>, mode: string)
    ensures ActiveCount(todos) == |Visible(todos, "active")|
    ensures |Visible(todos, mode)| == |Select(todos, mode)|
    ensures |Visible(todos, "all")| == ActiveCount(todos) + |Visible(todos, "completed")|
  {
    VisiblePermutesSelection(todos, "active");
    VisiblePermutesSelection(todos, "completed");
    VisiblePermutesSelection(todos, "all");
    VisiblePermutesSelection(todos, mode);
    assert |multiset(Visible(todos, mode))| == |Visible(todos, mode)|;
    assert |multiset(Select(todos, mode))| == |Select(todos, mode)|;
    assert |multiset(Visible(todos, "active"))| == |Visible(todos, "active")|;
    assert |multiset(Select(todos, "active"))| == |Select(todos, "active")|;
    assert |multiset(Visible(todos, "all"))| == |Visible(todos, "all")|;
    assert |multiset(Visible(todos, "completed"))| == |Visible(todos, "completed")|;
    assert |multiset(Select(todos, "completed"))| == |Select(todos, "completed")|;
    FilterSplit(todos, IsActive, IsCompleted);
  }

  // ---------------------------------------------------------------- the count label

  /** The text of the counter: `${n} item${n === 1 ? "" : "s"} left`. */
  function ItemsLeftLabel(n: nat): (r: string)
  {
    NatToString(n) + " item" + (if n == 1 then "" else "s") + " left"
  }

  /** The longest prefix of `s` made of decimal digits. */
  function LeadingDigits(s: string): (r: string)
    decreases |s|
  {
    if s != [] && '0' <= s[0] <= '9' then [s[0]] + LeadingDigits(s[1..]) else []
  }

  lemma {:induction false} LeadingDigitsOf(digits: string, rest: string)
    requires forall i :: 0 <= i < |digits| ==> '0' <= digits[i] <= '9'
    requires rest != [] && !('0' <= rest[0] <= '9')
    ensures LeadingDigits(digits + rest) == digits
    decreases |digits|
  {
    if digits != [] {
      assert (digits + rest)[1..] == digits[1..] + rest;
      LeadingDigitsOf(digits[1..], rest);
    }
  }

  /** The counter shows the count: its leading digits read back as `n`. */
  lemma ItemsLeftLabelShowsCount(n: nat)
    ensures ParseDecimal(LeadingDigits(ItemsLeftLabel(n))) == n
  {
    var digits := NatToString(n);
    var rest := " item" + (if n == 1 then "" else "s") + " left";
    assert ItemsLeftLabel(n) == digits + rest;
    LeadingDigitsOf(digits, rest);
    ParseNatToString(n);
  }

  /** The word is plural ("items") exactly when the count is not 1. */
  lemma ItemsLeftLabelPlural(n: nat)
    ensures var l := ItemsLeftLabel(n);
      |l| >= 10 && (l[|l| - 10..] == "items left" <==> n != 1)
  {
    var digits := NatToString(n);
    var l := ItemsLeftLabel(n);
    if n == 1 {
      assert l == digits + " item left";
      assert l[|l| - 6] == 'm';
      assert l[|l| - 10..][4] == l[|l| - 6];
    } else {
      assert l == digits + " items left";
      assert l[|l| - 10..] == "items left";
    }
  }

  /** A worked ordering: B(due 5), A(due 10), then D(created 200), C(created 100). */
  lemma ExampleOrdering()
    ensures var a := Todo("a", "A", false, Some(10), 1);
      var b := Todo("b", "B", false, Some(5), 2);
      var c := Todo("c", "C", false, None, 100);
      var d := Todo("d", "D", false, None, 200);
      Visible([a, b, c, d], "all") == [b, a, d, c]
  {
    var a := Todo("a", "A", false, Some(10), 1);
    var b := Todo("b", "B", false, Some(5), 2);
    var c := Todo("c", "C", false, None, 100);
    var d := Todo("d", "D", false, None, 200);
    assert Select([a, b, c, d], "all") == [a, b, c, d];
    ExampleGroups(a, b, c, d);
    SortTwo(a, b, DueDay);
    SortTwo(c, d, Recency);
  }

  lemma ExampleGroups(a: Todo, b: Todo, c: Todo, d: Todo)
    requires a.due.Some? && b.due.Some? && c.due.None? && d.due.None?
    ensures Filter([a, b, c, d], HasDue) == [a, b]
    ensures Filter([a, b, c, d], NoDue) == [c, d]
  {
    assert [a, b, c, d][1..] == [b, c, d];
    assert [b, c, d][1..] == [c, d];
    assert [c, d][1..] == [d];
    assert [d][1..] == [];
    assert Filter([d], HasDue) == [] && Filter([d], NoDue) == [d];
    assert Filter([c, d], HasDue) == [] && Filter([c, d], NoDue) == [c, d];
    assert Filter([b, c, d], HasDue) == [b] && Filter([b, c, d], NoDue) == [c, d];
  }

  /** Two elements out of key order are swapped. */
  lemma SortTwo(x: Todo, y: Todo, key: Todo -> int)
    requires key(x) > key(y)
    ensures InsertionSorted([x, y], key) == [y, x]
  {
    assert [x, y][..1] == [x] && [x][..0] == [];
    assert InsertionSorted([x], key) == Insert([], x, key) == [x];
    assert Insert([x], y, key) == Insert([], y, key) + [x] == [y, x];
  }
}
