/** The read-only views the application derives from the task list: the list
    shown under the current filter, and the count of items left. */
module Views {
  import opened Seqs
  import opened Todos

  /** The three filter buttons. */
  datatype Visibility = All | Active | Completed

  /** Whether a todo is shown under a filter. */
  predicate Shows(v: Visibility, t: Todo)
  {
    match v
    case Active => !t.completed
    case Completed => t.completed
    case All => true
  }

  /** `filteredTodos`: the todos shown under `v`, as a subsequence of the list that
      keeps every occurrence of a shown todo. `All` shows the list as it is. */
  function FilteredTodos(state: seq<Todo>, v: Visibility): (r: seq<Todo>)
    ensures forall t :: t in r ==> t in state && Shows(v, t)
    ensures forall t :: multiset(r)[t] == if Shows(v, t) then multiset(state)[t] else 0
    ensures IsSubsequence(r, state)
    ensures v == All ==> r == state
  {
    var shown := (t: Todo) => Shows(v, t);
    FilterMultiset(state, shown);
    FilterIsSubsequence(state, shown);
    if v == All then
      FilterKeepsAll(state, shown);
      Filter(state, shown)
    else
      Filter(state, shown)
  }

  /** The view of a list with one more todo at the front. */
  lemma FilteredTodosCons(t: Todo, state: seq<Todo>, v: Visibility)
    ensures FilteredTodos([t] + state, v) == (if Shows(v, t) then [t] else []) + FilteredTodos(state, v)
  {
    assert ([t] + state)[1..] == state;
  }

  /** `itemsLeft`: the number of open todos in the whole, unfiltered list. */
  function ItemsLeft(state: seq<Todo>): (n: nat)
    ensures n == |FilteredTodos(state, Active)|
    ensures n + |FilteredTodos(state, Completed)| == |state|
  {
    FilterAgreeing(state, IsOpen, (t: Todo) => Shows(Active, t));
    FilterComplementLength(state, IsOpen, (t: Todo) => Shows(Completed, t));
    |Filter(state, IsOpen)|
  }

  /** The active and completed views partition the list: their lengths add up to
      the list's, no todo is in both, and together they hold every todo the list
      holds, as often as it holds it. */
  lemma ActiveCompletedPartition(state: seq<Todo>)
    ensures |FilteredTodos(state, Active)| + |FilteredTodos(state, Completed)| == |state|
    ensures forall t :: !(t in FilteredTodos(state, Active) && t in FilteredTodos(state, Completed))
    ensures multiset(FilteredTodos(state, Active)) + multiset(FilteredTodos(state, Completed)) == multiset(state)
  {
    var a, c := FilteredTodos(state, Active), FilteredTodos(state, Completed);
    assert multiset(a) + multiset(c) == multiset(state) by {
      forall t ensures (multiset(a) + multiset(c))[t] == multiset(state)[t] {
      }
    }
    var n := ItemsLeft(state);
  }

  /** After CLEAR_COMPLETED the list is what the active view showed before it. */
  lemma ClearCompletedIsActiveView(state: seq<Todo>)
    ensures Reduce(state, ClearCompleted) == FilteredTodos(state, Active)
  {
    FilterAgreeing(state, IsOpen, (t: Todo) => Shows(Active, t));
  }

  /** After CLEAR_COMPLETED the completed view is empty. */
  lemma ClearCompletedEmptiesCompletedView(state: seq<Todo>)
    ensures FilteredTodos(Reduce(state, ClearCompleted), Completed) == []
  {
    var r := RemoveCompleted(state);
    assert forall i :: 0 <= i < |r| ==> r[i] in r;
    FilterKeepsNone(r, (t: Todo) => Shows(Completed, t));
  }

  /** An add leaves one more item. */
  lemma ItemsLeftAfterAdd(state: seq<Todo>, text: string)
    ensures ItemsLeft(Reduce(state, AddTodo(text))) == ItemsLeft(state) + 1
  {
    FilterAppend(state, [Todo(|state| + 1, text, false)], IsOpen);
  }

  /** CLEAR_COMPLETED removes no open item. */
  lemma ItemsLeftAfterClearCompleted(state: seq<Todo>)
    ensures ItemsLeft(Reduce(state, ClearCompleted)) == ItemsLeft(state)
  {
    FilterIdempotent(state, IsOpen);
  }

  /** Editing a text never changes the count of items left. */
  lemma ItemsLeftAfterUpdate(state: seq<Todo>, id: int, text: string)
    ensures ItemsLeft(Reduce(state, UpdateTodo(id, text))) == ItemsLeft(state)
  {
    FilterLengthPointwise(UpdateMatching(state, id, text), state, IsOpen);
  }
}
