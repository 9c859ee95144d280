/** The task list of the todo application and its reducer: a pure function
    from the current list and a dispatched action to the next list. */
module Todos {
  import opened Seqs

  /** One to-do item. Ids are plain integers and nothing keeps them unique. */
  datatype Todo = Todo(id: int, text: string, completed: bool)

  /** The six actions the reducer knows, plus any other action object, which the
      reducer's default branch answers with the unchanged list. */
  datatype Action =
    | AddTodo(text: string)
    | ToggleTodo(id: int)
    | DeleteTodo(id: int)
    | UpdateTodo(id: int, text: string)
    | ClearCompleted
    | LoadTodos(todos: seq<Todo>)
    | Unrecognized(tag: string)

  /** The set of ids carried by the todos of a list. */
  function Ids(s: seq<Todo>): set<int>
  {
    set t | t in s :: t.id
  }

  /** ADD_TODO: the old list, then one new open todo whose id is the old length plus one. */
  function Append(state: seq<Todo>, text: string): (r: seq<Todo>)
    ensures |r| == |state| + 1
    ensures r[..|state|] == state
    ensures r[|state|] == Todo(|state| + 1, text, false)
  {
    state + [Todo(|state| + 1, text, false)]
  }

  /** The per-todo step of TOGGLE_TODO. */
  function Flip(id: int, t: Todo): Todo
  {
    if t.id == id then t.(completed := !t.completed) else t
  }

  /** TOGGLE_TODO: flips `completed` on every todo whose id matches; ids, texts,
      order and length are kept. */
  function ToggleMatching(state: seq<Todo>, id: int): (r: seq<Todo>)
    ensures |r| == |state|
    ensures forall i :: 0 <= i < |r| ==>
      && r[i].id == state[i].id
      && r[i].text == state[i].text
      && r[i].completed == (if state[i].id == id then !state[i].completed else state[i].completed)
  {
    Map(state, (t: Todo) => Flip(id, t))
  }

  /** DELETE_TODO: the todos whose id differs from `id`, in their original order. */
  function DeleteMatching(state: seq<Todo>, id: int): (r: seq<Todo>)
    ensures forall t :: t in r ==> t in state && t.id != id
    ensures forall t :: multiset(r)[t] == if t.id != id then multiset(state)[t] else 0
    ensures IsSubsequence(r, state)
    ensures id !in Ids(state) ==> r == state
  {
    var keep := (t: Todo) => t.id != id;
    FilterMultiset(state, keep);
    FilterIsSubsequence(state, keep);
    if id !in Ids(state) then
      assert forall i :: 0 <= i < |state| ==> state[i] in state;
      FilterKeepsAll(state, keep);
      Filter(state, keep)
    else
      Filter(state, keep)
  }

  /** The per-todo step of UPDATE_TODO. */
  function Retext(id: int, text: string, t: Todo): Todo
  {
    if t.id == id then t.(text := text) else t
  }

  /** UPDATE_TODO: every todo whose id matches gets `text` (which may be empty);
      ids, completion flags, order and length are kept. */
  function UpdateMatching(state: seq<Todo>, id: int, text: string): (r: seq<Todo>)
    ensures |r| == |state|
    ensures forall i :: 0 <= i < |r| ==>
      && r[i].id == state[i].id
      && r[i].completed == state[i].completed
      && r[i].text == (if state[i].id == id then text else state[i].text)
  {
    Map(state, (t: Todo) => Retext(id, text, t))
  }

  /** `!todo.completed`: what CLEAR_COMPLETED keeps and what `itemsLeft` counts. */
  predicate IsOpen(t: Todo)
  {
    !t.completed
  }

  /** CLEAR_COMPLETED: the todos not yet completed, in their original order. */
  function RemoveCompleted(state: seq<Todo>): (r: seq<Todo>)
    ensures forall t :: t in r ==> t in state && !t.completed
    ensures forall t :: multiset(r)[t] == if !t.completed then multiset(state)[t] else 0
    ensures IsSubsequence(r, state)
  {
    FilterMultiset(state, IsOpen);
    FilterIsSubsequence(state, IsOpen);
    Filter(state, IsOpen)
  }

  /** The reducer. LOAD_TODOS replaces the list, an unrecognised action keeps it,
      ADD_TODO lengthens it by one and no other action lengthens it. */
  function Reduce(state: seq<Todo>, action: Action): (r: seq<Todo>)
    ensures action.LoadTodos? ==> r == action.todos
    ensures action.Unrecognized? ==> r == state
    ensures action.AddTodo? ==> |r| == |state| + 1
    ensures !action.AddTodo? && !action.LoadTodos? ==> |r| <= |state|
  {
    match action
    case AddTodo(text) => Append(state, text)
    case ToggleTodo(id) => ToggleMatching(state, id)
    case DeleteTodo(id) => DeleteMatching(state, id)
    case UpdateTodo(id, text) => UpdateMatching(state, id, text)
    case ClearCompleted => RemoveCompleted(state)
    case LoadTodos(todos) => todos
    case Unrecognized(_) => state
  }

  /** Only ADD_TODO and LOAD_TODOS can bring in an id the list did not already
      carry, and ADD_TODO brings in exactly the old length plus one. */
  lemma ReduceIds(state: seq<Todo>, action: Action)
    ensures action.AddTodo? ==> Ids(Reduce(state, action)) == Ids(state) + {|state| + 1}
    ensures !action.AddTodo? && !action.LoadTodos? ==> Ids(Reduce(state, action)) <= Ids(state)
  {
    var r := Reduce(state, action);
    match action
    case AddTodo(text) =>
      assert r == state + [r[|state|]];
    case ToggleTodo(id) =>
      forall t | t in r ensures t.id in Ids(state) {
        var i :| 0 <= i < |r| && r[i] == t;
        assert state[i] in state;
      }
    case UpdateTodo(id, text) =>
      forall t | t in r ensures t.id in Ids(state) {
        var i :| 0 <= i < |r| && r[i] == t;
        assert state[i] in state;
      }
    case _ =>
  }

  /** Toggling the same id twice gives back the original list, whether or not the id occurs. */
  lemma ToggleTwice(state: seq<Todo>, id: int)
    ensures Reduce(Reduce(state, ToggleTodo(id)), ToggleTodo(id)) == state
  {
    var r := ToggleMatching(ToggleMatching(state, id), id);
    assert forall i :: 0 <= i < |r| ==> r[i] == state[i];
  }

  /** Toggling an id that no todo carries leaves the list as it was. */
  lemma ToggleAbsent(state: seq<Todo>, id: int)
    requires id !in Ids(state)
    ensures Reduce(state, ToggleTodo(id)) == state
  {
    var r := ToggleMatching(state, id);
    forall i | 0 <= i < |r| ensures r[i] == state[i] {
      assert state[i] in state;
    }
  }

  /** Updating an id that no todo carries leaves the list as it was. */
  lemma UpdateAbsent(state: seq<Todo>, id: int, text: string)
    requires id !in Ids(state)
    ensures Reduce(state, UpdateTodo(id, text)) == state
  {
    var r := UpdateMatching(state, id, text);
    forall i | 0 <= i < |r| ensures r[i] == state[i] {
      assert state[i] in state;
    }
  }

  /** Repeating an update changes nothing more. */
  lemma UpdateIdempotent(state: seq<Todo>, id: int, text: string)
    ensures var once := Reduce(state, UpdateTodo(id, text));
            Reduce(once, UpdateTodo(id, text)) == once
  {
    var once := UpdateMatching(state, id, text);
    var twice := UpdateMatching(once, id, text);
    assert forall i :: 0 <= i < |twice| ==> twice[i] == once[i];
  }

  /** Deleting leaves no todo with the deleted id; deleting again changes nothing. */
  lemma DeleteIdempotent(state: seq<Todo>, id: int)
    ensures id !in Ids(Reduce(state, DeleteTodo(id)))
    ensures var once := Reduce(state, DeleteTodo(id));
            Reduce(once, DeleteTodo(id)) == once
  {
    var once := DeleteMatching(state, id);
    assert id !in Ids(once);
  }

  /** CLEAR_COMPLETED applied twice equals applied once. */
  lemma ClearCompletedIdempotent(state: seq<Todo>)
    ensures var once := Reduce(state, ClearCompleted);
            Reduce(once, ClearCompleted) == once
  {
    FilterIdempotent(state, IsOpen);
  }

  /** Adding and then deleting the id just assigned restores the old list exactly
      when no todo of the old list already carried that id; otherwise the delete
      also removes the older todos with that id. */
  lemma AddThenDelete(state: seq<Todo>, text: string)
    ensures var added := Reduce(state, AddTodo(text));
            Reduce(added, DeleteTodo(|state| + 1)) == state <==> |state| + 1 !in Ids(state)
  {
    var id := |state| + 1;
    var keep := (t: Todo) => t.id != id;
    var created := Todo(id, text, false);
    FilterAppend(state, [created], keep);
    assert Filter([created], keep) == [];
    var r := Filter(state, keep);
    if id !in Ids(state) {
      assert forall i :: 0 <= i < |state| ==> state[i] in state;
      FilterKeepsAll(state, keep);
    } else {
      var t :| t in state && t.id == id;
      assert t !in r;
    }
  }

  /** When only the todo at position `k` carries its id, deleting that id removes
      just that todo. */
  lemma DeleteOnlyMatch(state: seq<Todo>, k: nat)
    requires k < |state|
    requires forall j :: 0 <= j < |state| && j != k ==> state[j].id != state[k].id
    ensures Reduce(state, DeleteTodo(state[k].id)) == state[..k] + state[k + 1..]
  {
    FilterDropsOne(state, k, (t: Todo) => t.id != state[k].id);
  }

  /** Ids are assigned from the length: after deleting one todo other than the
      last from a list whose last todo has id equal to the length, the next add
      gives the new todo the same id as the old last one. */
  lemma DeleteThenAddRepeatsId(state: seq<Todo>, k: nat, text: string)
    requires k < |state| - 1
    requires state[|state| - 1].id == |state|
    requires forall j :: 0 <= j < |state| && j != k ==> state[j].id != state[k].id
    ensures var r := Reduce(Reduce(state, DeleteTodo(state[k].id)), AddTodo(text));
            |r| == |state| && r[|r| - 2].id == |state| && r[|r| - 1].id == |state|
  {
    DeleteOnlyMatch(state, k);
    RemoveAtKeepsLast(state, k);
  }
}
