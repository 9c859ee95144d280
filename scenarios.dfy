/** Runs of several dispatches, as the application's reducer hook applies them
    one after the other, and concrete runs that show how the reducer behaves. */
module Scenarios {
  import opened Todos
  import opened Views
  import opened AddForm

  /** The list after dispatching `actions` in order, starting from `state`. */
  function Run(state: seq<Todo>, actions: seq<Action>): (r: seq<Todo>)
    decreases |actions|
  {
    if actions == [] then state else Run(Reduce(state, actions[0]), actions[1..])
  }

  /** Dispatching one more action is reducing the result of the earlier ones. */
  lemma {:induction false} RunSnoc(state: seq<Todo>, actions: seq<Action>, a: Action)
    ensures Run(state, actions + [a]) == Reduce(Run(state, actions), a)
    decreases |actions|
  {
    if actions == [] {
      assert [a][1..] == [];
    } else {
      assert (actions + [a])[1..] == actions[1..] + [a];
      RunSnoc(Reduce(state, actions[0]), actions[1..], a);
    }
  }

  /** Ids are not unique: add, add, delete id 1, add leaves two todos with id 2. */
  lemma IdCollision()
    ensures Run([], [AddTodo("a"), AddTodo("b"), DeleteTodo(1), AddTodo("c")])
         == [Todo(2, "b", false), Todo(2, "c", false)]
  {
  }

  /** Two adds and a toggle: the first todo is completed. */
  lemma AddAddToggle()
    ensures Run([], [AddTodo("buy milk"), AddTodo("wash car"), ToggleTodo(1)])
         == [Todo(1, "buy milk", true), Todo(2, "wash car", false)]
  {
  }

  /** On that list the active view holds only the second todo. */
  lemma AddAddToggleView()
    ensures FilteredTodos([Todo(1, "buy milk", true), Todo(2, "wash car", false)], Active)
         == [Todo(2, "wash car", false)]
  {
    ClearCompletedIsActiveView([Todo(1, "buy milk", true), Todo(2, "wash car", false)]);
  }

  /** On that list one item is left. */
  lemma AddAddToggleItemsLeft()
    ensures ItemsLeft([Todo(1, "buy milk", true), Todo(2, "wash car", false)]) == 1
  {
  }

  /** Loading a list of completed todos and clearing the completed ones leaves nothing. */
  lemma LoadThenClear()
    ensures Run([Todo(7, "old", false)], [LoadTodos([Todo(5, "x", true)]), ClearCompleted]) == []
  {
  }

  /** Submitting a blank input adds nothing; submitting " milk " adds that text untrimmed. */
  lemma SubmitScenarios()
    ensures HandleAddTodo(Form([], " \t ")) == Form([], " \t ")
    ensures HandleAddTodo(Form([], " milk ")) == Form([Todo(1, " milk ", false)], "")
  {
    assert IsBlank(" \t ");
    assert " milk "[1] == 'm' && !IsWhitespace('m');
  }
}
