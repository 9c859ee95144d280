# Todo list reducer: a Dafny model

This project models the state logic of a browser todo-list application (a React
component in `src/App.tsx`). The task list is a sequence of `Todo` records
`{id, text, completed}`. A pure reducer maps the current list and a dispatched
action to the next list. It handles six actions: add, toggle, delete, update,
clear-completed and load. Any other action falls to a `default` branch that
returns the list unchanged. The component derives two views from the list: the
list shown under the `all` / `active` / `completed` filter, and the number of
items left. Its submit handler dispatches an add only for an input that is not
blank after `trim()`.

Everything in the core is a pure transformation of a sequence, so the model is
functional: datatypes, functions over `seq<Todo>`, and lemmas.

- `seqs.dfy`, module `Seqs`: `Map` and `Filter` with the meaning of
  `Array.prototype.map` and `Array.prototype.filter`. The module also defines
  subsequences (`IsSubsequence`, through an explicit increasing index list) and
  proves the facts the reducer needs. Filter keeps exactly the positions whose
  element passes, in order. It keeps every copy of a passing element. It
  distributes over concatenation and is idempotent.
- `todos.dfy`, module `Todos`: the `Todo` and `Action` datatypes, one function
  per reducer case, the reducer `Reduce`, and lemmas relating the actions.
- `views.dfy`, module `Views`: `FilteredTodos`, `ItemsLeft` and the partition
  and counting lemmas.
- `add_form.dfy`, module `AddForm`: `trim` and the submit handler `handleAddTodo`.
- `scenarios.dfy`, module `Scenarios`: `Run` dispatches a sequence of actions in
  order, as the reducer hook does. Concrete runs show the reducer's behaviour,
  including the id collision.

Two points where the model follows the code rather than the design
description:

- **Ids are not unique.** The design text says no two tasks share an id. The
  code assigns `state.length + 1` on add, so after a delete a new todo can get
  the id of an existing one. The model assumes nothing about uniqueness.
  `Scenarios.IdCollision` shows add, add, delete 1, add ending with two todos
  with id 2. `Todos.DeleteThenAddRepeatsId` proves the general case.
- **Toggle, delete and update act on every todo with a matching id**, not on
  "the" todo. Because of this, the design's law "deleting the id just added
  restores the list" holds only when the old list did not already hold that
  id. `Todos.AddThenDelete` proves both directions of that condition.

The design also says toggle, delete and update require an existing id. The code
handles a missing id without error: toggle, update and delete then return an
equal list. The model has no such precondition.

## Model

| member | source | states |
|---|---|---|
| `Todos.Append` | src/App.tsx:23-24 | ADD_TODO keeps the old list as a prefix and adds exactly one todo with id equal to the old length plus one, the given text and `completed = false` |
| `Todos.ToggleMatching` | src/App.tsx:25-28 | TOGGLE_TODO keeps length, order, every id and every text, and flips `completed` exactly at the positions whose id matches |
| `Todos.DeleteMatching` | src/App.tsx:29-30 | DELETE_TODO returns a subsequence of the list in which no todo has the id, keeping every copy of every todo with another id; an absent id gives back the list unchanged |
| `Todos.UpdateMatching` | src/App.tsx:31-34 | UPDATE_TODO keeps length, order, every id and every completion flag; the text of each matching todo becomes the new text, with no check that it is non-empty |
| `Todos.RemoveCompleted` | src/App.tsx:35-36 | CLEAR_COMPLETED returns a subsequence holding no completed todo and keeping every copy of every open todo |
| `Todos.Reduce` | src/App.tsx:21-42 | LOAD_TODOS returns the supplied list verbatim, ignoring the state; an unrecognised action returns the state; ADD_TODO lengthens the list by one; no other action lengthens it |
| `Todos.ReduceIds` | src/App.tsx:21-42 | ADD_TODO adds exactly the id `length + 1` to the set of ids; toggle, delete, update, clear-completed and unrecognised actions introduce no id the list did not already carry |
| `Todos.ToggleTwice` | src/App.tsx:25-28 | toggling the same id twice gives back the original list, whether or not the id occurs |
| `Todos.ToggleAbsent` | src/App.tsx:25-28 | toggling an id no todo carries leaves the list unchanged |
| `Todos.UpdateAbsent` | src/App.tsx:31-34 | updating an id no todo carries leaves the list unchanged |
| `Todos.UpdateIdempotent` | src/App.tsx:31-34 | repeating the same update changes nothing more |
| `Todos.DeleteIdempotent` | src/App.tsx:29-30 | after a delete no todo has the id, and deleting it again changes nothing |
| `Todos.ClearCompletedIdempotent` | src/App.tsx:35-36 | clearing completed todos twice equals clearing once |
| `Todos.AddThenDelete` | src/App.tsx:23-30 | adding and then deleting the id just assigned restores the old list if and only if no old todo already had that id |
| `Todos.DeleteOnlyMatch` | src/App.tsx:29-30 | when only the todo at position k has its id, deleting that id removes exactly that todo and keeps the others in order |
| `Todos.DeleteThenAddRepeatsId` | src/App.tsx:24 | deleting one todo other than the last, from a list whose last todo has id equal to its length, makes the next add reuse that id, so two todos share it |
| `Views.FilteredTodos` | src/App.tsx:86-90 | the view is a subsequence of the list holding only todos the filter shows, every copy of each; `all` is the identity |
| `Views.FilteredTodosCons` | src/App.tsx:86-90 | the view of a list with one more todo at the front is that todo, if shown, followed by the view of the rest |
| `Views.ItemsLeft` | src/App.tsx:92 | the count equals the length of the active view of the unfiltered list, and with the completed view's length adds up to the list's length |
| `Views.ActiveCompletedPartition` | src/App.tsx:86-90 | the active and completed views partition the list: their lengths sum to its length, no todo is in both, and their multisets add up to the list's |
| `Views.ClearCompletedIsActiveView` | src/App.tsx:35-36 | after CLEAR_COMPLETED the list equals the active view of the list before it |
| `Views.ClearCompletedEmptiesCompletedView` | src/App.tsx:35-36 | after CLEAR_COMPLETED the completed view is empty |
| `Views.ItemsLeftAfterAdd` | src/App.tsx:24 | an add increases the items-left count by one |
| `Views.ItemsLeftAfterClearCompleted` | src/App.tsx:36 | CLEAR_COMPLETED leaves the items-left count unchanged |
| `Views.ItemsLeftAfterUpdate` | src/App.tsx:31-34 | an update leaves the items-left count unchanged |
| `AddForm.TrimStart` | src/App.tsx:68 | the result is the longest suffix not starting with white space; everything dropped is white space |
| `AddForm.TrimEnd` | src/App.tsx:68 | the result is the longest prefix not ending with white space; everything dropped is white space |
| `AddForm.Trim` | src/App.tsx:68 | the trimmed string is empty exactly when the input is blank, and otherwise starts and ends with a non-white-space character |
| `AddForm.HandleAddTodo` | src/App.tsx:66-71 | a blank input leaves list and input unchanged; any other input dispatches ADD_TODO with the untrimmed text and clears the input |
| `Seqs.Map` | src/App.tsx:26-28 | `map` gives one result per element, in order, each the function applied to the element at that position |
| `Seqs.Filter` | src/App.tsx:86-90 | `filter` returns no more elements than its input, each one from the input and passing the predicate |
| `Seqs.FilterKeepsExactly` | src/App.tsx:86-90 | filter keeps exactly the positions whose element passes, in increasing order, and returns the elements at those positions |
| `Seqs.FilterMultiset` | src/App.tsx:86-90 | filter keeps every copy of a passing element and no copy of any other |
| `Seqs.FilterIdempotent` | src/App.tsx:36 | filtering twice with the same predicate equals filtering once |
| `Seqs.FilterAppend` | src/App.tsx:92 | filtering distributes over concatenation |
| `Seqs.FilterDropsOne` | src/App.tsx:30 | when only the element at position k fails the predicate, filter removes exactly that element |
| `Scenarios.RunSnoc` | src/App.tsx:45 | dispatching one more action reduces the result of the earlier dispatches |
| `Scenarios.IdCollision` | src/App.tsx:24 | add, add, delete 1, add from the empty list ends with two todos both with id 2 |
| `Scenarios.AddAddToggle` | src/App.tsx:23-28 | adding "buy milk" and "wash car" and toggling id 1 completes the first todo only |
| `Scenarios.AddAddToggleView` | src/App.tsx:86-90 | on that list the active view is the second todo alone |
| `Scenarios.AddAddToggleItemsLeft` | src/App.tsx:92 | on that list one item is left |
| `Scenarios.LoadThenClear` | src/App.tsx:35-38 | loading a single completed todo, whatever the state was, and then clearing the completed todos leaves the empty list |
| `Scenarios.SubmitScenarios` | src/App.tsx:66-71 | submitting a blank input adds nothing; submitting " milk " adds a todo with that untrimmed text |

## Left out

- Loading from and saving to `localStorage`, and `JSON.parse` / `JSON.stringify` (src/App.tsx:50-64), are browser I/O. A load is modelled only as an arbitrary `LoadTodos` action.
- The React plumbing (`useReducer`, `useState`, `useEffect`, the JSX at src/App.tsx:44-132) is not modelled beyond `Scenarios.Run`, which applies dispatches in order.
- The filter state and its setters, the dark-mode flag and `toggleDarkMode` (src/App.tsx:47-48, 78-80) are UI state with no logic. `FilteredTodos` takes the filter as a parameter.
- The other handlers (`handleUpdateTodo`, `handleClearCompleted` and the inline toggle and delete callbacks) only forward one action to the reducer. The rendering components `TodoItem` and `TodoList` are not part of this model.
- Todo ids are JavaScript numbers. They are modelled as unbounded integers. A loaded list holding non-integer, NaN or non-numeric ids is not modelled, and neither is the loss of precision past 2^53.
- `AddForm.Trim`: the white-space set is ECMAScript's WhiteSpace and LineTerminator characters, with the space separators of Unicode 15 fixed in a constant. A later Unicode version's additions are not tracked. Strings are sequences of Unicode scalar values rather than UTF-16 code units. This makes no difference to trimming, because every white-space character is in the Basic Multilingual Plane.
- The `default` branch is modelled by the action `Unrecognized`. It stands for an action object that the TypeScript type would reject but that plain JavaScript could still dispatch. It is the only way to reach the `default` branch.
- Sorting by creation date or completion status, and a `createdAt` timestamp, are described for a later variant of the application. Neither exists in `src/App.tsx`, so neither is modelled.
