# RN-Todo: the to-do tree, in Dafny

RN-Todo is a React Native to-do list. Its only logic is the `todos` state of
the `Index` component in `app/index.tsx`. That state is a list of root tasks,
and each task has sub-tasks. Five handlers replace it with a rewritten copy:

- `addTodo` appends a root task with the trimmed input text.
- `addSubTodo` appends a `'New SubTodo'` child to a root task.
- `deleteTodo`/`filterTodos` drops a task and its whole subtree.
- `toggleTodoCompletion`/`toggleCompletion` flips a task's `completed` flag.
- `updateTodoText`/`updateTextRecursively` sets a task's text.

The project has four modules:

- `TextTrim` (`text_trim.dfy`) models ECMAScript's `String.prototype.trim`. It uses the full
  WhiteSpace and LineTerminator sets of the ECMAScript Language Specification
  (ECMA-262).
- `TodoTree` (`todo_tree.dfy`) holds the `Todo` datatype and the five
  tree operations as functions. It also holds the views used to state their
  properties: every id at any depth (`Ids`), the node count (`Size`), the root ids in
  order (`TopIds`), depth-first lookup (`Find`), `UniqueIds`, and `WellFormed`
  (the tree is one level deep).
- `TodoLemmas` (`todo_lemmas.dfy`) holds what the operations guarantee:
  - an absent id is a no-op;
  - toggling twice is the identity;
  - of two text updates with the same id, the last one wins, and putting the old text back restores the tree;
  - a delete removes exactly the subtree of the deleted task; every survivor keeps its fields, and its children are its old children with the same delete applied, in their old order;
  - a toggle changes only `completed`, and an update changes only `text`;
  - every operation keeps ids unique and the tree one level deep.
- `TodoStore` (`todo_store.dfy`) is the component's state, a class `Index`
  with a `todos` field. Each handler method stores the result of the matching
  operation, as `setTodos` does. `filterTodos` builds its result by pushing into
  a `reduce` accumulator. It is modelled as the loop method `FilterTodosReduce`,
  which is proved equal to `TodoTree.FilterTodos`. `Session` walks through a
  short session: add, add a sub-task, toggle, delete.

Three behaviours of the code shape the model:

- `addSubTodo` looks only at ROOT tasks (a single `todos.map`, no
  recursion). A sub-task's id therefore changes nothing. A consequence, proved
  as `AddSubTodoKeepsInvariants`, is that the tree never grows deeper than one
  level, whatever the UI shows or hides.
- Unique ids are never checked by the code. `UniqueIds` is a predicate. Each
  operation is proved to preserve it (for the two insertions, when the new id is
  fresh), and it is assumed only by the lemmas that need it
  (`FilterRemovesSubtree`, `FilterKeepsOthers`, `UpdateToSameText`,
  `UpdateRestores`).
- `toggleCompletion` and `updateTextRecursively` stop at the first task
  with the id on each path and do not look below it. `ToggleTwiceIsIdentity`
  and `UpdateLastWins` hold even when ids repeat.

## Model

| member | source | states |
|---|---|---|
| `TextTrim.TrimStart` | app/index.tsx:21 | the result is the suffix of the input left after a prefix made only of whitespace, and it does not start with whitespace |
| `TextTrim.TrimEnd` | app/index.tsx:21 | the result is the prefix of the input left before a suffix made only of whitespace, and it does not end with whitespace |
| `TextTrim.Trim` | app/index.tsx:21 | `text.trim()` is empty exactly when the input is whitespace only; otherwise it neither starts nor ends with whitespace |
| `TextTrim.TrimIsSlice` | app/index.tsx:26 | the trimmed text is a contiguous slice of the input, and everything cut away on either side is whitespace |
| `TextTrim.TrimIdempotent` | app/index.tsx:26 | trimming an already trimmed text changes nothing |
| `TodoTree.NewSubTodo` | app/index.tsx:42-48 | the new sub-task has the given id, the text `"New SubTodo"`, is not completed, has no children and is marked as a sub-task |
| `TodoTree.WithSubTodo` | app/index.tsx:36-52 | a root task keeps its id, text, completion state and sub-task mark; when its id matches, its children gain exactly the new sub-task at the end; otherwise it is returned unchanged |
| `TodoTree.AddTodo` | app/index.tsx:20-34 | blank input leaves the list unchanged; otherwise the old list stays as a prefix and exactly one task follows it: the fresh id, the trimmed text, not completed, no children, not a sub-task |
| `TodoTree.AddSubTodo` | app/index.tsx:35-55 | same length; each root task whose id matches gets exactly one new last child (`"New SubTodo"`, not completed, no children, marked as sub-task), with all its other fields kept; every other root task is unchanged; an id that is not a root id (a sub-task's included) leaves the list unchanged |
| `TodoTree.FilterTodos` | app/index.tsx:58-68 | no task with the deleted id is left at any depth, no id is added, and the task count does not grow |
| `TodoTree.ToggleNode` | app/index.tsx:74-78 | a task keeps its id, text and sub-task mark |
| `TodoTree.ToggleCompletion` | app/index.tsx:73-80 | the list keeps its length, and each position keeps its id and text |
| `TodoTree.UpdateNode` | app/index.tsx:86-90 | a task keeps its id, completion state and sub-task mark |
| `TodoTree.UpdateTextRecursively` | app/index.tsx:85-92 | the list keeps its length, and each position keeps its id and completion state |
| `TodoLemmas.AddTodoBlankIsNoop` | app/index.tsx:21 | whitespace-only or empty input leaves `todos` unchanged |
| `TodoLemmas.AddTodoKeepsInvariants` | app/index.tsx:22-31 | non-blank input adds exactly the fresh id and one task; unique ids stay unique when the id is fresh; the tree stays one level deep |
| `TodoLemmas.AddSubTodoKeepsInvariants` | app/index.tsx:36-53 | the ids grow by the fresh id exactly when the target is a root id; unique ids stay unique when the id is fresh; the tree stays one level deep |
| `TodoLemmas.FilterAbsentIsNoop` | app/index.tsx:58-67 | deleting an id that occurs nowhere returns the tree unchanged |
| `TodoLemmas.FilterIdempotent` | app/index.tsx:57-70 | deleting the same id twice is the same as deleting it once |
| `TodoLemmas.FilterKeepsOrder` | app/index.tsx:59-66 | the surviving root ids are the old root ids without the deleted id, in the same order |
| `TodoLemmas.FilterRemovesSubtree` | app/index.tsx:58-67 | with unique ids, deleting removes exactly the ids of the deleted task's subtree, keeps every other id, and shrinks the count by that subtree's size |
| `TodoLemmas.FilterKeepsOthers` | app/index.tsx:58-67 | with unique ids, every task outside the deleted subtree is still found after the delete with its id, text, completion state and sub-task mark unchanged, and its children are its old children with the same delete applied (in their old order, by `FilterKeepsOrder`) |
| `TodoLemmas.FilterKeepsInvariants` | app/index.tsx:58-67 | deleting keeps ids unique and the tree one level deep |
| `TodoLemmas.ToggleAbsentIsNoop` | app/index.tsx:73-79 | toggling an id that occurs nowhere returns the tree unchanged |
| `TodoLemmas.ToggleTwiceIsIdentity` | app/index.tsx:73-79 | toggling the same id twice returns the original tree |
| `TodoLemmas.ToggleOnlyChangesCompleted` | app/index.tsx:73-79 | with every `completed` flag forgotten, the toggled tree equals the old one: same shape, order, ids, texts and sub-task marks |
| `TodoLemmas.ToggleFlipsTarget` | app/index.tsx:75-76 | the task found under the id comes back with `completed` flipped and every other field, children included, unchanged |
| `TodoLemmas.ToggleKeepsOthers` | app/index.tsx:74-79 | every other id is still found, with the same completion state and text |
| `TodoLemmas.ToggleKeepsInvariants` | app/index.tsx:73-79 | toggling keeps the set of ids, the task count, uniqueness of ids and the one-level-deep shape |
| `TodoLemmas.UpdateAbsentIsNoop` | app/index.tsx:85-91 | updating an id that occurs nowhere returns the tree unchanged |
| `TodoLemmas.UpdateLastWins` | app/index.tsx:85-91 | two updates of the same id equal the second update alone |
| `TodoLemmas.UpdateIdempotent` | app/index.tsx:85-91 | the same update applied twice equals it applied once |
| `TodoLemmas.UpdateToSameText` | app/index.tsx:85-91 | with unique ids, setting a task's text to the text it has returns the tree unchanged |
| `TodoLemmas.UpdateRestores` | app/index.tsx:85-91 | with unique ids, an edit followed by setting the original text back restores the tree |
| `TodoLemmas.UpdateOnlyChangesText` | app/index.tsx:85-91 | with every text forgotten, the updated tree equals the old one: same shape, order, ids, completion states and sub-task marks |
| `TodoLemmas.UpdateSetsTarget` | app/index.tsx:87-88 | the task found under the id comes back with the new text, verbatim, and every other field unchanged |
| `TodoLemmas.UpdateKeepsOthers` | app/index.tsx:86-91 | every other id is still found, with the same text and completion state |
| `TodoLemmas.UpdateKeepsInvariants` | app/index.tsx:85-91 | updating keeps the set of ids, the task count, uniqueness of ids and the one-level-deep shape |
| `TodoStore.FilterTodosReduce` | app/index.tsx:58-68 | the reduce-and-push loop, with its recursive call on each kept task's children, returns exactly `FilterTodos` of its input |
| `TodoStore.Index.constructor` | app/index.tsx:15 | the state starts as the empty list, which is valid |
| `TodoStore.Index.AddTodo` | app/index.tsx:20-34 | the new state is `AddTodo` of the old one; the ids gain the fresh id unless the input is blank; validity is kept when the id is fresh |
| `TodoStore.Index.AddSubTodo` | app/index.tsx:35-55 | the new state is `AddSubTodo` of the old one; the ids gain the fresh id exactly when the target is a root id; validity is kept when the id is fresh |
| `TodoStore.Index.DeleteTodo` | app/index.tsx:57-70 | the new state is `FilterTodos` of the old one, computed by the reduce loop; the id is gone and no id is added; validity is kept |
| `TodoStore.Index.ToggleTodoCompletion` | app/index.tsx:72-82 | the new state is `ToggleCompletion` of the old one with the same ids; validity is kept |
| `TodoStore.Index.UpdateTodoText` | app/index.tsx:84-94 | the new state is `UpdateTextRecursively` of the old one with the same ids; validity is kept |

## Left out

- Rendering is not modelled because it is UI only. This covers `renderTodo`
  (app/index.tsx:96-146), the returned JSX (app/index.tsx:148-163) and the
  `StyleSheet` styles (app/index.tsx:166-212).
- The edit-mode state `editId`/`editText` and the reset of the input buffer
  `text` are not modelled, because they are presentation state
  (app/index.tsx:16-18, 32, 103-121). The text of the input field is a
  parameter of `AddTodo`.
- `Math.random().toString()` (app/index.tsx:25, 43) is a random source. The
  new id is a `freshId` parameter instead. Nothing requires it to be fresh.
  Validity is promised only when it is.
- `TodoTree.AddSubTodo`: when several root tasks share the target id, the
  source draws a separate random id for each new sub-task. The model gives them
  all the same `freshId`. With unique ids there is at most one match.
- The hidden "add sub-task" button (app/index.tsx:128) is UI. In its place,
  `WellFormed` states the one-level-deep shape, and every operation is proved
  to keep it.
- The second `todo.id !== id` test at app/index.tsx:62 always holds where it
  stands. It is not repeated in `FilterTodosReduce`.
- React's `useState`/`setTodos` plumbing is replaced by assignment to the
  `todos` field of `Index`. Re-rendering and batching are not modelled.
- Strings are sequences of Unicode characters, not UTF-16 code units. Every
  character that `trim` removes lies in the Basic Multilingual Plane, so
  trimming is the same either way.
