/**
 The to-do tree of the app and the five operations that rewrite it. Every
 operation takes the list of root todos and returns a new list; none of them
 mutates a todo in place.
 */
module TodoTree {
  import opened TextTrim

  datatype Option<T> = None | Some(value: T)

  /**
   One task. `childrenYn` is true for a task created as a sub-task; the app
   hides the "add sub-task" button of such a task.
   */
  datatype Todo = Todo(id: string, text: string, completed: bool, children: seq<Todo>, childrenYn: bool)

  /** The text every new sub-task starts with. */
  const NewSubTodoText: string := "New SubTodo"

  /** The sub-task that `addSubTodo` appends, with the id the app would draw at random. */
  function NewSubTodo(freshId: string): (r: Todo)
    ensures r.id == freshId && r.text == NewSubTodoText && !r.completed
    ensures r.childrenYn && r.children == []
  {
    Todo(freshId, NewSubTodoText, false, [], true)
  }

  // ---------------------------------------------------------------------
  // Views of a tree
  // ---------------------------------------------------------------------

  /** Every id in the tree, at any depth. */
  function Ids(ts: seq<Todo>): set<string>
  {
    if ts == [] then {} else {ts[0].id} + Ids(ts[0].children) + Ids(ts[1..])
  }

  /** The number of tasks in the tree, at any depth. */
  function Size(ts: seq<Todo>): nat
  {
    if ts == [] then 0 else 1 + Size(ts[0].children) + Size(ts[1..])
  }

  /** The ids of the root tasks, in display order. */
  function TopIds(ts: seq<Todo>): seq<string>
  {
    if ts == [] then [] else [ts[0].id] + TopIds(ts[1..])
  }

  /** `s` without the occurrences of `x`, the rest in the same order. */
  function Without(s: seq<string>, x: string): seq<string>
  {
    if s == [] then [] else (if s[0] == x then [] else [s[0]]) + Without(s[1..], x)
  }

  /** No id occurs twice anywhere in the tree. */
  predicate UniqueIds(ts: seq<Todo>)
  {
    ts == [] ||
    (ts[0].id !in Ids(ts[0].children) && ts[0].id !in Ids(ts[1..])
     && Ids(ts[0].children) !! Ids(ts[1..])
     && UniqueIds(ts[0].children) && UniqueIds(ts[1..]))
  }

  /** A task created by "add sub-task" that has no sub-tasks of its own. */
  predicate IsLeafSubTodo(t: Todo)
  {
    t.childrenYn && t.children == []
  }

  /**
   The one-level-deep shape the app presents: root tasks are not marked as
   sub-tasks, and each of their children is a sub-task without children.
   */
  predicate WellFormed(ts: seq<Todo>)
  {
    ts == [] ||
    (!ts[0].childrenYn && (forall c | c in ts[0].children :: IsLeafSubTodo(c)) && WellFormed(ts[1..]))
  }

  /**
   The first task with id `id` in depth-first order, which is the task with
   that id when ids are unique.
   */
  function Find(ts: seq<Todo>, id: string): (r: Option<Todo>)
    ensures r.Some? <==> id in Ids(ts)
    ensures r.Some? ==> r.value.id == id
  {
    if ts == [] then None
    else if ts[0].id == id then Some(ts[0])
    else
      var c := Find(ts[0].children, id);
      if c.Some? then c else Find(ts[1..], id)
  }

  // ---------------------------------------------------------------------
  // addTodo
  // ---------------------------------------------------------------------

  /**
   `addTodo`: nothing happens when the input is blank; otherwise a new
   uncompleted root task with the trimmed text is appended after all others.
   */
  function AddTodo(todos: seq<Todo>, text: string, freshId: string): (r: seq<Todo>)
    ensures IsBlank(text) ==> r == todos
    ensures !IsBlank(text) ==>
              |r| == |todos| + 1 && r[..|todos|] == todos
              && r[|todos|] == Todo(freshId, Trim(text), false, [], false)
  {
    if Trim(text) != [] then todos + [Todo(freshId, Trim(text), false, [], false)] else todos
  }

  // ---------------------------------------------------------------------
  // addSubTodo
  // ---------------------------------------------------------------------

  /** What `addSubTodo`'s map does to one root task. */
  function WithSubTodo(t: Todo, id: string, freshId: string): (r: Todo)
    ensures r.id == t.id && r.text == t.text && r.completed == t.completed && r.childrenYn == t.childrenYn
    ensures t.id == id ==> r.children == t.children + [NewSubTodo(freshId)]
    ensures t.id != id ==> r == t
  {
    if t.id == id then t.(children := t.children + [NewSubTodo(freshId)]) else t
  }

  /**
   `addSubTodo`: every ROOT task whose id is `id` gets one new sub-task at the
   end of its children; every other root task is left as it is. Tasks below
   the root are never looked at, so an id that only a sub-task has changes
   nothing.
   */
  function AddSubTodo(todos: seq<Todo>, id: string, freshId: string): (r: seq<Todo>)
    ensures |r| == |todos|
    ensures forall i | 0 <= i < |todos| && todos[i].id != id :: r[i] == todos[i]
    ensures forall i | 0 <= i < |todos| && todos[i].id == id ::
              r[i] == todos[i].(children := todos[i].children + [NewSubTodo(freshId)])
    ensures id !in TopIds(todos) ==> r == todos
  {
    if todos == [] then []
    else [WithSubTodo(todos[0], id, freshId)] + AddSubTodo(todos[1..], id, freshId)
  }

  // ---------------------------------------------------------------------
  // deleteTodo / filterTodos
  // ---------------------------------------------------------------------

  /**
   `filterTodos`: drops every task whose id is `id`, together with all its
   descendants, at any depth; the surviving tasks keep their order.
   */
  function FilterTodos(list: seq<Todo>, id: string): (r: seq<Todo>)
    ensures Ids(r) <= Ids(list) - {id}
    ensures Size(r) <= Size(list)
  {
    if list == [] then []
    else
      var rest := FilterTodos(list[1..], id);
      if list[0].id != id then [list[0].(children := FilterTodos(list[0].children, id))] + rest
      else rest
  }

  // ---------------------------------------------------------------------
  // toggleTodoCompletion / toggleCompletion
  // ---------------------------------------------------------------------

  /** What `toggleCompletion`'s map does to one task. */
  function ToggleNode(t: Todo, id: string): (r: Todo)
    ensures r.id == t.id && r.childrenYn == t.childrenYn && r.text == t.text
  {
    if t.id == id then t.(completed := !t.completed)
    else t.(children := ToggleCompletion(t.children, id))
  }

  /**
   `toggleCompletion`: flips `completed` on every task with id `id` that has
   no ancestor with that id, and does not descend below such a task.
   */
  function ToggleCompletion(todos: seq<Todo>, id: string): (r: seq<Todo>)
    ensures |r| == |todos|
    ensures forall i | 0 <= i < |todos| :: r[i].id == todos[i].id && r[i].text == todos[i].text
  {
    if todos == [] then [] else [ToggleNode(todos[0], id)] + ToggleCompletion(todos[1..], id)
  }

  // ---------------------------------------------------------------------
  // updateTodoText / updateTextRecursively
  // ---------------------------------------------------------------------

  /** What `updateTextRecursively`'s map does to one task. */
  function UpdateNode(t: Todo, id: string, newText: string): (r: Todo)
    ensures r.id == t.id && r.childrenYn == t.childrenYn && r.completed == t.completed
  {
    if t.id == id then t.(text := newText)
    else t.(children := UpdateTextRecursively(t.children, id, newText))
  }

  /**
   `updateTextRecursively`: sets the text of every task with id `id` that has
   no ancestor with that id to `newText`, verbatim.
   */
  function UpdateTextRecursively(todos: seq<Todo>, id: string, newText: string): (r: seq<Todo>)
    ensures |r| == |todos|
    ensures forall i | 0 <= i < |todos| :: r[i].id == todos[i].id && r[i].completed == todos[i].completed
  {
    if todos == [] then [] else [UpdateNode(todos[0], id, newText)] + UpdateTextRecursively(todos[1..], id, newText)
  }

  // ---------------------------------------------------------------------
  // Erasures: the tree with one field forgotten
  // ---------------------------------------------------------------------

  /** The tree with every `completed` set to false. */
  function Unchecked(ts: seq<Todo>): seq<Todo>
  {
    if ts == [] then []
    else [ts[0].(completed := false, children := Unchecked(ts[0].children))] + Unchecked(ts[1..])
  }

  /** The tree with every `text` emptied. */
  function Untexted(ts: seq<Todo>): seq<Todo>
  {
    if ts == [] then []
    else [ts[0].(text := [], children := Untexted(ts[0].children))] + Untexted(ts[1..])
  }
}
