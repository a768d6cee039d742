/**
 The `Index` component's `todos` state and the five handlers that replace it.
 Each handler computes the new list with the corresponding operation of
 `TodoTree` and stores it, as `setTodos` does. `filterTodos` builds its result
 by pushing into a `reduce` accumulator, so it is modelled as a method with a
 loop, proved equal to `TodoTree.FilterTodos`.
 */
module TodoStore {
  import opened TextTrim
  import opened TodoTree
  import opened TodoLemmas

  /** Folding one more task into the accumulator of `filterTodos`'s reduce. */
  lemma {:induction false} FilterSnoc(a: seq<Todo>, x: Todo, id: string)
    ensures FilterTodos(a + [x], id)
            == FilterTodos(a, id) + (if x.id != id then [x.(children := FilterTodos(x.children, id))] else [])
  {
    if a == [] {
      assert a + [x] == [x];
    } else {
      assert (a + [x])[0] == a[0];
      assert (a + [x])[1..] == a[1..] + [x];
      FilterSnoc(a[1..], x, id);
    }
  }

  /**
   `filterTodos` as the source runs it: a left-to-right reduce that pushes a
   copy of each task whose id differs from `id`, with its children filtered
   by a recursive call, and skips the others with their whole subtree.
   */
  method FilterTodosReduce(list: seq<Todo>, id: string) returns (arr: seq<Todo>)
    ensures arr == FilterTodos(list, id)
    decreases list
  {
    arr := [];
    var i := 0;
    while i < |list|
      invariant 0 <= i <= |list|
      invariant arr == FilterTodos(list[..i], id)
    {
      var todo := list[i];
      if todo.id != id {
        var children := FilterTodosReduce(todo.children, id);
        arr := arr + [todo.(children := children)];
      }
      FilterSnoc(list[..i], todo, id);
      assert list[..i + 1] == list[..i] + [todo];
      i := i + 1;
    }
    assert list[..i] == list;
  }

  /**
   The component's `todos` state. Ids the app draws with `Math.random` are
   passed in as `freshId`. The app never checks them, and neither do the
   handlers; `Valid` holds of every state the handlers reach from the empty
   list as long as each `freshId` is new to the tree.
   */
  class Index {
    var todos: seq<Todo>

    /** Ids are unique and the tree is one level deep. */
    ghost predicate Valid()
      reads this
    {
      UniqueIds(todos) && WellFormed(todos)
    }

    /** `useState<Todo[]>([])`. */
    constructor ()
      ensures Valid() && todos == []
    {
      todos := [];
    }

    /** `addTodo`, with the text of the input field passed in. */
    method AddTodo(text: string, freshId: string)
      modifies this
      ensures todos == TodoTree.AddTodo(old(todos), text, freshId)
      ensures old(Valid()) && freshId !in old(Ids(todos)) ==> Valid()
      ensures Ids(todos) == Ids(old(todos)) + (if IsBlank(text) then {} else {freshId})
    {
      AddTodoKeepsInvariants(todos, text, freshId);
      todos := TodoTree.AddTodo(todos, text, freshId);
    }

    /** `addSubTodo`. */
    method AddSubTodo(id: string, freshId: string)
      modifies this
      ensures todos == TodoTree.AddSubTodo(old(todos), id, freshId)
      ensures old(Valid()) && freshId !in old(Ids(todos)) ==> Valid()
      ensures Ids(todos) == Ids(old(todos)) + (if id in TopIds(old(todos)) then {freshId} else {})
    {
      AddSubTodoKeepsInvariants(todos, id, freshId);
      todos := TodoTree.AddSubTodo(todos, id, freshId);
    }

    /** `deleteTodo`. */
    method DeleteTodo(id: string)
      modifies this
      ensures todos == FilterTodos(old(todos), id)
      ensures old(Valid()) ==> Valid()
      ensures id !in Ids(todos) && Ids(todos) <= Ids(old(todos))
    {
      FilterKeepsInvariants(todos, id);
      todos := FilterTodosReduce(todos, id);
    }

    /** `toggleTodoCompletion`. */
    method ToggleTodoCompletion(id: string)
      modifies this
      ensures todos == ToggleCompletion(old(todos), id)
      ensures old(Valid()) ==> Valid()
      ensures Ids(todos) == Ids(old(todos))
    {
      ToggleKeepsInvariants(todos, id);
      todos := ToggleCompletion(todos, id);
    }

    /** `updateTodoText`. */
    method UpdateTodoText(id: string, newText: string)
      modifies this
      ensures todos == UpdateTextRecursively(old(todos), id, newText)
      ensures old(Valid()) ==> Valid()
      ensures Ids(todos) == Ids(old(todos))
    {
      UpdateKeepsInvariants(todos, id, newText);
      todos := UpdateTextRecursively(todos, id, newText);
    }
  }

  /** The tasks of the session below, after each step. */
  function Milk(children: seq<Todo>): Todo
  {
    Todo("r1", "Buy milk", false, children, false)
  }

  lemma SessionAdd(typed: string)
    requires typed == [' '] + "Buy milk"
    ensures TodoTree.AddTodo([], typed, "r1") == [Milk([])]
  {
    assert typed[1..] == "Buy milk";
    assert TrimStart(typed) == "Buy milk";
    assert TrimEnd("Buy milk") == "Buy milk";
    assert Trim(typed) == "Buy milk";
    assert [] + [Milk([])] == [Milk([])];
  }

  lemma SessionAddSub()
    ensures TodoTree.AddSubTodo([Milk([])], "r1", "c1") == [Milk([NewSubTodo("c1")])]
  {
    assert [] + [NewSubTodo("c1")] == [NewSubTodo("c1")];
  }

  lemma SessionAddSubToSubTask()
    ensures TodoTree.AddSubTodo([Milk([NewSubTodo("c1")])], "c1", "c2") == [Milk([NewSubTodo("c1")])]
  {
    assert TopIds([Milk([NewSubTodo("c1")])]) == ["r1"];
  }

  lemma SessionToggle()
    ensures ToggleCompletion([Milk([NewSubTodo("c1")])], "c1") == [Milk([NewSubTodo("c1").(completed := true)])]
  {
    assert ToggleCompletion([NewSubTodo("c1")], "c1") == [NewSubTodo("c1").(completed := true)];
  }

  lemma SessionDelete()
    ensures FilterTodos([Milk([NewSubTodo("c1").(completed := true)])], "r1") == []
  {
  }

  /**
   A session: add " Buy milk", give it a sub-task, try to give the sub-task
   one (nothing happens), tick the sub-task, then delete the root task, which
   takes the sub-task with it.
   */
  method Session()
  {
    var app := new Index();
    var typed := [' '] + "Buy milk";
    SessionAdd(typed);
    app.AddTodo(typed, "r1");
    assert app.todos == [Milk([])];
    SessionAddSub();
    app.AddSubTodo("r1", "c1");
    SessionAddSubToSubTask();
    app.AddSubTodo("c1", "c2");
    assert app.todos == [Milk([NewSubTodo("c1")])];
    SessionToggle();
    app.ToggleTodoCompletion("c1");
    SessionDelete();
    app.DeleteTodo("r1");
    assert app.todos == [];
  }
}
