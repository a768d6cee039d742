/**
 What the five operations of `TodoTree` guarantee: what they change, what
 they keep, how they undo or repeat, and that they keep ids unique and the
 tree one level deep.
 */
module TodoLemmas {
  import opened TextTrim
  import opened TodoTree

  // ---------------------------------------------------------------------
  // Helpers: the views of a concatenation
  // ---------------------------------------------------------------------

  lemma {:induction false} IdsAppend(a: seq<Todo>, b: seq<Todo>)
    ensures Ids(a + b) == Ids(a) + Ids(b)
    ensures Size(a + b) == Size(a) + Size(b)
  {
    if a == [] {
      assert a + b == b;
    } else {
      assert (a + b)[0] == a[0];
      assert (a + b)[1..] == a[1..] + b;
      IdsAppend(a[1..], b);
    }
  }

  lemma {:induction false} UniqueAppend(a: seq<Todo>, b: seq<Todo>)
    requires UniqueIds(a) && UniqueIds(b) && Ids(a) !! Ids(b)
    ensures UniqueIds(a + b)
  {
    if a == [] {
      assert a + b == b;
    } else {
      assert (a + b)[0] == a[0];
      assert (a + b)[1..] == a[1..] + b;
      UniqueAppend(a[1..], b);
      IdsAppend(a[1..], b);
    }
  }

  lemma {:induction false} WellFormedAppend(a: seq<Todo>, b: seq<Todo>)
    requires WellFormed(a) && WellFormed(b)
    ensures WellFormed(a + b)
  {
    if a == [] {
      assert a + b == b;
    } else {
      assert (a + b)[0] == a[0];
      assert (a + b)[1..] == a[1..] + b;
      WellFormedAppend(a[1..], b);
    }
  }

  /** A list is its head followed by its tail. */
  lemma HeadTail(ts: seq<Todo>)
    requires ts != []
    ensures ts == [ts[0]] + ts[1..]
  {
  }

  // ---------------------------------------------------------------------
  // addTodo
  // ---------------------------------------------------------------------

  /** A blank input (whitespace only, or nothing) leaves the list unchanged. */
  lemma AddTodoBlankIsNoop(todos: seq<Todo>, text: string, freshId: string)
    requires IsBlank(text)
    ensures AddTodo(todos, text, freshId) == todos
  {
  }

  /**
   A non-blank input adds exactly one task, with the new id, to the tree;
   ids stay unique when the new id is fresh, and the tree stays one level deep.
   */
  lemma AddTodoKeepsInvariants(todos: seq<Todo>, text: string, freshId: string)
    ensures var r := AddTodo(todos, text, freshId);
            Ids(r) == Ids(todos) + (if IsBlank(text) then {} else {freshId})
            && Size(r) == Size(todos) + (if IsBlank(text) then 0 else 1)
            && (UniqueIds(todos) && freshId !in Ids(todos) ==> UniqueIds(r))
            && (WellFormed(todos) ==> WellFormed(r))
  {
    if !IsBlank(text) {
      var t := Todo(freshId, Trim(text), false, [], false);
      IdsAppend(todos, [t]);
      assert Ids([t]) == {freshId};
      assert Size([t]) == 1;
      if UniqueIds(todos) && freshId !in Ids(todos) {
        UniqueAppend(todos, [t]);
      }
      if WellFormed(todos) {
        WellFormedAppend(todos, [t]);
      }
    }
  }

  // ---------------------------------------------------------------------
  // addSubTodo
  // ---------------------------------------------------------------------

  /**
   `addSubTodo` adds the new id to the tree exactly when some root task has
   the target id, keeps ids unique when the new id is fresh, and keeps the
   tree one level deep.
   */
  lemma {:induction false} AddSubTodoKeepsInvariants(todos: seq<Todo>, id: string, freshId: string)
    ensures var r := AddSubTodo(todos, id, freshId);
            Ids(r) == Ids(todos) + (if id in TopIds(todos) then {freshId} else {})
            && (UniqueIds(todos) && freshId !in Ids(todos) ==> UniqueIds(r))
            && (WellFormed(todos) ==> WellFormed(r))
  {
    if todos != [] {
      var t := todos[0];
      var r := AddSubTodo(todos, id, freshId);
      var rest := AddSubTodo(todos[1..], id, freshId);
      AddSubTodoKeepsInvariants(todos[1..], id, freshId);
      assert r[0] == WithSubTodo(t, id, freshId) && r[1..] == rest;
      if t.id == id {
        IdsAppend(t.children, [NewSubTodo(freshId)]);
        assert Ids([NewSubTodo(freshId)]) == {freshId};
        if UniqueIds(todos) && freshId !in Ids(todos) {
          UniqueAppend(t.children, [NewSubTodo(freshId)]);
          // `t` is the only root task with id `id`, so the rest is unchanged.
          TopIdsInIds(todos[1..], id);
          assert rest == todos[1..];
        }
        if WellFormed(todos) {
          assert forall c | c in r[0].children :: c in t.children || c == NewSubTodo(freshId);
        }
      }
    }
  }

  /** Every root id is an id of the tree. */
  lemma {:induction false} TopIdsInIds(ts: seq<Todo>, id: string)
    ensures id in TopIds(ts) ==> id in Ids(ts)
  {
    if ts != [] {
      TopIdsInIds(ts[1..], id);
    }
  }

  // ---------------------------------------------------------------------
  // deleteTodo / filterTodos
  // ---------------------------------------------------------------------

  /** Deleting an id that occurs nowhere returns the tree as it was. */
  lemma {:induction false} FilterAbsentIsNoop(list: seq<Todo>, id: string)
    requires id !in Ids(list)
    ensures FilterTodos(list, id) == list
  {
    if list != [] {
      FilterAbsentIsNoop(list[0].children, id);
      FilterAbsentIsNoop(list[1..], id);
      HeadTail(list);
    }
  }

  /** After a delete no task with that id is left, so deleting again changes nothing. */
  lemma {:induction false} FilterIdempotent(list: seq<Todo>, id: string)
    ensures FilterTodos(FilterTodos(list, id), id) == FilterTodos(list, id)
  {
    FilterAbsentIsNoop(FilterTodos(list, id), id);
  }

  /** The surviving root tasks are the old ones without the deleted id, in the same order. */
  lemma {:induction false} FilterKeepsOrder(list: seq<Todo>, id: string)
    ensures TopIds(FilterTodos(list, id)) == Without(TopIds(list), id)
  {
    if list != [] {
      FilterKeepsOrder(list[1..], id);
      var rest := FilterTodos(list[1..], id);
      if list[0].id != id {
        var h := list[0].(children := FilterTodos(list[0].children, id));
        assert ([h] + rest)[0] == h && ([h] + rest)[1..] == rest;
      }
    }
  }

  /**
   With unique ids, deleting the task with id `id` removes exactly that task
   and its descendants: their ids leave the tree, every other id stays, and
   the tree shrinks by the size of that subtree.
   */
  lemma {:induction false} FilterRemovesSubtree(list: seq<Todo>, id: string, n: Todo)
    requires UniqueIds(list) && Find(list, id) == Some(n)
    ensures Ids(FilterTodos(list, id)) == Ids(list) - Ids([n])
    ensures Size(FilterTodos(list, id)) == Size(list) - Size([n])
  {
    var t := list[0];
    var r := FilterTodos(list, id);
    if t.id == id {
      FilterAbsentIsNoop(list[1..], id);
      HeadTail(list);
      IdsAppend([t], list[1..]);
    } else {
      var c := Find(t.children, id);
      var h := t.(children := FilterTodos(t.children, id));
      if c.Some? {
        FilterRemovesSubtree(t.children, id, n);
        FilterAbsentIsNoop(list[1..], id);
        NodeIdsWithin(t.children, id, n);
        assert r == [h] + list[1..];
        IdsAppend([h], list[1..]);
        HeadTail(list);
        IdsAppend([t], list[1..]);
      } else {
        FilterRemovesSubtree(list[1..], id, n);
        FilterAbsentIsNoop(t.children, id);
        NodeIdsWithin(list[1..], id, n);
        assert r == [t] + FilterTodos(list[1..], id);
        IdsAppend([t], FilterTodos(list[1..], id));
        HeadTail(list);
        IdsAppend([t], list[1..]);
      }
    }
  }

  /** The ids of a found task's subtree are ids of the tree, and so is its size bounded. */
  lemma {:induction false} NodeIdsWithin(ts: seq<Todo>, id: string, n: Todo)
    requires Find(ts, id) == Some(n)
    ensures Ids([n]) <= Ids(ts) && Size([n]) <= Size(ts)
  {
    assert Ids([n]) == {n.id} + Ids(n.children);
    assert Size([n]) == 1 + Size(n.children);
    if ts[0].id != id {
      var c := Find(ts[0].children, id);
      if c.Some? {
        NodeIdsWithin(ts[0].children, id, n);
      } else {
        NodeIdsWithin(ts[1..], id, n);
      }
    }
  }

  /**
   With unique ids, every task outside the deleted subtree survives the
   delete with its id, text, completion state and sub-task mark unchanged,
   and its children are its old children with the same delete applied
   (so, by `FilterKeepsOrder`, in their old order).
   */
  lemma {:induction false} FilterKeepsOthers(list: seq<Todo>, id: string, n: Todo, k: string, m: Todo)
    requires UniqueIds(list) && Find(list, id) == Some(n) && Find(list, k) == Some(m)
    requires k !in Ids([n])
    ensures Find(FilterTodos(list, id), k) == Some(m.(children := FilterTodos(m.children, id)))
  {
    var t := list[0];
    assert Ids([n]) == {n.id} + Ids(n.children);
    if t.id == id {
      // The deleted task is the head, so `m` lies in the tail, where `id` is absent.
      assert Ids([t]) == {t.id} + Ids(t.children);
      NodeIdsWithin(list[1..], k, m);
      FilterAbsentIsNoop(list[1..], id);
      FilterAbsentIsNoop(m.children, id);
    } else {
      var h := t.(children := FilterTodos(t.children, id));
      var rest := FilterTodos(list[1..], id);
      assert FilterTodos(list, id) == [h] + rest;
      assert ([h] + rest)[0] == h && ([h] + rest)[1..] == rest;
      if t.id != k {
        if Find(t.children, id).Some? {
          FilterAbsentIsNoop(list[1..], id);
          if Find(t.children, k).Some? {
            FilterKeepsOthers(t.children, id, n, k, m);
          } else {
            NodeIdsWithin(list[1..], k, m);
            FilterAbsentIsNoop(m.children, id);
          }
        } else {
          FilterAbsentIsNoop(t.children, id);
          if Find(t.children, k).Some? {
            NodeIdsWithin(t.children, k, m);
            FilterAbsentIsNoop(m.children, id);
          } else {
            FilterKeepsOthers(list[1..], id, n, k, m);
          }
        }
      }
    }
  }

  /** Deleting keeps ids unique and the tree one level deep. */
  lemma {:induction false} FilterKeepsInvariants(list: seq<Todo>, id: string)
    ensures UniqueIds(list) ==> UniqueIds(FilterTodos(list, id))
    ensures WellFormed(list) ==> WellFormed(FilterTodos(list, id))
  {
    if list != [] {
      var t := list[0];
      FilterKeepsInvariants(t.children, id);
      FilterKeepsInvariants(list[1..], id);
      var rest := FilterTodos(list[1..], id);
      if t.id != id {
        var h := t.(children := FilterTodos(t.children, id));
        assert ([h] + rest)[0] == h && ([h] + rest)[1..] == rest;
        if WellFormed(list) {
          FilterLeaves(t.children, id);
        }
      }
    }
  }

  /** Deleting from a list of childless sub-tasks keeps only some of them. */
  lemma {:induction false} FilterLeaves(cs: seq<Todo>, id: string)
    requires forall c | c in cs :: IsLeafSubTodo(c)
    ensures forall c | c in FilterTodos(cs, id) :: c in cs
  {
    if cs != [] {
      assert cs[0] in cs && forall c | c in cs[1..] :: c in cs;
      FilterLeaves(cs[1..], id);
      assert FilterTodos(cs[0].children, id) == [];
      assert cs[0].(children := []) == cs[0];
    }
  }

  // ---------------------------------------------------------------------
  // toggleTodoCompletion / toggleCompletion
  // ---------------------------------------------------------------------

  /** Toggling an id that occurs nowhere returns the tree as it was. */
  lemma {:induction false} ToggleAbsentIsNoop(todos: seq<Todo>, id: string)
    requires id !in Ids(todos)
    ensures ToggleCompletion(todos, id) == todos
  {
    if todos != [] {
      ToggleAbsentIsNoop(todos[0].children, id);
      ToggleAbsentIsNoop(todos[1..], id);
      HeadTail(todos);
    }
  }

  /** Toggling twice with the same id gives back the tree, ids unique or not. */
  lemma {:induction false} ToggleTwiceIsIdentity(todos: seq<Todo>, id: string)
    ensures ToggleCompletion(ToggleCompletion(todos, id), id) == todos
  {
    if todos != [] {
      var r := ToggleCompletion(todos, id);
      assert r[0] == ToggleNode(todos[0], id) && r[1..] == ToggleCompletion(todos[1..], id);
      if todos[0].id != id {
        ToggleTwiceIsIdentity(todos[0].children, id);
      }
      ToggleTwiceIsIdentity(todos[1..], id);
      HeadTail(todos);
    }
  }

  /**
   Toggling changes nothing but `completed` flags: the shape of the tree, the
   order of tasks, their ids, texts and sub-task marks are all as before.
   */
  lemma {:induction false} ToggleOnlyChangesCompleted(todos: seq<Todo>, id: string)
    ensures Unchecked(ToggleCompletion(todos, id)) == Unchecked(todos)
  {
    if todos != [] {
      var r := ToggleCompletion(todos, id);
      assert r[0] == ToggleNode(todos[0], id) && r[1..] == ToggleCompletion(todos[1..], id);
      ToggleOnlyChangesCompleted(todos[0].children, id);
      ToggleOnlyChangesCompleted(todos[1..], id);
    }
  }

  /** The task with the toggled id comes back with its `completed` flipped and nothing else changed. */
  lemma {:induction false} ToggleFlipsTarget(todos: seq<Todo>, id: string, n: Todo)
    requires Find(todos, id) == Some(n)
    ensures Find(ToggleCompletion(todos, id), id) == Some(n.(completed := !n.completed))
  {
    var t := todos[0];
    var r := ToggleCompletion(todos, id);
    assert r[0] == ToggleNode(t, id) && r[1..] == ToggleCompletion(todos[1..], id);
    if t.id != id {
      if Find(t.children, id).Some? {
        ToggleFlipsTarget(t.children, id, n);
      } else {
        ToggleAbsentIsNoop(t.children, id);
        ToggleFlipsTarget(todos[1..], id, n);
      }
    }
  }

  /** Every task with another id keeps its completion state and its text. */
  lemma {:induction false} ToggleKeepsOthers(todos: seq<Todo>, id: string, k: string)
    requires k != id
    ensures Find(ToggleCompletion(todos, id), k).Some? == Find(todos, k).Some?
    ensures Find(todos, k).Some? ==>
              Find(ToggleCompletion(todos, id), k).value.completed == Find(todos, k).value.completed
              && Find(ToggleCompletion(todos, id), k).value.text == Find(todos, k).value.text
  {
    ToggleKeepsInvariants(todos, id);
    if todos != [] {
      var t := todos[0];
      var r := ToggleCompletion(todos, id);
      assert r[0] == ToggleNode(t, id) && r[1..] == ToggleCompletion(todos[1..], id);
      if t.id != k {
        if t.id != id {
          ToggleKeepsOthers(t.children, id, k);
        }
        ToggleKeepsOthers(todos[1..], id, k);
      }
    }
  }

  /** Toggling keeps every id, the size, unique ids and the one-level-deep shape. */
  lemma {:induction false} ToggleKeepsInvariants(todos: seq<Todo>, id: string)
    ensures Ids(ToggleCompletion(todos, id)) == Ids(todos)
    ensures Size(ToggleCompletion(todos, id)) == Size(todos)
    ensures UniqueIds(ToggleCompletion(todos, id)) == UniqueIds(todos)
    ensures WellFormed(todos) ==> WellFormed(ToggleCompletion(todos, id))
  {
    if todos != [] {
      var t := todos[0];
      var r := ToggleCompletion(todos, id);
      assert r[0] == ToggleNode(t, id) && r[1..] == ToggleCompletion(todos[1..], id);
      ToggleKeepsInvariants(t.children, id);
      ToggleKeepsInvariants(todos[1..], id);
      if WellFormed(todos) && t.id != id {
        ToggleLeaves(t.children, id);
      }
    }
  }

  /** Toggling inside a list of childless sub-tasks leaves them childless sub-tasks. */
  lemma {:induction false} ToggleLeaves(cs: seq<Todo>, id: string)
    requires forall c | c in cs :: IsLeafSubTodo(c)
    ensures forall c | c in ToggleCompletion(cs, id) :: IsLeafSubTodo(c)
  {
    if cs != [] {
      assert cs[0] in cs && forall c | c in cs[1..] :: c in cs;
      ToggleLeaves(cs[1..], id);
      assert ToggleCompletion(cs[0].children, id) == [];
    }
  }

  // ---------------------------------------------------------------------
  // updateTodoText / updateTextRecursively
  // ---------------------------------------------------------------------

  /** Updating an id that occurs nowhere returns the tree as it was. */
  lemma {:induction false} UpdateAbsentIsNoop(todos: seq<Todo>, id: string, newText: string)
    requires id !in Ids(todos)
    ensures UpdateTextRecursively(todos, id, newText) == todos
  {
    if todos != [] {
      UpdateAbsentIsNoop(todos[0].children, id, newText);
      UpdateAbsentIsNoop(todos[1..], id, newText);
      HeadTail(todos);
    }
  }

  /** Of two updates of the same id, the second one wins. */
  lemma {:induction false} UpdateLastWins(todos: seq<Todo>, id: string, s1: string, s2: string)
    ensures UpdateTextRecursively(UpdateTextRecursively(todos, id, s1), id, s2)
            == UpdateTextRecursively(todos, id, s2)
  {
    if todos != [] {
      var r := UpdateTextRecursively(todos, id, s1);
      assert r[0] == UpdateNode(todos[0], id, s1) && r[1..] == UpdateTextRecursively(todos[1..], id, s1);
      if todos[0].id != id {
        UpdateLastWins(todos[0].children, id, s1, s2);
      }
      UpdateLastWins(todos[1..], id, s1, s2);
    }
  }

  /** Applying the same update twice is the same as applying it once. */
  lemma {:induction false} UpdateIdempotent(todos: seq<Todo>, id: string, newText: string)
    ensures UpdateTextRecursively(UpdateTextRecursively(todos, id, newText), id, newText)
            == UpdateTextRecursively(todos, id, newText)
  {
    UpdateLastWins(todos, id, newText, newText);
  }

  /** With unique ids, setting a task's text to the text it already has changes nothing. */
  lemma {:induction false} UpdateToSameText(todos: seq<Todo>, id: string, n: Todo)
    requires UniqueIds(todos) && Find(todos, id) == Some(n)
    ensures UpdateTextRecursively(todos, id, n.text) == todos
  {
    var t := todos[0];
    if t.id == id {
      UpdateAbsentIsNoop(todos[1..], id, n.text);
    } else if Find(t.children, id).Some? {
      UpdateToSameText(t.children, id, n);
      UpdateAbsentIsNoop(todos[1..], id, n.text);
    } else {
      UpdateAbsentIsNoop(t.children, id, n.text);
      UpdateToSameText(todos[1..], id, n);
    }
    HeadTail(todos);
  }

  /**
   With unique ids, editing a task's text and then setting its original text
   back restores the tree.
   */
  lemma UpdateRestores(todos: seq<Todo>, id: string, n: Todo, newText: string)
    requires UniqueIds(todos) && Find(todos, id) == Some(n)
    ensures UpdateTextRecursively(UpdateTextRecursively(todos, id, newText), id, n.text) == todos
  {
    UpdateLastWins(todos, id, newText, n.text);
    UpdateToSameText(todos, id, n);
  }

  /**
   Updating changes nothing but texts: the shape of the tree, the order of
   tasks, their ids, completion states and sub-task marks are all as before.
   */
  lemma {:induction false} UpdateOnlyChangesText(todos: seq<Todo>, id: string, newText: string)
    ensures Untexted(UpdateTextRecursively(todos, id, newText)) == Untexted(todos)
  {
    if todos != [] {
      var r := UpdateTextRecursively(todos, id, newText);
      assert r[0] == UpdateNode(todos[0], id, newText) && r[1..] == UpdateTextRecursively(todos[1..], id, newText);
      UpdateOnlyChangesText(todos[0].children, id, newText);
      UpdateOnlyChangesText(todos[1..], id, newText);
    }
  }

  /** The task with the updated id comes back with the new text and nothing else changed. */
  lemma {:induction false} UpdateSetsTarget(todos: seq<Todo>, id: string, newText: string, n: Todo)
    requires Find(todos, id) == Some(n)
    ensures Find(UpdateTextRecursively(todos, id, newText), id) == Some(n.(text := newText))
  {
    var t := todos[0];
    var r := UpdateTextRecursively(todos, id, newText);
    assert r[0] == UpdateNode(t, id, newText) && r[1..] == UpdateTextRecursively(todos[1..], id, newText);
    if t.id != id {
      if Find(t.children, id).Some? {
        UpdateSetsTarget(t.children, id, newText, n);
      } else {
        UpdateAbsentIsNoop(t.children, id, newText);
        UpdateSetsTarget(todos[1..], id, newText, n);
      }
    }
  }

  /** Every task with another id keeps its text and its completion state. */
  lemma {:induction false} UpdateKeepsOthers(todos: seq<Todo>, id: string, newText: string, k: string)
    requires k != id
    ensures Find(UpdateTextRecursively(todos, id, newText), k).Some? == Find(todos, k).Some?
    ensures Find(todos, k).Some? ==>
              Find(UpdateTextRecursively(todos, id, newText), k).value.text == Find(todos, k).value.text
              && Find(UpdateTextRecursively(todos, id, newText), k).value.completed == Find(todos, k).value.completed
  {
    UpdateKeepsInvariants(todos, id, newText);
    if todos != [] {
      var t := todos[0];
      var r := UpdateTextRecursively(todos, id, newText);
      assert r[0] == UpdateNode(t, id, newText) && r[1..] == UpdateTextRecursively(todos[1..], id, newText);
      if t.id != k {
        if t.id != id {
          UpdateKeepsOthers(t.children, id, newText, k);
        }
        UpdateKeepsOthers(todos[1..], id, newText, k);
      }
    }
  }

  /** Updating keeps every id, the size, unique ids and the one-level-deep shape. */
  lemma {:induction false} UpdateKeepsInvariants(todos: seq<Todo>, id: string, newText: string)
    ensures Ids(UpdateTextRecursively(todos, id, newText)) == Ids(todos)
    ensures Size(UpdateTextRecursively(todos, id, newText)) == Size(todos)
    ensures UniqueIds(UpdateTextRecursively(todos, id, newText)) == UniqueIds(todos)
    ensures WellFormed(todos) ==> WellFormed(UpdateTextRecursively(todos, id, newText))
  {
    if todos != [] {
      var t := todos[0];
      var r := UpdateTextRecursively(todos, id, newText);
      assert r[0] == UpdateNode(t, id, newText) && r[1..] == UpdateTextRecursively(todos[1..], id, newText);
      UpdateKeepsInvariants(t.children, id, newText);
      UpdateKeepsInvariants(todos[1..], id, newText);
      if WellFormed(todos) && t.id != id {
        UpdateLeaves(t.children, id, newText);
      }
    }
  }

  /** Updating inside a list of childless sub-tasks leaves them childless sub-tasks. */
  lemma {:induction false} UpdateLeaves(cs: seq<Todo>, id: string, newText: string)
    requires forall c | c in cs :: IsLeafSubTodo(c)
    ensures forall c | c in UpdateTextRecursively(cs, id, newText) :: IsLeafSubTodo(c)
  {
    if cs != [] {
      assert cs[0] in cs && forall c | c in cs[1..] :: c in cs;
      UpdateLeaves(cs[1..], id, newText);
      assert UpdateTextRecursively(cs[0].children, id, newText) == [];
    }
  }
}
