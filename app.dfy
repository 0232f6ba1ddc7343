/** The App component's state: the `todos` list that every handler replaces
    through `setTodos`. */
module App {
  import opened Todos

  class TodoApp {
    var todos: seq<Todo>

    /** The list invariant the handlers keep. */
    ghost predicate Valid()
      reads this
    {
      UniqueIds(todos)
    }

    /** `useState([])`: the list starts empty. */
    constructor ()
      ensures Valid() && todos == []
    {
      todos := [];
    }

    /** handleClick with the input's value `name`; `freshId` stands for the
        id the uuid generator hands out. */
    method Add(name: string, freshId: Id)
      requires Valid()
      requires freshId !in Ids(todos)
      modifies this
      ensures Valid()
      ensures todos == AddTodo(old(todos), name, freshId)
      ensures Remaining() == if name == "" then old(Remaining()) else old(Remaining()) + 1
    {
      AddPreservesUniqueIds(todos, name, freshId);
      AddRemaining(todos, name, freshId);
      todos := AddTodo(todos, name, freshId);
    }

    /** toggleTodo: flips the first record with the id, or fails with the
        TypeError, leaving the list as it was, when no record has it. */
    method Toggle(id: Id) returns (r: Result<()>)
      requires Valid()
      modifies this
      ensures Valid()
      ensures r.Err? <==> id !in Ids(old(todos))
      ensures r.Err? ==> r == Err(UnknownId(id)) && todos == old(todos)
      ensures r.Ok? ==> Ok(todos) == ToggleTodo(old(todos), id)
      ensures r.Ok? ==> Remaining() == old(Remaining()) + 1 || Remaining() == old(Remaining()) - 1
    {
      var next := ToggleTodo(todos, id);
      match next
      case Err(e) =>
        r := Err(e);
      case Ok(t) =>
        TogglePreservesIds(todos, id);
        ToggleRemaining(todos, id);
        todos := t;
        r := Ok(());
    }

    /** handleClear: keeps only the incomplete records. */
    method ClearCompleted()
      requires Valid()
      modifies this
      ensures Valid()
      ensures todos == Incomplete(old(todos))
      ensures forall k :: 0 <= k < |todos| ==> !todos[k].complete
      ensures Remaining() == old(Remaining())
    {
      ClearPreservesUniqueIds(todos);
      ClearKeepsRemaining(todos);
      todos := Incomplete(todos);
    }

    /** The "Todos left" label: the number of incomplete records. */
    function Remaining(): (n: nat)
      reads this
      ensures n <= |todos|
      ensures n == |IncompleteIndices(todos)|
    {
      RemainingIsCount(todos);
      RemainingCount(todos)
    }
  }

  /** A session: two submissions, a toggle of the first, then a clear. */
  method Session(a: Id, b: Id)
    requires a != b
  {
    var app := new TodoApp();
    app.Add("Buy milk", a);
    app.Add("Walk dog", b);
    assert app.todos == [Todo(a, "Buy milk", false), Todo(b, "Walk dog", false)];
    assert app.Remaining() == 2;
    var r := app.Toggle(a);
    assert r.Ok?;
    ToggleAt([Todo(a, "Buy milk", false), Todo(b, "Walk dog", false)], a, 0);
    assert app.todos == [Todo(a, "Buy milk", true), Todo(b, "Walk dog", false)];
    assert app.Remaining() == 1;
    app.ClearCompleted();
    assert app.todos == [Todo(b, "Walk dog", false)];
  }
}
