/**
 * The session-backed store of todo lists. The session's `:lists` entry is an ordered
 * collection of list records; every operation is a lookup by id followed by an
 * update of that collection.
 */
module SessionStore {
  import opened Wrappers
  import opened Elements

  datatype Todo = Todo(id: int, name: string, completed: bool)

  datatype TodoList = TodoList(id: int, name: string, todos: seq<Todo>)

  function ListId(l: TodoList): int { l.id }

  function TodoId(t: Todo): int { t.id }

  /**
   * The store's invariant: list ids are distinct across the collection and todo ids
   * are distinct within each list.
   */
  ghost predicate WellFormed(lists: seq<TodoList>) {
    UniqueIds(lists, ListId) &&
    forall l :: l in lists ==> UniqueIds(l.todos, TodoId)
  }

  /** The first list with id `listId` exists and holds a todo with id `todoId`. */
  predicate HasTodo(lists: seq<TodoList>, listId: int, todoId: int) {
    HasId(lists, ListId, listId) &&
    HasId(lists[IndexOf(lists, ListId, listId)].todos, TodoId, todoId)
  }

  /** Every todo of `todos` with its status set to completed. */
  function CompleteAll(todos: seq<Todo>): (r: seq<Todo>)
    ensures |r| == |todos|
    ensures forall k :: 0 <= k < |r| ==>
              r[k].id == todos[k].id && r[k].name == todos[k].name && r[k].completed
  {
    if todos == [] then []
    else [todos[0].(completed := true)] + CompleteAll(todos[1..])
  }

  /**
   * Replacing the todos of one list by todos with the same ids, in the same order,
   * keeps the store's invariant.
   */
  lemma RetodoKeepsWellFormed(lists: seq<TodoList>, i: nat, todos: seq<Todo>)
    requires WellFormed(lists) && i < |lists|
    requires |todos| == |lists[i].todos|
    requires forall k :: 0 <= k < |todos| ==> todos[k].id == lists[i].todos[k].id
    ensures WellFormed(lists[i := lists[i].(todos := todos)])
  {
    var after := lists[i := lists[i].(todos := todos)];
    assert forall j :: 0 <= j < |after| ==> after[j].id == lists[j].id;
    forall l | l in after ensures UniqueIds(l.todos, TodoId) {
      var j :| 0 <= j < |after| && after[j] == l;
      if j != i {
        assert l == lists[j];
      } else {
        assert lists[i] in lists;
      }
    }
  }

  class SessionPersistence {
    /** The session's `:lists` entry. */
    var lists: seq<TodoList>

    ghost predicate Valid()
      reads this
    {
      WellFormed(lists)
    }

    /**
     * Binds the store to the session's existing collection, which starts out empty
     * when the session has none yet.
     */
    constructor (session: Option<seq<TodoList>>)
      ensures lists == (if session.Some? then session.value else [])
      ensures session.None? ==> Valid()
    {
      lists := if session.Some? then session.value else [];
    }

    /** The whole collection, in the order the lists were added. */
    function AllLists(): (r: seq<TodoList>)
      reads this
      ensures r == lists
    {
      lists
    }

    /** The first list whose id is `listId`, or None when there is none. */
    function FindList(listId: int): (r: Option<TodoList>)
      reads this
      ensures r.None? <==> forall i :: 0 <= i < |lists| ==> lists[i].id != listId
      ensures r.Some? ==> r.value.id == listId
      ensures r.Some? ==> exists i :: 0 <= i < |lists| && lists[i] == r.value &&
                            forall j :: 0 <= j < i ==> lists[j].id != listId
    {
      match FindIndex(lists, ListId, listId)
      case None => None
      case Some(i) => Some(lists[i])
    }

    /** The first todo with id `todoId` in the list `FindList(listId)` returns. */
    function FindTodo(listId: int, todoId: int): (r: Option<Todo>)
      reads this
      requires HasId(lists, ListId, listId)
      ensures var todos := FindList(listId).value.todos;
              && (r.None? <==> forall k :: 0 <= k < |todos| ==> todos[k].id != todoId)
              && (r.Some? ==> exists k :: 0 <= k < |todos| && todos[k] == r.value &&
                                forall j :: 0 <= j < k ==> todos[j].id != todoId)
      ensures r.Some? ==> r.value.id == todoId
    {
      var todos := lists[IndexOf(lists, ListId, listId)].todos;
      match FindIndex(todos, TodoId, todoId)
      case None => None
      case Some(k) => Some(todos[k])
    }

    /** The name of the todo `FindTodo(listId, todoId)` returns. */
    function TodoName(listId: int, todoId: int): (r: string)
      reads this
      requires HasTodo(lists, listId, todoId)
      ensures var todos := FindList(listId).value.todos;
              exists k :: 0 <= k < |todos| && todos[k].id == todoId && todos[k].name == r &&
                forall j :: 0 <= j < k ==> todos[j].id != todoId
    {
      FindTodo(listId, todoId).value.name
    }

    /**
     * Appends a list with the next list id, the given name and no todos; the lists
     * already there are untouched and keep their order.
     */
    method CreateNewList(listName: string)
      modifies this
      ensures lists == old(lists) + [TodoList(NextElementId(old(lists), ListId), listName, [])]
      ensures !HasId(old(lists), ListId, lists[|lists| - 1].id)
      ensures old(Valid()) ==> Valid()
    {
      var listId := NextElementId(AllLists(), ListId);
      lists := lists + [TodoList(listId, listName, [])];
    }

    /**
     * Removes every list whose id is `listId`, with all of its todos; the other lists
     * keep their relative order, and nothing changes when no list has that id.
     */
    method DeleteList(listId: int)
      modifies this
      ensures lists == Reject(old(lists), ListId, listId)
      ensures FindList(listId) == None
      ensures old(Valid()) && HasId(old(lists), ListId, listId) ==>
                var i := IndexOf(old(lists), ListId, listId);
                lists == old(lists)[..i] + old(lists)[i + 1..]
      ensures old(Valid()) ==> Valid()
    {
      lists := Reject(lists, ListId, listId);
      if old(Valid()) {
        RejectKeepsUnique(old(lists), ListId, listId);
        if HasId(old(lists), ListId, listId) {
          RejectUniqueRemovesOne(old(lists), ListId, listId);
        }
      }
    }

    /** Renames the first list with id `listId`; nothing else changes. */
    method UpdateListName(listId: int, newName: string)
      requires HasId(lists, ListId, listId)
      modifies this
      ensures var i := IndexOf(old(lists), ListId, listId);
              lists == old(lists)[i := old(lists)[i].(name := newName)]
      ensures old(Valid()) ==> Valid()
    {
      var i := IndexOf(lists, ListId, listId);
      lists := lists[i := lists[i].(name := newName)];
      assert forall j :: 0 <= j < |lists| ==> lists[j].id == old(lists)[j].id;
      assert forall j :: 0 <= j < |lists| ==> lists[j].todos == old(lists)[j].todos;
    }

    /**
     * Appends to the first list with id `listId` an incomplete todo with the next todo
     * id of that list and the given name; other lists and the list's earlier todos
     * are untouched.
     */
    method CreateNewTodo(listId: int, todoText: string)
      requires HasId(lists, ListId, listId)
      modifies this
      ensures var i := IndexOf(old(lists), ListId, listId);
              var todos := old(lists)[i].todos;
              lists == old(lists)[i := old(lists)[i].(todos := todos + [Todo(NextElementId(todos, TodoId), todoText, false)])]
      ensures old(Valid()) ==> Valid()
    {
      var i := IndexOf(lists, ListId, listId);
      var list := lists[i];
      var newTodoId := NextElementId(list.todos, TodoId);
      lists := lists[i := list.(todos := list.todos + [Todo(newTodoId, todoText, false)])];
      assert forall j :: 0 <= j < |lists| ==> lists[j].id == old(lists)[j].id;
      assert forall j :: 0 <= j < |lists| && j != i ==> lists[j] == old(lists)[j];
    }

    /**
     * Sets the status of the todo `FindTodo(listId, todoId)` returns; ids, names and
     * every other todo and list are untouched.
     */
    method UpdateTodoStatus(listId: int, todoId: int, newStatus: bool)
      requires HasTodo(lists, listId, todoId)
      modifies this
      ensures var i := IndexOf(old(lists), ListId, listId);
              var todos := old(lists)[i].todos;
              var k := IndexOf(todos, TodoId, todoId);
              lists == old(lists)[i := old(lists)[i].(todos := todos[k := todos[k].(completed := newStatus)])]
      ensures HasTodo(lists, listId, todoId) && FindTodo(listId, todoId).Some?
      ensures FindTodo(listId, todoId).value == old(FindTodo(listId, todoId)).value.(completed := newStatus)
      ensures old(Valid()) ==> Valid()
    {
      var i := IndexOf(lists, ListId, listId);
      var list := lists[i];
      var k := IndexOf(list.todos, TodoId, todoId);
      var todos := list.todos[k := list.todos[k].(completed := newStatus)];
      lists := lists[i := list.(todos := todos)];
      assert forall j :: 0 <= j < |todos| ==> todos[j].id == list.todos[j].id;
      assert HasTodo(lists, listId, todoId) && FindTodo(listId, todoId) == Some(todos[k]) by {
        assert forall j :: 0 <= j < |lists| ==> lists[j].id == old(lists)[j].id;
        FindIndexSameIds(lists, old(lists), ListId, listId);
        FindIndexSameIds(todos, list.todos, TodoId, todoId);
      }
      if old(Valid()) {
        RetodoKeepsWellFormed(old(lists), i, todos);
      }
    }

    /**
     * Marks every todo of the first list with id `listId` as completed, whatever its
     * status was; other lists are untouched.
     */
    method MarkAllComplete(listId: int)
      requires HasId(lists, ListId, listId)
      modifies this
      ensures var i := IndexOf(old(lists), ListId, listId);
              lists == old(lists)[i := old(lists)[i].(todos := CompleteAll(old(lists)[i].todos))]
      ensures old(Valid()) ==> Valid()
    {
      var i := IndexOf(lists, ListId, listId);
      var todos := lists[i].todos;
      ghost var before := todos;
      var k := 0;
      while k < |todos|
        invariant 0 <= k <= |todos| == |before|
        invariant forall j :: 0 <= j < k ==> todos[j] == before[j].(completed := true)
        invariant forall j :: k <= j < |todos| ==> todos[j] == before[j]
      {
        todos := todos[k := todos[k].(completed := true)];
        k := k + 1;
      }
      assert todos == CompleteAll(before);
      lists := lists[i := lists[i].(todos := todos)];
      if old(Valid()) {
        RetodoKeepsWellFormed(old(lists), i, todos);
      }
    }

    /**
     * Removes every todo with id `todoId` from the first list with id `listId`; the
     * remaining todos keep their order and other lists are untouched.
     */
    method DeleteTodo(listId: int, todoId: int)
      requires HasId(lists, ListId, listId)
      modifies this
      ensures var i := IndexOf(old(lists), ListId, listId);
              lists == old(lists)[i := old(lists)[i].(todos := Reject(old(lists)[i].todos, TodoId, todoId))]
      ensures old(Valid()) ==> Valid()
    {
      var i := IndexOf(lists, ListId, listId);
      var list := lists[i];
      lists := lists[i := list.(todos := Reject(list.todos, TodoId, todoId))];
      if old(Valid()) {
        RejectKeepsUnique(list.todos, TodoId, todoId);
      }
      assert forall j :: 0 <= j < |lists| ==> lists[j].id == old(lists)[j].id;
      assert forall j :: 0 <= j < |lists| && j != i ==> lists[j] == old(lists)[j];
    }
  }

  /**
   * Id reuse on lists: create a list, delete it (it holds the largest id), create
   * another, and the second list receives the first one's id; the net effect is
   * that of creating the second list alone.
   */
  method ListIdReuse(store: SessionPersistence, first: string, second: string)
    returns (firstId: int, secondId: int)
    modifies store
    ensures firstId == secondId == NextElementId(old(store.lists), ListId)
    ensures store.lists == old(store.lists) + [TodoList(secondId, second, [])]
  {
    store.CreateNewList(first);
    firstId := store.lists[|store.lists| - 1].id;
    NextIdReused(old(store.lists), store.lists[|store.lists| - 1], ListId);
    AppendThenReject(old(store.lists), store.lists[|store.lists| - 1], ListId);
    store.DeleteList(firstId);
    store.CreateNewList(second);
    secondId := store.lists[|store.lists| - 1].id;
  }

  /**
   * Adding a todo to a list and deleting it again by the id it received restores the
   * store exactly: the list's other todos keep their ids and their order.
   */
  method TodoRoundTrip(store: SessionPersistence, listId: int, text: string)
    returns (todoId: int)
    requires HasId(store.lists, ListId, listId)
    modifies store
    ensures todoId == NextElementId(old(store.lists)[IndexOf(old(store.lists), ListId, listId)].todos, TodoId)
    ensures store.lists == old(store.lists)
  {
    var i := IndexOf(store.lists, ListId, listId);
    store.CreateNewTodo(listId, text);
    assert store.lists[i].id == listId;
    assert forall j :: 0 <= j < i ==> store.lists[j] == old(store.lists)[j];
    assert IndexOf(store.lists, ListId, listId) == i;
    var todos := store.lists[i].todos;
    todoId := todos[|todos| - 1].id;
    AppendThenReject(old(store.lists)[i].todos, todos[|todos| - 1], TodoId);
    store.DeleteTodo(listId, todoId);
    assert store.lists == old(store.lists);
  }
}
