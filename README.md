# Session-backed todo store, in Dafny

This project models `SessionPersistence`, the ephemeral store of a small todo-list web
application. The store keeps the session's `:lists` entry: an ordered collection of list
records `{id, name, todos}`, each todo a record `{id, name, completed}`. Every operation
looks a list (and perhaps a todo) up by id and then updates the collection. New ids come
from one rule: the largest id in the collection plus one, or 1 when it is empty, so an id
is handed out again once the element holding the largest id has been deleted.

Layout:

- `wrappers.dfy` (module `Wrappers`): `Option`, the absent-or-present result of a lookup.
- `elements.dfy` (module `Elements`): what the store does to any id-keyed collection,
  generic in how an element's id is read: the next-id rule (`NextElementId`), the
  first-match lookup (`FindIndex`, Ruby's `find`), removal by id (`Reject`, Ruby's
  `reject!`), and the lemmas about them.
- `session_persistence.dfy` (module `SessionStore`): the `Todo` and `TodoList` records,
  the store's invariant (`WellFormed`: list ids distinct, todo ids distinct within a
  list), and the class `SessionPersistence` whose field `lists` is the session entry.
  The readers are functions over that field; the writers are methods with `modifies this`
  whose `ensures` give the whole new collection in terms of the old one and promise that
  the invariant, if it held, still holds. Two client methods, `ListIdReuse` and
  `TodoRoundTrip`, state what a sequence of calls does.

A missing list raises in every operation that looks a list up and then indexes it:
`find_todo` (`lib/session_persistence.rb:22`), renaming (`:30`), adding a todo (`:35-36`),
setting a status (`:40`), completing all (`:45`), reading a todo's name (`:49`) and
deleting a todo (`:54`). The model makes the list's existence a `requires` of each of
them. On an existing list, a missing todo behaves differently per operation: `find_todo`
returns `nil` (the model's `FindTodo` returns None) and `delete_todo` removes nothing,
while setting a status and reading a name index the `nil` and raise, so for those two the
model also requires the todo. `find_list` and `delete_list` handle a missing list (`nil`
and no change), and so does the model.

The operations do not require the invariant (the session may hold anything when the store
is built); each of them preserves it. When the session has no `:lists` entry yet, the
constructor starts from the empty collection, which satisfies it.

## Model

| member | source | states |
|---|---|---|
| `Elements.MaxId` | lib/session_persistence.rb:60 | the result is the id of some element and no element's id exceeds it |
| `Elements.NextElementId` | lib/session_persistence.rb:59-61 | 1 on an empty collection; otherwise one more than an existing id and greater than every id, hence not the id of any element |
| `Elements.FindIndex` | lib/session_persistence.rb:16-18 | None exactly when no element has the id; otherwise a position holding the id with no earlier position holding it |
| `Elements.FindIndexSameIds` | lib/session_persistence.rb:20-23 | the first match depends only on the ids, so an update that keeps every id keeps every lookup |
| `Elements.Reject` | lib/session_persistence.rb:12-14 | an element survives exactly when it was there and its id differs; the result holds no element with that id and is no longer |
| `Elements.RejectAppend` | lib/session_persistence.rb:13 | removal distributes over concatenation, so the survivors keep their relative order |
| `Elements.RejectAbsent` | lib/session_persistence.rb:13 | removing an id no element has changes nothing |
| `Elements.RejectIdempotent` | lib/session_persistence.rb:12-14 | removing the same id twice equals removing it once |
| `Elements.RejectKeepsUnique` | lib/session_persistence.rb:52-55 | removal keeps pairwise distinct ids distinct |
| `Elements.RejectUniqueRemovesOne` | lib/session_persistence.rb:12-14 | with distinct ids, removal of a present id deletes exactly the element `find` would return and nothing else |
| `Elements.AppendThenReject` | lib/session_persistence.rb:33-37 | appending an element with a fresh id and removing that id restores the collection |
| `Elements.NextIdReused` | lib/session_persistence.rb:59-61 | add an element with the next id and remove it again: the next id is that same id |
| `SessionStore.CompleteAll` | lib/session_persistence.rb:45 | same number of todos, each with its id and name kept and marked completed |
| `SessionStore.RetodoKeepsWellFormed` | lib/session_persistence.rb:39-46 | replacing one list's todos by todos with the same ids keeps ids distinct everywhere |
| `SessionStore.SessionPersistence.constructor` | lib/session_persistence.rb:2-5 | the collection is the session's existing one, or empty (and well formed) when there is none |
| `SessionStore.SessionPersistence.AllLists` | lib/session_persistence.rb:25-27 | returns the stored collection itself, in insertion order |
| `SessionStore.SessionPersistence.FindList` | lib/session_persistence.rb:16-18 | None exactly when no list has the id; otherwise the first list with that id |
| `SessionStore.SessionPersistence.FindTodo` | lib/session_persistence.rb:20-23 | on an existing list: None exactly when the found list has no todo with the id; otherwise its first todo with that id |
| `SessionStore.SessionPersistence.TodoName` | lib/session_persistence.rb:48-50 | the name of the first todo with that id in the found list |
| `SessionStore.SessionPersistence.CreateNewList` | lib/session_persistence.rb:7-10 | appends one list with the next id, the given name and no todos; earlier lists unchanged and in order; the id is fresh; the invariant is kept |
| `SessionStore.SessionPersistence.DeleteList` | lib/session_persistence.rb:12-14 | the collection becomes `Reject` of the old one; afterwards `FindList` of that id is None; under the invariant, exactly the list `find_list` would return is removed and the others keep their order; the invariant is kept |
| `SessionStore.SessionPersistence.UpdateListName` | lib/session_persistence.rb:29-31 | only the name of the first list with the id changes |
| `SessionStore.SessionPersistence.CreateNewTodo` | lib/session_persistence.rb:33-37 | appends to the found list a todo with that list's next todo id, the given text and `completed == false`; nothing else changes; the invariant is kept |
| `SessionStore.SessionPersistence.UpdateTodoStatus` | lib/session_persistence.rb:39-41 | only `completed` of the found todo of the found list changes; reading the todo back shows the new status; the invariant is kept |
| `SessionStore.SessionPersistence.MarkAllComplete` | lib/session_persistence.rb:43-46 | the found list's todos become `CompleteAll` of the old ones; other lists unchanged; the invariant is kept |
| `SessionStore.SessionPersistence.DeleteTodo` | lib/session_persistence.rb:52-55 | the found list's todos become `Reject` of the old ones by the todo id; other lists unchanged; the invariant is kept |
| `SessionStore.ListIdReuse` | lib/session_persistence.rb:7-14 | create a list, delete it by its id, create another: both receive the same id and the net effect is the second creation alone |
| `SessionStore.TodoRoundTrip` | lib/session_persistence.rb:33-55 | add a todo and delete it by the id it received: that id is the list's next todo id, and the store is exactly as before |

## Left out

- `lib/database_persistence.rb`, the SQL-backed store: every behaviour there is decided by the database engine; it is not part of this model.
- `todo.rb`, the web routes, session-cookie setup and view rendering: web plumbing outside the store. The framework's session itself, and its lifetime across requests, are represented only by the value handed to the constructor.
- Name validation (length bounds, uniqueness of list names): no such code is in the store, which stores any string it is given; the model adds no name constraint.
- Return values of the writers: Ruby returns whatever the last expression yields (the collection after `<<`, the assigned value, or `nil` from `reject!` when nothing was removed); no caller in the shown code uses them, and the methods return nothing.
- Aliasing: the Ruby records are mutable hashes shared by reference, and `all_lists` and `find_list` hand out those references. The model treats records as values, so a record stored twice in the session, or mutated by a caller through a returned reference, is not captured.
- Ids are Dafny integers compared with `==`; Ruby's comparison of ids of other types (a string id from a request parameter never equals an integer id) and records without an id are not modelled. Such records come from `todo.rb:26`, which pushes lists with no `:id`: when no record has an id, `max` over the `nil`s yields `nil` and the next id is 1; when records with and without ids are mixed, `max` raises.
