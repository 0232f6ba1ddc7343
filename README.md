# To-do list state, modelled in Dafny

The application is a single React component, `App`, that owns an ordered list
of to-do records `{id, name, complete}` and offers four operations on it:
adding a record from the text input, toggling a record's completion flag,
clearing all completed records, and showing how many records are still
incomplete ("Todos left").

This project models that list and those four operations.

- `todos.dfy`, module `Todos`: the records as a datatype and each handler's
  list computation as a pure function. It holds the lemmas about them:
  - what add, toggle and clear do to the list;
  - that ids stay pairwise distinct;
  - toggle-twice is the identity;
  - clearing keeps exactly the incomplete records in order;
  - how each operation moves the remaining count.
- `app.dfy`, module `App`: the component's mutable state as a class
  `TodoApp` with a `seq<Todo>` field. Each handler is a method that replaces
  the field, as `setTodos` does. The class invariant `Valid()` says that ids
  are distinct. `Session` is a client that runs two adds, a toggle and a
  clear, and checks the list and the count after each step.

Modelling decisions:

- The uuid generator is not modelled. The caller passes the new id as
  `freshId`, and `Add` requires it to be unused in the list.
- The value of the text input is passed in as `name`.
- `find` returns `undefined` for an id that no record has. The next line then
  reads `complete` of `undefined`, which throws a TypeError before `setTodos`
  runs. The model follows the code: `ToggleTodo` returns
  `Err(UnknownId(id))` and `TodoApp.Toggle` leaves the list unchanged and
  reports that error.
- Add rejects only the literal empty string. A name of blanks is appended.
- Stored data that is not valid JSON makes `JSON.parse` throw on load. Nothing
  catches that error, so malformed data is not silently treated as an empty
  list. Loading is outside this model (see below).

## Model

| member | source | states |
|---|---|---|
| `Todos.AddSpec` | src/index.jsx:43-45 | adding leaves the list unchanged if and only if the name is the empty string; otherwise the old records are untouched and one record with the given name, the fresh id and `complete == false` is appended at the end |
| `Todos.AddBlankNameAppends` | src/index.jsx:43 | a name made only of a blank is not rejected: it is appended |
| `Todos.AddPreservesUniqueIds` | src/index.jsx:45 | with distinct ids and an unused new id, ids stay distinct after add, and the id set grows by exactly the new id when the name is non-empty |
| `Todos.AddRemaining` | src/index.jsx:43-45 | a successful add raises the remaining count by one; an empty name leaves it unchanged |
| `Todos.AddAllSpec` | src/index.jsx:41-48 | after a sequence of submissions, the names are the old names followed by the non-empty submitted names in submission order; length and remaining count grow by the number of non-empty names |
| `Todos.AddAllPreservesUniqueIds` | src/index.jsx:45 | if each submission gets its own id, distinct from the others and from those in use, ids stay distinct |
| `Todos.NonEmpty` | src/index.jsx:43 | the accepted names are no more than the submitted ones and none is empty |
| `Todos.FindIndex` | src/index.jsx:36 | `find` yields the first position whose record has the id; it yields nothing if and only if no record has the id |
| `Todos.ToggleTodo` | src/index.jsx:32-39 | toggling fails with `UnknownId` if and only if no record has the id; on success length, ids and names are unchanged at every position |
| `Todos.ToggleAt` | src/index.jsx:35-38 | toggling flips `complete` on the first record carrying the id and leaves every other record as it was |
| `Todos.ToggleUnique` | src/index.jsx:35-38 | with distinct ids, the record carrying the id is the one flipped, and it is the only change |
| `Todos.TogglePreservesIds` | src/index.jsx:35-38 | toggling keeps the id set, so distinct ids stay distinct |
| `Todos.ToggleTwice` | src/index.jsx:35-38 | toggling the same id twice restores the original list |
| `Todos.ToggleRemaining` | src/index.jsx:37 | toggling raises the remaining count by one when the flipped record was complete and lowers it by one when it was not |
| `Todos.FlipRemaining` | src/index.jsx:37 | flipping the record at one position moves the remaining count by exactly one, in the direction given by its old flag |
| `Todos.Incomplete` | src/index.jsx:51 | the filter keeps no completed record, keeps a record if and only if it is in the list and incomplete, and never grows the list |
| `Todos.IncompleteSelects` | src/index.jsx:51 | the cleared list is the subsequence of the old list taken, in increasing order, at exactly the positions whose records are incomplete |
| `Todos.IncompleteAppend` | src/index.jsx:51 | filtering a concatenation is the concatenation of the filtered parts |
| `Todos.IncompleteIdempotent` | src/index.jsx:51 | clearing twice is the same as clearing once |
| `Todos.ClearKeepsRemaining` | src/index.jsx:51 | after clearing no completed record remains and the remaining count is unchanged |
| `Todos.ClearPreservesUniqueIds` | src/index.jsx:51 | clearing only drops records: ids stay distinct and no new id appears |
| `Todos.RemainingCount` | src/index.jsx:66 | the remaining count is at most the list length |
| `Todos.RemainingIsCount` | src/index.jsx:66 | the remaining count equals the number of positions holding an incomplete record |
| `App.TodoApp.constructor` | src/index.jsx:16 | the list starts empty and satisfies the distinct-ids invariant |
| `App.TodoApp.Add` | src/index.jsx:41-48 | keeps distinct ids; the new list is the add of the old one; the remaining count grows by one exactly when the name is non-empty |
| `App.TodoApp.Toggle` | src/index.jsx:32-39 | keeps distinct ids; on an unknown id reports `UnknownId` and leaves the list unchanged; otherwise installs the toggled list and the remaining count moves by one |
| `App.TodoApp.ClearCompleted` | src/index.jsx:50-53 | keeps distinct ids; installs the filtered list, in which no record is complete, with the remaining count unchanged |
| `App.TodoApp.Remaining` | src/index.jsx:66 | the label's count is at most the list length and equals the number of incomplete records |

## Left out

- Rendering: the JSX, `createRoot`, `React.StrictMode` and the `TodoList` child component (src/index.jsx:2-8, 58-76). These are UI, and the `TodoList` component is not part of this model.
- Reading and clearing the text input through `todoNameRef` (src/index.jsx:17, 42, 47). This is DOM I/O; the name is a parameter.
- Persistence (src/index.jsx:21-29). This covers loading from `localStorage`, saving after every change, and the `JSON.parse`/`JSON.stringify` round trip. These are browser I/O and library serialisation. The load/save round trip is therefore not stated.
- `uuidv4()` (src/index.jsx:4, 45): a foreign library. The id is a caller-supplied fresh value.
- React's deferred application of `setTodos`, and the functional updater in `handleClick`. The model applies each update at once.
- Aliasing in `toggleTodo` (src/index.jsx:35-37). The copy is shallow, so the flipped object is shared with the previous state. The model has value semantics, so this has no observable counterpart.
