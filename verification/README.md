# To-do list store, modelled in Dafny

This project models the state logic of a single-page to-do list application.
The list is an ordered sequence of entries `{id, item}`, newest first. It
changes only through a reducer, a pure function from the current list and an
action to the next list. The reducer handles four actions:

- `setTodo` replaces the whole list. The application uses it to rehydrate
  the list from storage at start-up.
- `add` puts a new entry at the front.
- `delete` filters out every entry with the given id.
- `saveEdit` rewrites the text of every entry with the given id.

Button handlers sit in front of the reducer. "Add" and an entry's "Save"
refuse empty text with an inline error and dispatch nothing. "Delete"
dispatches only when the user confirms the prompt.

Files:

- `todo_state.dfy` (module `TodoState`) holds the entities: `Todo`,
  `Action`, and the predicates for a well-formed list (`UniqueIds`,
  `NoEmptyItems`, `WellFormed`). It also holds two reference notions used to
  state properties: `IsSubsequence` and `Reversed`.
- `reducer.dfy` (module `Reducer`) holds the reducer `Reduce`, its delete
  and edit helpers `Without` and `Edited`, the fold `Run` over a sequence of
  actions, and the lemmas about each action.
- `controls.dfy` (module `Controls`) holds the button handlers `AddBtn`,
  `DeleteBtn` and `SaveBtn`. `Apply` turns a handler's `Outcome` into the
  next list. `Session` runs a sequence of user events. The lemmas show that
  every handler, and every session, keeps the list well-formed.

The reducer is modelled as written:

- `delete` removes every entry with the id. With unique ids that is at most
  one entry (`DeletePresentLength`).
- `saveEdit` rewrites the text of every entry with the id.
- The reducer validates nothing. Only the buttons reject empty text.

The empty-text check is JavaScript falsiness applied to a text-field value,
which is always a string. So it rejects exactly the empty string. Text made
only of spaces is accepted, and the model accepts it too.

## Model

| member | source | states |
|---|---|---|
| `Reducer.Reduce` | src/components/TodoList.jsx:12-35 | `setTodo` yields the given list. `add` grows the list by one, with the new entry first and the old list after it. `delete` never grows the list and leaves no entry with the id. `saveEdit` keeps the length. |
| `Reducer.Without` | src/components/TodoList.jsx:21-24 | The filtered list is no longer than the input. No entry in it has the deleted id. Every entry in it comes from the input. |
| `Reducer.Edited` | src/components/TodoList.jsx:25-33 | The edited list has the same length and the same id at every position. Matching positions get the new text. All other positions keep their text. |
| `Reducer.SetTodoIgnoresState` | src/components/TodoList.jsx:14-16 | `setTodo` returns exactly the supplied list, in order, whatever the prior state. |
| `Reducer.AddPrepends` | src/components/TodoList.jsx:17-20 | After `add`, the length is one more. The new entry is at index 0, and old entry `i` is at index `i + 1`. |
| `Reducer.AddUniqueIds` | src/components/TodoList.jsx:17-20 | Ids are unique after `add` if and only if they were unique before and the new id was absent. |
| `Reducer.AddsNewestFirst` | src/components/TodoList.jsx:17-20 | Dispatching the adds of a list of entries in turn puts them, in reverse order, in front of the existing list. |
| `Reducer.AddsFromEmpty` | src/components/TodoList.jsx:17-20 | Starting from the empty list, a series of adds gives one entry per add, with the last add first. When the added ids are distinct, the resulting ids are unique. |
| `Reducer.DeleteAbsentIsNoop` | src/components/TodoList.jsx:21-24 | `delete` of an id that is not present leaves the list unchanged. |
| `Reducer.DeleteIdempotent` | src/components/TodoList.jsx:21-24 | Applying `delete(id)` twice gives the same list as applying it once. |
| `Reducer.DeleteIsSubsequence` | src/components/TodoList.jsx:21-24 | The result of `delete` is an order-preserving subsequence of the old list. |
| `Reducer.DeleteKeepsOthers` | src/components/TodoList.jsx:21-24 | Every entry whose id differs keeps its number of occurrences after `delete`. |
| `Reducer.DeleteCharacterised` | src/components/TodoList.jsx:21-24 | Three properties together single out the result of `delete`: an order-preserving subsequence, no entry with the id, and the other entries kept with their counts. |
| `Reducer.DeletePresentLength` | src/components/TodoList.jsx:21-24 | With unique ids, deleting a present id shortens the list by exactly one. |
| `Reducer.DeleteKeepsWellFormed` | src/components/TodoList.jsx:21-24 | `delete` keeps ids unique and items non-empty. |
| `Reducer.SaveEditPointwise` | src/components/TodoList.jsx:25-33 | `saveEdit` keeps the length. Each matching position becomes `{id, data}`, and every other entry is unchanged. |
| `Reducer.SaveEditLastWriteWins` | src/components/TodoList.jsx:25-33 | `saveEdit(id, x)` followed by `saveEdit(id, y)` equals `saveEdit(id, y)`. |
| `Reducer.SaveEditAbsentIsNoop` | src/components/TodoList.jsx:25-33 | `saveEdit` with an absent id leaves the list unchanged. |
| `Reducer.SaveEditKeepsWellFormed` | src/components/TodoList.jsx:25-33 | `saveEdit` with non-empty text keeps ids unique and items non-empty. |
| `Reducer.ScenarioTwoAdds` | src/components/TodoList.jsx:17-20 | From the empty list, adding ("1","Buy milk") and then ("2","Walk dog") gives `[{2,"Walk dog"},{1,"Buy milk"}]`. |
| `Reducer.ScenarioDeleteAbsent` | src/components/TodoList.jsx:21-24 | Deleting id "2" from `[{1,"A"}]` leaves it unchanged. |
| `Reducer.ScenarioSaveEdit` | src/components/TodoList.jsx:25-33 | Saving "A2" into id "1" of `[{1,"A"},{2,"B"}]` gives `[{1,"A2"},{2,"B"}]`. |
| `Controls.AddBtn` | src/components/TodoList.jsx:67-77 | The button refuses if and only if the input is empty, and then shows the "Todo input cannot be empty!" message. Otherwise it dispatches an `add` of the non-empty input under the fresh id. |
| `Controls.DeleteBtn` | src/components/TodoList.jsx:86-104 | The button never refuses. It dispatches if and only if the user confirmed, and what it dispatches is `delete(id)`. |
| `Controls.SaveBtn` | src/components/TodoItems.jsx:9-15 | The button refuses if and only if the edited text is empty, with the same message. Otherwise it dispatches a `saveEdit` of the non-empty text for the entry's id. |
| `Controls.Apply` | src/components/TodoList.jsx:67-72 | A handler that refuses or is cancelled leaves the list unchanged. |
| `Controls.AddBtnEffect` | src/components/TodoList.jsx:67-77 | Empty input leaves the list unchanged. Non-empty input puts `{freshId, input}` in front of the list. |
| `Controls.DeleteBtnEffect` | src/components/TodoList.jsx:95-100 | A cancelled prompt leaves the list unchanged. A confirmed prompt removes every entry with the id. The remaining entries keep their order, and every entry with another id keeps its number of occurrences. |
| `Controls.SaveBtnEffect` | src/components/TodoList.jsx:106-111 | Empty text leaves the list unchanged. Otherwise the length is kept, matching positions become `{id, text}`, and all others are unchanged. |
| `Controls.Session` | src/components/TodoList.jsx:141-155 | Runs a series of clicks on the Add, Delete and Save buttons, each through its handler. A session in which no handler dispatches leaves the list unchanged. |
| `Controls.HandleKeepsWellFormed` | src/components/TodoList.jsx:67-116 | Any single add, delete or save interaction keeps ids unique and items non-empty, given a fresh id for an add. |
| `Controls.SessionKeepsWellFormed` | src/components/TodoList.jsx:67-116 | A whole session of interactions keeps the list well-formed, given that each add draws an id absent from the list at that moment. |

## Left out

- Persistence is not modelled: reading the list from `localStorage`, `JSON.parse`, writing it back with `JSON.stringify`, and the silent fallback to an empty list. This is browser I/O and library code. `setTodo`, which the load path dispatches, is modelled, and it accepts any list without validation.
- Entries carry only `id` and `item`. An object read from storage with extra fields would keep them through `saveEdit`'s object spread. The model cannot represent such fields.
- Id generation (`uuidv4()`) is a parameter (`freshId`). Its freshness is a precondition of `HandleKeepsWellFormed` and, through `FreshIds`, of `SessionKeepsWellFormed`.
- The confirmation dialog is asynchronous and shown by a third-party library. It is modelled as a `confirmed` parameter of `DeleteBtn`. The toasts, the "Deleted!" acknowledgement and the error banner are presentation. Only the error text is kept, in `Outcome.Refused`.
- React state is not modelled: hooks, refs, focus handling, `setTimeout`, the `isEdit` toggle, clearing the text field and error after a successful add or save, and all rendering.
- An action with an unknown type makes the reducer return `undefined`. A closed `Action` datatype cannot represent such an action, so this case is not modelled.
- `SessionKeepsWellFormed`: sessions contain only user events (add, delete, save). A `setTodo` from storage is not an event, because it does not validate its list and may break the invariant.
