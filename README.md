# To-do list: service and client hook

A model of the two pieces of the to-do application that hold its logic.

- **`TodoService`** (back end). Create, read, update and delete over a table of
  `{id, title, completed}` records, plus a completion toggle. The ORM repository is a
  map from id to record, held in a field of the class `TodoService.Service`. The methods
  update that map in place. Each method whose repository call sits inside a `try` (`find`,
  `save` or `delete`) takes a `fault` flag that says whether that call rejects. Each returns a `Result` whose errors are
  the service's three HTTP exceptions: `NotFound` (404), `BadRequest` (400) and
  `InternalServerError` (500). A fourth kind, `StoreRejected`, stands for a raw
  repository rejection. The service's catch-all `catch` blocks (`CatchAll`) turn it into
  `InternalServerError`, so no method ever returns it.
- **`useTodo`** (client). The hook's state is the class `UseTodo.Hook`: the mirrored list,
  the add-input text, the search text, and the editing id and draft. The filtered view is
  the pure function `FilterList`. The handlers are methods. Each handler that talks to the
  server takes the outcome of its request and of the reload after it, and returns the
  requests it issued in order. `StartEditing` only sets the editing state.

`Text` models the string operations the code uses over ASCII: `trim()` (used only to test
for a blank string), `toLowerCase()` and `includes()`. `Todos` holds the record type, and
`Wrappers` holds `Option`.

Four behaviours of the code that the model keeps, though a reader might expect otherwise:

- Listing an empty table is an `InternalServerError`, not a `NotFound`. The `NotFoundException`
  for the empty table is thrown inside the `try`, and the `catch` rethrows every error as a 500.
- `create` does not force `completed` to false. It stores the request's `completed` when the
  request has one, and otherwise the entity's column default. That default lives in an entity
  file that is not part of this model, so it is a constructor parameter of `Service`, beside
  the table the repository already holds.
- `handleAdd` posts the add-input text untrimmed. Trimming is used only for the blank check.
- `update` does not check the title, so an update can store an empty or blank title.

## Model

| member | source | states |
|---|---|---|
| `Text.TrimStart` | ActivityLab_1_Back_end/src/module/todo/todo.service.ts:57 | the result is the suffix of the input left after its leading whitespace, and does not start with whitespace |
| `Text.TrimEnd` | ActivityLab_1_Back_end/src/module/todo/todo.service.ts:57 | the result is the prefix of the input left before its trailing whitespace, and does not end with whitespace |
| `Text.BlankIffAllSpace` | ActivityLab_1_Front_end/src/hooks/useTodo.ts:49 | `!s.trim()` holds exactly when every character of `s` is whitespace (both directions) |
| `Text.StartsWithTextNotBlank` | ActivityLab_1_Back_end/src/module/todo/todo.service.ts:57 | a string whose first character is not whitespace passes the blank check |
| `Text.ToLower` | ActivityLab_1_Front_end/src/hooks/useTodo.ts:26 | lower-casing keeps the length and maps each character through the ASCII lower-case mapping |
| `Text.ToLowerIdempotent` | ActivityLab_1_Front_end/src/hooks/useTodo.ts:26 | lower-casing twice gives the same string as lower-casing once |
| `Text.Contains` | ActivityLab_1_Front_end/src/hooks/useTodo.ts:26 | `includes` is true exactly when the substring occurs at some index of the string |
| `Text.ContainsEmpty` | ActivityLab_1_Front_end/src/hooks/useTodo.ts:26 | every string includes the empty string |
| `TodoService.CatchAll` | ActivityLab_1_Back_end/src/module/todo/todo.service.ts:34-37 | a success passes through the `catch` unchanged, and every failure becomes InternalServerError |
| `TodoService.Merge` | ActivityLab_1_Back_end/src/module/todo/todo.service.ts:86 | a shallow merge keeps the id, and each field the request supplies replaces the stored one while absent fields stay |
| `TodoService.MergeEmptyIsIdentity` | ActivityLab_1_Back_end/src/module/todo/todo.service.ts:86 | a request that supplies no field leaves the record unchanged |
| `TodoService.Toggled` | ActivityLab_1_Back_end/src/module/todo/todo.service.ts:138 | toggling inverts `completed` and keeps the id and the title |
| `TodoService.ToggledTwice` | ActivityLab_1_Back_end/src/module/todo/todo.service.ts:138 | toggling twice restores the record |
| `TodoService.ListingCons` | ActivityLab_1_Back_end/src/module/todo/todo.service.ts:25 | putting the record stored under one key in front of a listing of the rest of the table lists the whole table |
| `TodoService.ListingLength` | ActivityLab_1_Back_end/src/module/todo/todo.service.ts:25 | a listing of a table holds exactly as many records as the table |
| `TodoService.ListingEmptyIff` | ActivityLab_1_Back_end/src/module/todo/todo.service.ts:25-30 | a listing is empty exactly when the table is, so `!todos.length` tests for an empty table |
| `TodoService.Above` | ActivityLab_1_Back_end/src/module/todo/todo.service.ts:63-66 | every finite set of ids has a bound above all its members, so the table always has a fresh id for a new record |
| `TodoService.Service.constructor` | ActivityLab_1_Back_end/src/module/todo/todo.service.ts:15-19 | the service works over the repository it is given, whose records sit under their own ids |
| `TodoService.Service.Find` | ActivityLab_1_Back_end/src/module/todo/todo.service.ts:25 | the repository's `find()` returns each stored record exactly once, in an order the repository picks |
| `TodoService.Service.FindAll` | ActivityLab_1_Back_end/src/module/todo/todo.service.ts:22-38 | success exactly when the store does not fail and the table is non-empty, returning each stored record exactly once, as many as the table holds; every failure, including the empty table, is InternalServerError |
| `TodoService.Service.FindOne` | ActivityLab_1_Back_end/src/module/todo/todo.service.ts:41-52 | returns the record stored under `id`, which carries that id, when present; NotFound exactly when absent; changes nothing |
| `TodoService.Service.Create` | ActivityLab_1_Back_end/src/module/todo/todo.service.ts:55-71 | a missing or blank title is BadRequest with the table unchanged; a failing save is InternalServerError with the table unchanged; otherwise exactly one record under a fresh id is added, with the request's title and its `completed` (else the column default), and is returned |
| `TodoService.Service.Update` | ActivityLab_1_Back_end/src/module/todo/todo.service.ts:74-98 | an absent id is NotFound with no write; a failing save is InternalServerError with the table unchanged; otherwise the merged record replaces only the one under `id` and is returned |
| `TodoService.Service.Remove` | ActivityLab_1_Back_end/src/module/todo/todo.service.ts:101-124 | an absent id is NotFound; a failing delete is InternalServerError with the table unchanged; otherwise exactly that record is removed and a confirmation naming the id is returned |
| `TodoService.Service.SetComplete` | ActivityLab_1_Back_end/src/module/todo/todo.service.ts:127-149 | an absent id is NotFound; a failing save is InternalServerError with the table unchanged; otherwise only that record is replaced by its toggled form, which is returned |
| `TodoService.ToggleTwiceRestoresTable` | ActivityLab_1_Back_end/src/module/todo/todo.service.ts:127-149 | two successful toggles of the same id leave the whole table as it was |
| `TodoService.BuyMilkScenario` | ActivityLab_1_Back_end/src/module/todo/todo.service.ts:22-149 | on a fresh table, creating "Buy milk" gives a record with that title that is not completed. Listing gives exactly that one record, and a toggle completes it. Deleting it returns a confirmation for its id, and then looking it up is NotFound |
| `UseTodo.FilterList` | ActivityLab_1_Front_end/src/hooks/useTodo.ts:25-27 | an item is in the filtered view exactly when it is in the list and its lower-cased title includes the lower-cased search text; the view is no longer than the list |
| `UseTodo.FilterCounts` | ActivityLab_1_Front_end/src/hooks/useTodo.ts:25-27 | the view holds every copy of each matching record that the list holds, and no copy of any other record |
| `UseTodo.FilterIsSubsequence` | ActivityLab_1_Front_end/src/hooks/useTodo.ts:25-27 | the filtered view is a subsequence of the list, so kept items keep their order |
| `UseTodo.FilterAppend` | ActivityLab_1_Front_end/src/hooks/useTodo.ts:25-27 | filtering a concatenation is the concatenation of the filtered parts |
| `UseTodo.FilterEmptySearch` | ActivityLab_1_Front_end/src/hooks/useTodo.ts:25-27 | an empty search text shows the whole list |
| `UseTodo.FilterCaseInsensitive` | ActivityLab_1_Front_end/src/hooks/useTodo.ts:25-27 | lower-casing the search text does not change the view |
| `UseTodo.FilterIdempotent` | ActivityLab_1_Front_end/src/hooks/useTodo.ts:25-27 | filtering the filtered view again changes nothing |
| `UseTodo.SearchBuy` | ActivityLab_1_Front_end/src/hooks/useTodo.ts:25-27 | searching "buy" in ["Buy milk", "Walk dog"] shows "Buy milk" alone |
| `UseTodo.Hook.constructor` | ActivityLab_1_Front_end/src/hooks/useTodo.ts:17-44 | every input starts empty, nothing is being edited, and the list is what the mount-time load returned (empty if it failed) |
| `UseTodo.Hook.FilteredView` | ActivityLab_1_Front_end/src/hooks/useTodo.ts:25-27 | the view holds every copy of each list record that matches the search text and nothing else, as a subsequence of the list |
| `UseTodo.Hook.LoadTodos` | ActivityLab_1_Front_end/src/hooks/useTodo.ts:30-39 | issues one GET; a successful response replaces the list and a failed one leaves it; no other state changes |
| `UseTodo.Hook.HandleAdd` | ActivityLab_1_Front_end/src/hooks/useTodo.ts:47-60 | a blank input sends nothing and changes nothing. Otherwise the input is posted untrimmed. On success the input is cleared and a reload follows; on failure nothing changes. Search and editing state are never touched |
| `UseTodo.Hook.HandleDelete` | ActivityLab_1_Front_end/src/hooks/useTodo.ts:63-72 | sends DELETE for the id and, only on success, reloads; inputs, search and editing state are never touched |
| `UseTodo.Hook.StartEditing` | ActivityLab_1_Front_end/src/hooks/useTodo.ts:75-78 | sets the editing id and the draft to the given title and changes nothing else |
| `UseTodo.Hook.SaveEdit` | ActivityLab_1_Front_end/src/hooks/useTodo.ts:81-95 | a blank draft sends nothing and keeps the editing state. Otherwise the draft is sent as the id's title. On success editing ends (no id, empty draft) and a reload follows; on failure the editing state stays |
| `UseTodo.Hook.ToggleComplete` | ActivityLab_1_Front_end/src/hooks/useTodo.ts:98-107 | sends PATCH for the id and, only on success, reloads; inputs, search and editing state are never touched |

## Left out

- HTTP routing and `ParseIntPipe` coercion (`todo.controller.ts`): they only forward to the service. Ids are plain integers here.
- Dependency-injection wiring and database configuration (`todo.module.ts`, `ormconfig.ts`): configuration, not logic.
- DTO validation decorators: `create-todo.dto.ts` is not part of this model. Request bodies are records with an optional `title` and an optional `completed`, and no other field.
- Entity defaults and auto-increment: the entity file is not part of this model. A new id is any id the table does not hold. A missing `completed` takes the column default, a parameter of the constructor.
- Failures of the `findOne` lookups in `findOne`, `update`, `remove` and `setComplete`: these calls sit outside any `try`. Only the failure of the call inside the `try` (`find`, `save` or `delete`) is modelled.
- Object identity: the repository returns copies of the stored records. The model works on record values, so `Object.assign` and the in-place toggle become new values stored under the same id.
- Exact message text: the error and confirmation strings embed the id, so `Deleted` carries the id and errors carry only their kind.
- Order of `find()` results: the repository chooses it, so `Find` takes the records in an unspecified order and `FindAll` promises each record exactly once.
- Asynchrony on the client: the reload after a mutation is not awaited in the source. The model runs each handler to completion, one after another. Overlapping requests, out-of-order responses and the request timeout are not modelled.
- Client error logging (`console.error`): a failed call only leaves the state as it was.
- The setters the hook returns (`setAddList`, `setSearchList`, `setEditValue`, `setEditingId`): direct writes of the `Hook` fields.
- Unicode `trim` and `toLowerCase`: modelled over ASCII whitespace and ASCII letters only.
- Presentation components (`App.jsx`, `iconButton.jsx`, `textInput.jsx`), including hiding the edit button for completed items: rendering only.
- The Axios instance (`apiAxios.ts`): each request's outcome is a parameter of the handler.
