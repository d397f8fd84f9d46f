# Employee CRUD screen: a Dafny model

This project models the two pieces of state-transition logic of a small
employee-management screen:

- the **mock REST backend** (`src/mirage/server.ts`): an in-memory store of
  employee records (`id`, `name`, `position`, `department`), seeded with ten
  fixed rows, answering list, get-by-id, create, partial update (PATCH, with a
  404 `{ error: "Employee not found" }` for an unknown id) and delete (204, or
  the same 404);
- the **employee list view** (`src/component/EmployList.tsx`): three state
  cells (`employees`, the create draft `newEmployee`, the optional edit copy
  `editingEmployee`), two modes (Creating when there is no edit copy, Editing
  otherwise) and the handlers for create, update, delete, field change,
  begin-edit and the submit dispatch.

Files:

- `employees.dfy` (module `Employees`): the record, the id-less draft, the
  three field names, an `Option`.
- `table.dfy` (module `Table`): the keyed-table operations both sides use on
  an ordered sequence of records: find by id, remove at a position, replace by
  id (`employees.map`), remove by id (`employees.filter`), and the lemmas that
  tie them together when ids are unique.
- `timestamps.dfy` (module `Timestamps`): the id the view generates,
  `Date.now().toString()`, as the decimal numeral of a natural number, with
  its parser and the round trip.
- `server.dfy` (module `MockServer`): the seed rows, the PATCH merge, and the
  class `EmployeeStore` with a method per route. Its invariant `Valid()` says
  ids are unique.
- `view.dfy` (module `EmployeeView`): the class `EmployeeList` with a method
  per handler, plus the pure record updates (object spread) they use.
- `session.dfy` (module `Session`): the view driving the store, where a
  refresh replaces the view's list with the store's list, plus the concrete
  scenarios (seeded store, patch "3", create "999", delete "1").

The miragejs primitives the routes call (`schema.find`, `employee.update`,
`employee.destroy`, `schema.create`) are not part of this model's source;
they are modelled as first-match lookup (`Table.IndexOf`), field merge
(`MockServer.Merge`), removal at the found position (`Table.RemoveAt`) and
append. The server's answer to each of the view's requests, and the clock
reading for `Date.now()`, are parameters of the view's handlers. For create
and update, a failed request (axios throws on a 404 or a transport error) is
the answer `None`; delete's answer is only whether it succeeded
(`succeeded: bool`), which the composition in `Session` sets to whether the
store replied 204.

The code has no cancel-edit: `setEditingEmployee(null)` appears only at
`src/component/EmployList.tsx:76`, so a successful update is the only way
back to Creating mode, and the model follows this.

Constants: `MockServer.NotFound` is the 404 reply with body
`{ error: "Employee not found" }` (`src/mirage/server.ts:64`, `:77`);
`MockServer.NoContent` is the bare 204 reply (`src/mirage/server.ts:74`);
`EmployeeView.EmptyDraft` is the draft of three empty strings the view
starts with and resets to (`src/component/EmployList.tsx:23-27`, `:54`).

## Model

| member | source | states |
|---|---|---|
| Table.IndexOf | src/mirage/server.ts:57 | the found position holds the id and no earlier row does; None exactly when no row has the id |
| Table.Find | src/mirage/server.ts:40-43 | a found record is stored and has the id; None exactly when no row has the id |
| Table.IndexOfUnique | src/mirage/server.ts:40-43 | with unique ids, looking up a row's id finds that very row |
| Table.RemoveAt | src/mirage/server.ts:73 | one row fewer; rows before the position unchanged, rows after shifted down by one |
| Table.ReplaceById | src/component/EmployList.tsx:71-75 | same length and order; each row with the returned id becomes the returned record, every other row is unchanged |
| Table.RemoveById | src/component/EmployList.tsx:87 | no remaining row has the id; never longer than the input |
| Table.RemoveByIdMembers | src/component/EmployList.tsx:87 | a record survives exactly when it was present and has another id |
| Table.RemoveByIdCounts | src/component/EmployList.tsx:87 | each surviving record keeps its multiplicity; records with the id occur zero times |
| Table.RemoveByIdConcat | src/component/EmployList.tsx:87 | removal distributes over concatenation, so survivors keep their relative order |
| Table.RemoveByIdFresh | src/component/EmployList.tsx:87 | removing an absent id leaves the list unchanged |
| Table.ReplaceByIdFresh | src/component/EmployList.tsx:72-74 | replacing by an absent id leaves the list unchanged |
| Table.RemoveByIdUnique | src/component/EmployList.tsx:84-88 | with unique ids, the view's filter removes exactly the one row the server's delete removes |
| Table.ReplaceByIdUnique | src/component/EmployList.tsx:71-75 | with unique ids, the view's map replaces exactly the one row found for the id |
| Table.AppendFresh | src/mirage/server.ts:46-50 | appending a fresh id keeps ids unique; a later get of it returns the posted record; lookups of other ids are unaffected |
| Table.RemoveFound | src/mirage/server.ts:68-75 | after removing the found row, a get of the id finds nothing, ids stay unique, and exactly the rows with other ids remain |
| Table.ReplaceFound | src/mirage/server.ts:57-61 | replacing the found row by one with the same id keeps ids unique and a get then returns the new record |
| Timestamps.NatToString | src/component/EmployList.tsx:48 | the generated id is a non-empty string of decimal digits without a leading zero |
| Timestamps.ParseNatToString | src/component/EmployList.tsx:48 | reading the generated id back with `ParseDecimal`, the standard value of a digit string, gives the timestamp, so `NatToString` is the decimal numeral |
| Timestamps.NatToStringInjective | src/component/EmployList.tsx:48 | distinct timestamps give distinct ids |
| MockServer.SeedRows | src/mirage/server.ts:18-27 | the ten fixture records, field for field as the seeds block creates them, in that order |
| MockServer.SeedNumbered | src/mirage/server.ts:17-28 | the seeded store has ten rows and row k has id k+1 in decimal, so ids "1" to "10" in order |
| MockServer.SeedUnique | src/mirage/server.ts:17-28 | the seed ids are pairwise distinct |
| MockServer.SeedAlice | src/mirage/server.ts:20 | a get of "3" in the seeded store returns Alice Johnson / UX Designer / Design |
| MockServer.Merge | src/mirage/server.ts:60 | the id is kept; every field present in the PATCH body takes its value; every absent field keeps the old value |
| MockServer.FullPatch | src/component/EmployList.tsx:67-69 | the PATCH body the view sends: the whole edit copy, so every field is present with the edit copy's value |
| MockServer.MergeFull | src/mirage/server.ts:55-60 | a PATCH body carrying all three fields of a record with the same id yields that record |
| MockServer.MergeIdempotent | src/mirage/server.ts:60 | applying the same PATCH body twice equals applying it once |
| MockServer.MergeEmpty | src/mirage/server.ts:60 | an empty PATCH body changes nothing |
| MockServer.EmployeeStore.constructor | src/mirage/server.ts:17-28 | ten successive creates leave the store holding exactly the seed rows in order, with unique ids |
| MockServer.EmployeeStore.SeedRow | src/mirage/server.ts:18-27 | one `server.create` of the seeds block extends the seeded prefix by the next seed row, keeping ids unique |
| MockServer.EmployeeStore.All | src/mirage/server.ts:35-37 | list returns every stored record, in store order, and nothing else |
| MockServer.EmployeeStore.Get | src/mirage/server.ts:40-43 | returns the stored record with the id when there is one, and None exactly when no row has it |
| MockServer.EmployeeStore.Create | src/mirage/server.ts:46-50 | with a fresh id, the store becomes the old store plus the posted record at the end, which is returned; ids stay unique |
| MockServer.EmployeeStore.Patch | src/mirage/server.ts:53-65 | a known id: only that row changes, to the merge, which is returned; an unknown id: 404 with `{ error: "Employee not found" }` and the store unchanged |
| MockServer.EmployeeStore.Delete | src/mirage/server.ts:68-78 | a known id: exactly that row is removed and 204 is returned; an unknown id: the 404 error body and the store unchanged; afterwards no row has the id |
| EmployeeView.WithId | src/component/EmployList.tsx:46-49 | the create body has the given id and the draft's three fields unchanged |
| EmployeeView.SetField | src/component/EmployList.tsx:102 | the named field takes the value; the id and the other two fields are unchanged |
| EmployeeView.SetDraftField | src/component/EmployList.tsx:100 | the named draft field takes the value; the other two are unchanged |
| EmployeeView.SetFieldSame | src/component/EmployList.tsx:102 | writing a field's own value changes nothing |
| EmployeeView.SetFieldTwice | src/component/EmployList.tsx:102 | of two writes to the same field the later wins |
| EmployeeView.EmployeeList.constructor | src/component/EmployList.tsx:22-28 | empty list, empty draft, no edit copy, so Creating mode |
| EmployeeView.EmployeeList.CurrentMode | src/component/EmployList.tsx:115-120 | Editing exactly when an edit copy exists, Creating otherwise |
| EmployeeView.EmployeeList.FormValue | src/component/EmployList.tsx:130-170 | the form shows the edit copy's field while editing and the draft's field otherwise |
| EmployeeView.EmployeeList.Refresh | src/component/EmployList.tsx:34-41 | the list becomes the fetched list; draft and edit copy unchanged |
| EmployeeView.EmployeeList.HandleCreateEmployee | src/component/EmployList.tsx:44-59 | posts the draft under the timestamp's id; on success appends the returned record after the old rows and resets the draft to three empty strings; on failure nothing changes; the edit copy is never touched |
| EmployeeView.EmployeeList.HandleUpdateEmployee | src/component/EmployList.tsx:62-81 | with no edit copy nothing is sent and nothing changes; otherwise the edit copy is sent to its id; on success rows with the returned id are replaced and edit mode ends; on failure nothing changes; the draft is never touched |
| EmployeeView.EmployeeList.HandleDeleteEmployee | src/component/EmployList.tsx:84-91 | on success every row with the id is removed, others kept in order; on failure nothing changes; draft and edit copy untouched |
| EmployeeView.EmployeeList.HandleChange | src/component/EmployList.tsx:93-104 | New mode writes only the named draft field; Edit mode writes only the named field of the edit copy, or does nothing without one; the other record and the list are untouched |
| EmployeeView.EmployeeList.FormInput | src/component/EmployList.tsx:133-134 | an input change in the form's current mode changes exactly the shown value of that field, keeps the mode and leaves the inactive record alone |
| EmployeeView.EmployeeList.BeginEdit | src/component/EmployList.tsx:212 | the edit copy becomes the clicked row, the mode is Editing, list and draft unchanged |
| EmployeeView.EmployeeList.Submit | src/component/EmployList.tsx:114-117 | dispatches to update exactly when an edit copy exists and to create otherwise, with that handler's outcome |
| Session.Delivered | src/component/EmployList.tsx:66-79 | the view receives a record exactly when the server answered with one, and that record |
| Session.CreateAndRefresh | src/component/EmployList.tsx:44-59 | create then refresh: the store gains the draft under the timestamp's id, a get of that id returns it, and the view shows exactly the store's rows |
| Session.UpdateAndRefresh | src/component/EmployList.tsx:62-81 | update then refresh: a known id's row becomes the edit copy and edit mode ends; an unknown id leaves store and edit copy unchanged; either way the view shows the store's rows |
| Session.DeleteInSync | src/component/EmployList.tsx:84-91 | delete without refresh: a view that showed the store's rows still does, and the id is gone from the store |
| Session.PatchAliceScenario | src/mirage/server.ts:53-61 | seeded store, PATCH "3" with a new department only: Alice Johnson / UX Designer / Design Systems |
| Session.CreateScenario | src/mirage/server.ts:46-50 | seeded store, create id "999": eleven rows, the last the created record |
| Session.DeleteScenario | src/mirage/server.ts:68-75 | seeded store, delete "1": 204, nine rows, none with id "1" |
| Session.DeleteUnknownScenario | src/mirage/server.ts:68-78 | seeded store, delete an unknown id: 404 and the seed rows unchanged |

## Left out

- Rendering (the JSX, react-bootstrap layout, labels and headings): user interface, no state logic.
- axios transport, `async`/`await` and the network: the server's answer is a parameter of each handler; `fetchEmployees` is modelled only as `Refresh`, replacing the list with a given sequence, and the composition in `Session` supplies the store's list.
- Refresh inside the handlers: the unconditional `fetchEmployees()` after create and update is not part of the handler methods; `Session.CreateAndRefresh` and `Session.UpdateAndRefresh` perform it after the handler.
- Interleaving of overlapping async handlers and stale reads of `employees` after an `await`: concurrency; each handler is one atomic step.
- `console.log` / `console.error` diagnostics: logging only.
- miragejs internals: the `{ employees: [...] }` envelope and the serialisation of single records (the model takes `response.data` to be the record), JSON parsing of request bodies, default success statuses of GET, POST and PATCH, and the representation of a missing record in GET (modelled as None).
- MockServer.EmployeeStore.Create: requires a fresh id, because what miragejs does on a duplicate id is foreign library behaviour.
- MockServer.EmployeeStore.Patch: the `id` key the view also puts in the PATCH body is not modelled; the body is the three optional fields.
- `Date.now()` as a clock: the timestamp is a parameter; only that distinct timestamps give distinct ids is proved, not that timestamps differ.
- EmployeeView.EmployeeList.HandleChange: input names other than `name`, `position` and `department` are not modelled; the form has only those three inputs.
- `src/main.tsx`: bootstrapping only.
