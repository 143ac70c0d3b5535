# users store of nextapp-trpc, modelled in Dafny

The server side of this small Next.js + tRPC application is one router, `users`,
backed by a process-wide array of user records `{id, name, email, createdAt}`.
It offers two queries over the whole array (`getAll`, `getCount`), one lookup
(`getById`) and three mutations (`create`, `update`, `delete`). A new record gets
the id `max(existing ids, 0) + 1`, a lookup of a missing id throws
`'User not found'`, and the input schema rejects an empty name or a malformed
email before the procedure body runs.

The model keeps the record set as an immutable `seq<User>` and makes each
procedure a pure function. A mutation returns `Ok(Applied(newStore, record))` or
`Err(error)`, and on `Err` the caller keeps its old record set. The modules are:

- `Results` (`results.dfy`): the `Result` type for a value or a thrown error.
- `UserStore` (`user_store.dfy`): the record type and the record-set invariant
  `Valid`, which says ids are unique and positive and names are non-empty, and
  `EmailsPass`, which says every stored email passes the email check. It also
  holds the initial records and the searches the procedures use: the
  `findIndex` scan, `Math.max(...ids, 0)` and the next id.
- `Users` (`users.dfy`): the input check and the six procedures.
- `UsersProperties` (`users_properties.dfy`): lemmas that relate calls to each
  other and to the invariant. They cover invariant preservation, lookups after
  each mutation, undoing a mutation, idempotence and id reuse.
- `Router` (`router.dfy`): one call of any procedure, and a run of calls from
  the initial records. It proves the invariant holds after any run, and checks
  one concrete run: create, count, delete of id 1, list.

The input schema is checked before the procedure body runs, so the input check
runs before the lookup. Invalid input therefore wins over a missing id: `update`
with an invalid input fails with the input issues even when the id is missing.
The validation library reports every broken field, so the model's input error
carries the list of issues in schema order.

The validation library's email check is a parameter, `isEmail: string -> bool`.
The model assumes nothing about it beyond what each proof states: `create` and
`update` store only emails it accepts, and the seed emails pass it exactly when
it accepts `john@example.com` and `jane@example.com`. The clock is a parameter too: `create` takes
the `createdAt` text it stores, and the initial records take theirs.

## Model

| member | source | states |
|---|---|---|
| UserStore.InitialStore | src/server/routers/users.js:5-8 | the starting records satisfy the invariant (unique positive ids, non-empty names), and their ids are exactly 1 and 2 |
| UserStore.InitialEmailsPass | src/server/routers/users.js:6-7 | the seed records' emails pass any email check that accepts the two seed addresses |
| UserStore.MaxId | src/server/routers/users.js:35 | `Math.max(...ids, 0)` is non-negative, at least every id, and is either 0 or an id some record carries |
| UserStore.NextId | src/server/routers/users.js:35 | the new id is at least 1 and above every live id; one less than it is 0 or a live id, so it is exactly max(ids, 0) + 1; on an empty store it is 1 |
| UserStore.FindIndex | src/server/routers/users.js:52-53 | `findIndex` gives -1 exactly when no record has the id; otherwise it gives a position holding the id with no earlier position holding it |
| Users.CheckInput | src/server/routers/users.js:29-32 | the input is accepted exactly when the name is non-empty and the email passes the email check; each broken constraint is reported once, name before email |
| Users.GetById | src/server/routers/users.js:17-25 | succeeds exactly when some record has the id; it returns the first record with that id, and otherwise fails with NotFound |
| Users.Create | src/server/routers/users.js:27-42 | fails with the input issues exactly when the input is invalid. Otherwise it appends exactly one record at the end (earlier records and positions unchanged). The new record has the input name and email and the caller's timestamp. Its id is above every existing id and equals max(ids, 0) + 1 |
| Users.Update | src/server/routers/users.js:44-64 | invalid input fails with the input issues, checked before the lookup. A missing id fails with NotFound. Otherwise only the record at the first matching position changes: it keeps its id and createdAt and takes the new name and email. Length and every other record stay the same, and the updated record is returned |
| Users.Delete | src/server/routers/users.js:66-77 | fails with NotFound exactly when no record has the id. Otherwise it returns the first record with that id and removes it: the length drops by one, records before it stay in place, and records after it shift down by one in the same order |
| UsersProperties.CountIsDistinctIds | src/server/routers/users.js:80-82 | with unique ids, `getCount` equals the number of distinct ids in the store |
| UsersProperties.GetByIdReturnsTheRecord | src/server/routers/users.js:20-24 | with unique ids, `getById` on any record's id returns exactly that record |
| UsersProperties.CreateAddsFreshId | src/server/routers/users.js:34-40 | the created id was not in the store, and the id set grows by exactly that id |
| UsersProperties.CreatePreservesValid | src/server/routers/users.js:34-40 | `create` keeps ids unique and positive and names non-empty, and, since it stores only an email the schema accepted, keeps every stored email passing the email check |
| UsersProperties.UpdatePreservesValid | src/server/routers/users.js:57-61 | `update` keeps ids unique and positive and names non-empty, and, since it stores only an email the schema accepted, keeps every stored email passing the email check |
| UsersProperties.DeletePreservesValid | src/server/routers/users.js:75 | `delete` keeps ids unique and positive and names non-empty, and keeps every stored email passing the email check |
| UsersProperties.GetByIdAfterCreate | src/server/routers/users.js:34-41 | after `create`, `getById` on the new id returns the new record |
| UsersProperties.GetByIdAfterUpdate | src/server/routers/users.js:57-63 | after `update`, `getById` on that id returns the updated record |
| UsersProperties.DeleteRemovesId | src/server/routers/users.js:70-76 | with unique ids, `delete` removes exactly its id from the id set, and a later `getById` on that id fails with NotFound |
| UsersProperties.DeleteThenReinsert | src/server/routers/users.js:75 | putting the returned record back at its former position gives back the original store, so `splice` removed that one record and nothing else |
| UsersProperties.CreateThenDelete | src/server/routers/users.js:34-41 | deleting the record just created returns it and restores the store as it was |
| UsersProperties.UpdateThenRestore | src/server/routers/users.js:57-61 | valid input updates the record at the first position holding its id; updating it back to its former name and email then restores the store and returns the former record |
| UsersProperties.UpdateIdempotent | src/server/routers/users.js:57-63 | repeating an `update` with the same input yields the same store and record |
| UsersProperties.DeleteMaxThenCreate | src/server/routers/users.js:35 | after deleting the record with the largest id, the next id is no larger than the deleted id. It equals that id exactly when the largest id was 1 or one less than it is still live, so the id is reused |
| UsersProperties.CountAfterMutations | src/server/routers/users.js:80-82 | a successful `create` raises `getCount` by one, `update` keeps it, `delete` lowers it by one |
| Router.Dispatch | src/server/routers/users.js:10-83 | queries and failed calls leave the store unchanged. `getById` and `delete` fail exactly on a missing id. A successful `create` keeps the old records as a prefix and adds one; `update` keeps the length; `delete` removes one |
| Router.Run | src/server/routers/users.js:10-83 | a run of calls gives one reply per call, and a run of queries only leaves the store unchanged |
| Router.DispatchPreservesValid | src/server/routers/users.js:10-83 | every call of any procedure keeps the store invariant, and keeps every stored email passing the email check |
| Router.RunPreservesValid | src/server/routers/users.js:10-83 | every run of calls from a valid store ends in a valid store, and from a store whose emails pass the check ends in one whose emails still pass |
| Router.ServerStoreAlwaysValid | src/server/routers/users.js:5-8 | from the initial records, after any run of calls, ids are unique and positive and names non-empty; if the email check accepts the two seed addresses, every stored email passes it |
| Router.CreateCountDeleteList | src/server/routers/users.js:10-83 | from the initial records, these calls in turn: create "A" <a@x.com> gives id 3, the count is 3, delete of id 1 returns John Doe's record, and the list is the records with ids 2 and 3 in that order |
| Router.DeleteThenCreateReusesId | src/server/routers/users.js:35 | from the initial records, deleting id 2 and then creating a record hands out id 2 again |

## Left out

- Email syntax: the validation library checks email format, and its source is not part of this model. The check is an uninterpreted parameter. The seed records at lines 6-7 never go through the schema, so whether their emails pass is a hypothesis of `Router.ServerStoreAlwaysValid`, not a fact the model proves.
- Error message text: the errors carry no text. `NotFound` stands for the thrown `'User not found'`. `BadInput` keeps the list of broken constraints, but not the messages the schema attaches to them or the single message tRPC builds from them.
- Users.Create: the JavaScript engine's limit on the number of call arguments is not modelled. `Math.max(...ids, 0)` spreads every id as an argument, so on a store with more records than that limit the real `create` throws a RangeError. The model's `Create` succeeds on every valid input, whatever the store size.
- Number semantics of `z.number()`: ids are unbounded integers. Non-integral ids, NaN and floating-point comparison are not modelled. Id uniqueness is proved for unbounded integers only. In JavaScript, ids are doubles: once the largest id reaches 2^53, `Math.max(...ids, 0) + 1` rounds back to that id, and `create` would hand out a duplicate. Only `create` assigns ids, so reaching that point takes about 9·10^15 creates.
- Clock: `new Date().toISOString()` becomes a caller-supplied string.
- Process state: the module-level mutable array becomes the store threaded through `Router.Run`. The process lifetime, the tRPC transport and serialisation are not modelled, and neither is concurrent access, which the single-threaded server never has.
- Users.GetAll: has no contract of its own, because it returns the store as-is. `Router.Dispatch` and `Router.Run` state that it leaves the store unchanged, and `Router.CreateCountDeleteList` shows its reply.
- Users.GetCount: has no contract of its own, because it is the store's length. `UsersProperties.CountIsDistinctIds` and `UsersProperties.CountAfterMutations` state what it means.
- The React client (`src/components/UserManagement.js`), the page layout (`src/app/layout.js`) and the router composition (`src/server/index.js`) are presentation and wiring with no store logic. The client's own empty-field guards are not part of the store's contract.
