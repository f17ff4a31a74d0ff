# macrodb table protocol, in Dafny

macrodb generates, from one `table!` declaration per table, the methods
that keep a primary map of records consistent with its secondary
containers:

- `unique` maps a field value to the record's key;
- `index` groups keys by a field value, with empty groups pruned;
- `foreign` requires the referenced key to exist in another table;
- `reverse` blocks deleting a row that another table's grouping still
  refers to.

Each table gets `<t>_next_id`, `<t>_insert`, `<t>_update` and
`<t>_delete`. These are built from `<t>_insert_check`, `<t>_update_check`
and `<t>_delete_check`, which only read, and from `<t>_insert_indices`,
`<t>_update_indices` and `<t>_delete_indices`, which only write. Checks
run in declaration order and the first violation is returned. Writes
happen only after every check has passed.

This project models the generated code for the two tables declared on the
crate's own test database (`src/tests/random.rs:55-75`):

- `users`: primary `users` by id, unique `user_by_email`, unique
  `user_by_name`, foreign `groups` through `group`, grouping
  `users_by_age` and `users_by_group`;
- `groups`: primary `groups` by id, unique `group_by_name`, reverse
  `users_by_group` on its id, grouping `groups_by_privileged`.

Modules:

- `Protocol` (`protocol.dfy`): `Result`, and the early-return expansion
  of a check list (`FirstViolation`), proved to report the first violated
  declaration.
- `Index` (`index.dfy`): what each declaration kind means, independent of
  a particular table.
  - `UniqueIndexOf` and `GroupIndexOf` say what a `unique` and an `index`
    container must hold for a primary map.
  - The check arm each kind contributes on insert, update and delete.
  - The container updates each `*_index` arm performs (`GroupAdd`,
    `GroupRemove`, `UniqueReassign`, `GroupReassign`).
  - Lemmas showing that those updates keep the containers exact and
    undo one another.
  - `NextKey`, the `next_id` loop.
- `Database` (`database.dfy`): the two tables as the class
  `Database.Database`, with one field per container.
  - `Valid()` is the consistency the crate's `check!` macro asserts
    (`src/tests/random.rs:287-350`). It also requires that no grouping
    set is stored empty: the code prunes empty sets, and the "has empty
    index" defect relies on it.
  - Every generated method is a method or function of the class.
  - Each successful operation has a value-level `*Keeps` lemma: the
    operation keeps the invariant and none of its panics can fire.
- `Scenarios` (`scenarios.dfy`): sequences of calls on a fresh database,
  after the crate's unit tests. Their contracts fix the exact outcome and
  contents.

The panics of the generated code mark internal defects, not user errors:

- "index entry already existsted" (spelled so in `src/lib.rs:87`) and
  "index already had new user" on insert;
- "unique index missing item", "unique index had wrong key", "index
  missing", "index already had new user" (`src/lib.rs:136`) and "reverse
  index not empty" on remove;
- "has empty index" in the reverse delete check.

Each one is the precondition of the method or function that contains it.
Every caller proves that precondition from `Valid()`, so the panics are
shown unreachable instead of being turned into errors.

The `reverse` delete arm (`src/lib.rs:122-129`) writes a container that
belongs to the other table: it removes the deleted group's entry from
`users_by_group`. `GroupsDeleteIndices` does the same. `GroupsDelete`
proves that the removal changes nothing, because the check has just
established that no user belongs to the group.

## Model

| member | source | states |
|---|---|---|
| Protocol.FirstViolation | src/lib.rs:57-67 | the expanded checks pass exactly when no declaration is violated, and otherwise report the error of the first violated declaration in declaration order |
| Index.NextKey | src/lib.rs:7-20 | the key generator returns one more than the largest key, 0 for an empty map, and never a key in use |
| Index.PrimaryInsertCheck | src/lib.rs:48-52 | the `primary` insert arm fails exactly when the key is already stored, with the declared error |
| Index.UniqueInsertCheck | src/lib.rs:43-47 | the `unique` insert arm fails exactly when the value is already in the container, with the declared error |
| Index.ForeignInsertCheck | src/lib.rs:38-42 | the `foreign` insert arm fails exactly when the referenced table has no such key, with the declared error |
| Index.UniqueUpdateCheck | src/lib.rs:194-198 | the `unique` update arm fails exactly when the value changed and the new value is already in the container |
| Index.ForeignUpdateCheck | src/lib.rs:199-203 | the `foreign` update arm fails exactly when the reference changed and the new one does not exist |
| Index.ReverseDeleteCheck | src/lib.rs:226-235 | the `reverse` delete arm fails exactly when the other table groups some key under this key; its precondition is that the "has empty index" panic does not fire |
| Index.GroupAdd | src/lib.rs:91-95 | the `index` insert arm creates the value's set if absent and adds the key to it, leaving every other value's set as it was |
| Index.GroupRemove | src/lib.rs:130-141 | the `index` remove arm takes the key out of the value's set and drops the entry once the set is empty, leaving every other entry present; its precondition is that the "index missing" panic does not fire |
| Index.UniqueReassign | src/lib.rs:165-170 | the `unique` update arm leaves the container alone when the value is unchanged, otherwise drops the old value and maps the new one to the key |
| Index.GroupReassign | src/lib.rs:158-164 | the `index` update arm leaves the container alone when the value is unchanged, otherwise moves the key from the old value's set to the new one's |
| Index.UniqueIndexLookup | src/lib.rs:43-47 | looking a value up in an exact unique container finds it exactly when some record holds that value |
| Index.UniqueIndexLookupOther | src/lib.rs:192-198 | for the record under `owner`, the container holds a different value exactly when another record holds it, which is what the update check tests |
| Index.UniqueIndexInjective | src/tests/random.rs:319-339 | an exact unique container admits no two records with the same value |
| Index.GroupIndexLookup | src/lib.rs:226-235 | the grouping set for a value is present exactly when some record holds the value, and contains exactly the keys of those records |
| Index.UniqueIndexExact | src/tests/random.rs:287-346 | the records determine the unique container: two exact ones are equal |
| Index.GroupIndexExact | src/tests/random.rs:287-346 | the records determine the grouping container: two exact ones are equal |
| Index.UniqueIndexInsert | src/lib.rs:85-89 | the insert arm of `unique` on a free value keeps the container exact for the grown map |
| Index.UniqueIndexRemove | src/lib.rs:113-121 | the record's value is present and maps to its key, so the remove does not panic, and removing it keeps the container exact |
| Index.UniqueIndexReplace | src/lib.rs:165-170 | the update arm of `unique` (nothing when unchanged, else remove old then insert new) keeps the container exact for the replaced record |
| Index.GroupIndexInsert | src/lib.rs:91-95 | a fresh key is not yet grouped, so the insert does not panic, and adding it keeps the container exact |
| Index.GroupIndexRemove | src/lib.rs:130-141 | the key is grouped under its value, so the remove does not panic, and removing it with pruning keeps the container exact |
| Index.GroupIndexReplace | src/lib.rs:158-164 | the update arm of `index` does not panic and keeps the container exact for the replaced record |
| Index.KeyedByStore | src/lib.rs:26-31 | storing a record under its own primary key keeps every record under its own key |
| Index.GroupAddThenRemove | src/lib.rs:91-141 | the delete arm of `index` undoes its insert arm, pruning included |
| Index.GroupRemoveThenAdd | src/lib.rs:130-141 | the insert arm of `index` undoes its delete arm |
| Index.UniqueReassignBack | src/lib.rs:165-170 | re-associating a unique value and then re-associating it back restores the container |
| Index.GroupReassignBack | src/lib.rs:158-164 | moving a key to another group and back restores the grouping container |
| Database.UsersInsertKeeps | src/lib.rs:84-109 | for a user whose id, email and name are free and whose group exists, the `users` insert arms do not panic and leave every container exact and every referenced group present |
| Database.UsersDeleteKeeps | src/lib.rs:111-155 | every container holds the stored user's entry, so no remove panics, and the pruned containers are exact for the shrunk map |
| Database.UsersUpdateKeeps | src/lib.rs:157-190 | for a replacement whose email and name no other user holds and whose group exists, the re-association arms do not panic and leave every container exact |
| Database.GroupsInsertKeeps | src/lib.rs:84-109 | for a group whose id and name are free, the `groups` insert arms do not panic and leave its containers exact |
| Database.GroupsDeleteKeeps | src/lib.rs:111-155 | for a group no user belongs to, its removes do not panic, the containers stay exact, and every user's group still exists |
| Database.GroupsUpdateKeeps | src/lib.rs:157-190 | for a replacement whose name no other group holds, the re-association arms do not panic and leave the containers exact |
| Database.Database.Valid | src/tests/random.rs:287-350 | the consistency the `check!` macro asserts: every container reflects its table and every grouped group id exists, so every user's group exists |
| Database.Database.constructor | src/tests/random.rs:41-52 | the derived default database is empty and consistent |
| Database.Database.StoreUser | src/lib.rs:29 | the primary map's insert stores the user under its id and touches nothing else |
| Database.Database.EraseUser | src/lib.rs:76 | the primary map's remove drops the id and touches nothing else |
| Database.Database.StoreGroup | src/lib.rs:280 | the primary map's insert stores the group under its id and touches nothing else |
| Database.Database.EraseGroup | src/lib.rs:76 | the primary map's remove drops the id and touches nothing else |
| Database.Database.UsersNextId | src/lib.rs:7-20 | `users_next_id` is one more than the largest user id, 0 with no users, and never a stored id |
| Database.Database.UsersInsertCheck | src/lib.rs:36-67 | for each error, `users_insert_check` reports it exactly when that declaration is the first violated one in declaration order (id taken, email taken, name taken, group missing), and passes exactly when none is violated |
| Database.Database.UsersInsertIndices | src/lib.rs:84-109 | adds the user's email, name, age group and group entry to exactly those four containers; the precondition is that none of the arms panics |
| Database.Database.UsersInsert | src/lib.rs:22-35 | returns the check's verdict; a failure changes nothing; success stores the user and extends every container; the database stays consistent |
| Database.Database.UsersDeleteCheck | src/lib.rs:221-255 | an unknown id gives the missing error; otherwise the stored row is returned, since no `users` declaration can block a delete |
| Database.Database.UsersDeleteIndices | src/lib.rs:111-155 | removes the user's entries from exactly its four containers, pruning emptied groups; the precondition is that no remove panics |
| Database.Database.UsersDelete | src/lib.rs:69-82 | the missing error changes nothing; otherwise the row is removed from the primary map and every container, then returned, and the database stays consistent |
| Database.Database.UsersUpdateCheck | src/lib.rs:192-219 | a changed email or name fails only when another user holds it, a changed group only when it does not exist, and the first failing declaration in order is reported |
| Database.Database.UsersUpdateIndices | src/lib.rs:157-190 | re-associates exactly the changed unique and grouping fields; unchanged fields and the other table are untouched |
| Database.Database.UsersUpdate | src/lib.rs:269-285 | an unknown id gives the missing error; a failed check changes nothing; success replaces the row, re-indexes the changed fields, returns the previous row, and the database stays consistent |
| Database.Database.GroupsNextId | src/lib.rs:7-20 | `groups_next_id` is one more than the largest group id, 0 with no groups, and never a stored id |
| Database.Database.GroupsInsertCheck | src/lib.rs:36-67 | reports an id clash first, then a name clash, and passes exactly when neither holds |
| Database.Database.GroupsInsertIndices | src/lib.rs:84-109 | adds the name and privilege entries; the reverse declaration has no insert arm |
| Database.Database.GroupsInsert | src/lib.rs:22-35 | returns the check's verdict; a failure changes nothing; success stores the group and extends its containers; the database stays consistent |
| Database.Database.GroupsDeleteCheck | src/lib.rs:221-255 | an unknown id gives the missing error; a group some user belongs to gives the not-empty error; otherwise the stored row is returned |
| Database.Database.GroupsDeleteIndices | src/lib.rs:111-155 | removes the name and privilege entries and the reverse entry under the id in `users_by_group`; the precondition is that no arm panics |
| Database.Database.GroupsDelete | src/lib.rs:69-82 | either error changes nothing; otherwise the group leaves the primary map and its containers, `users_by_group` is unchanged, and the database stays consistent |
| Database.Database.GroupsUpdateCheck | src/lib.rs:192-219 | fails exactly when the name changed to one that another group holds |
| Database.Database.GroupsUpdateIndices | src/lib.rs:157-190 | re-associates a changed name and a changed privilege flag |
| Database.Database.GroupsUpdate | src/lib.rs:269-285 | an unknown id gives the missing error; a failed check changes nothing; success replaces the row, re-indexes the changed fields, returns the previous row, and the database stays consistent |
| Scenarios.Seeded | src/tests.rs:50-61 | on an empty database a group and then a user are accepted, and the exact contents of every container follow |
| Scenarios.InsertSameId | src/tests.rs:63-72 | a second insert under a taken id gives the id error and leaves the users unchanged |
| Scenarios.InsertSameEmail | src/tests.rs:74-84 | a new id with a taken email gives the email error |
| Scenarios.InsertMissingGroup | src/lib.rs:38-42 | a user naming a missing group gives the foreign-key error |
| Scenarios.UpdateEmailAndAge | src/tests.rs:182-201 | changing email and age returns the old row, moves the email entry and the age group, and leaves no old entry |
| Scenarios.UpdateEmailClash | src/tests.rs:203-219 | taking another user's email gives the email error and changes no user |
| Scenarios.DeleteGroupInUse | src/lib.rs:226-235 | a group with a member cannot be deleted |
| Scenarios.DeleteMemberThenGroup | src/lib.rs:221-255 | after its only member is deleted the group can be deleted, and both tables end up empty |
| Scenarios.DeleteTwice | src/lib.rs:69-82 | the first delete returns the stored row; deleting the same id again gives the missing error |

## Left out

- The macro layer is not modelled: `paste!`, the token-level dispatch of
  the `table_*!` macros and the generic instantiation for arbitrary tables.
  The kinds are modelled generically in `Index`, and the generated methods
  are modelled for the two tables above.
- Container choice is not modelled: `BTreeMap`, `HashMap`, `im` and `avl`
  maps and sets are all Dafny `map` and `set`. No operation depends on
  iteration order; `next_id` takes a maximum.
- Database.Database.UsersNextId: ids are unbounded `nat`, so `*key + 1`
  at `u64::MAX` (an overflow panic or wrap-around in Rust) is not
  modelled.
- Database.Database.GroupsNextId: the same, for group ids.
- Ages are the `u8` range as a subset type. The model does no arithmetic
  on them.
- A corrupted database is not modelled. The defect panics are
  preconditions proved unreachable from `Valid()`, so the model does not
  describe what the generated code does when those preconditions fail.
- The `reverse` arm of `update_index` (`src/lib.rs:171-176`) is not in
  `GroupsUpdateIndices`. It runs only when the group id changes, and an
  update looks the row up by its new id. Under `Valid()` the stored row's
  id equals that id, so the arm never runs.
- `_check` functions take `&mut self` in Rust but never write; they are
  functions that only read.
- `Clone` and borrowing are not modelled: records are values, so no caller
  can alias the stored rows.
- The `constraint` kind, `noautokey` tables and compound (tuple) indices
  are not modelled: `src/lib.rs` has no arm for them.
  `tests/constraint.rs` and `src/tests/compound.rs` are not part of this
  model.
- Also not part of this model: the benchmark harness
  (`benches/single_table.rs`), the random operation generators and the
  comparison loop of `src/tests/random.rs`, `examples/users.rs`, and
  `tests/primary-key-clone.rs`.
