/**
 * The two tables declared with `table!` on one database struct: `users`
 * (primary `users` by id, unique `user_by_email`, unique `user_by_name`,
 * foreign `groups` through `group`, grouping `users_by_age` and
 * `users_by_group`) and `groups` (primary `groups` by id, unique
 * `group_by_name`, reverse `users_by_group` on its id, grouping
 * `groups_by_privileged`).
 *
 * Each table gets the generated `*_next_id`, `*_insert`, `*_update` and
 * `*_delete` with their `*_check` functions and `*_indices` helpers. A check
 * only reads; an update of the containers runs only after its check passed.
 * The defects the generated code panics on are assertions here, proved
 * unreachable from the invariant `Valid()`.
 */
module Database {
  import opened Protocol
  import opened Index

  type UserId = nat
  type GroupId = nat
  /** Rust `u8`. */
  type UserAge = a: int | 0 <= a < 256

  datatype User = User(id: UserId, group: GroupId, name: string, email: string, age: UserAge)
  datatype Group = Group(id: GroupId, name: string, privileged: bool)

  datatype Error =
    | UserNotFound
    | UserIdExists
    | UserEmailExists
    | UserNameExists
    | GroupNotFound
    | GroupIdExists
    | GroupNameExists
    | GroupNotEmpty

  // The record fields the declarations are bound to.
  function UserIdOf(u: User): UserId { u.id }
  function EmailOf(u: User): string { u.email }
  function NameOf(u: User): string { u.name }
  function AgeOf(u: User): UserAge { u.age }
  function GroupOf(u: User): GroupId { u.group }
  function GroupIdOf(g: Group): GroupId { g.id }
  function GroupNameOf(g: Group): string { g.name }
  function PrivilegedOf(g: Group): bool { g.privileged }

  // ---------------------------------------------------------------------
  // The invariant, on the values of the containers
  // ---------------------------------------------------------------------

  /** The `users` containers reflect the stored users exactly. */
  ghost predicate UsersConsistent(
    users: map<UserId, User>, byEmail: map<string, UserId>, byName: map<string, UserId>,
    byAge: map<UserAge, set<UserId>>, byGroup: map<GroupId, set<UserId>>)
  {
    && KeyedBy(users, UserIdOf)
    && UniqueIndexOf(users, EmailOf, byEmail)
    && UniqueIndexOf(users, NameOf, byName)
    && GroupIndexOf(users, AgeOf, byAge)
    && GroupIndexOf(users, GroupOf, byGroup)
  }

  /** The `groups` containers reflect the stored groups exactly. */
  ghost predicate GroupsConsistent(
    groups: map<GroupId, Group>, byName: map<string, GroupId>, byPrivileged: map<bool, set<GroupId>>)
  {
    && KeyedBy(groups, GroupIdOf)
    && UniqueIndexOf(groups, GroupNameOf, byName)
    && GroupIndexOf(groups, PrivilegedOf, byPrivileged)
  }

  /** `foreign groups group`: every group some user belongs to exists. */
  ghost predicate ReferencesResolve(byGroup: map<GroupId, set<UserId>>, groups: map<GroupId, Group>) {
    forall g :: g in byGroup ==> g in groups
  }

  // ---------------------------------------------------------------------
  // Each successful operation keeps the invariant, and none of its panics fires
  // ---------------------------------------------------------------------

  /**
   * Inserting a user whose id, email and name are free and whose group
   * exists: the insert arms do not panic, the updated containers reflect the
   * grown user map, and every user's group still exists.
   */
  lemma UsersInsertKeeps(
    users: map<UserId, User>, byEmail: map<string, UserId>, byName: map<string, UserId>,
    byAge: map<UserAge, set<UserId>>, byGroup: map<GroupId, set<UserId>>, groups: map<GroupId, Group>,
    data: User)
    requires UsersConsistent(users, byEmail, byName, byAge, byGroup) && ReferencesResolve(byGroup, groups)
    requires data.id !in users && !Taken(users, EmailOf, data.email) && !Taken(users, NameOf, data.name)
    requires data.group in groups
    ensures data.email !in byEmail && data.name !in byName
    ensures data.age in byAge ==> data.id !in byAge[data.age]
    ensures data.group in byGroup ==> data.id !in byGroup[data.group]
    ensures UsersConsistent(
      users[data.id := data], byEmail[data.email := data.id], byName[data.name := data.id],
      GroupAdd(byAge, data.age, data.id), GroupAdd(byGroup, data.group, data.id))
    ensures ReferencesResolve(GroupAdd(byGroup, data.group, data.id), groups)
  {
    UniqueIndexLookup(users, EmailOf, byEmail, data.email);
    UniqueIndexLookup(users, NameOf, byName, data.name);
    UniqueIndexInsert(users, EmailOf, byEmail, data.id, data);
    UniqueIndexInsert(users, NameOf, byName, data.id, data);
    GroupIndexInsert(users, AgeOf, byAge, data.id, data);
    GroupIndexInsert(users, GroupOf, byGroup, data.id, data);
    KeyedByStore(users, UserIdOf, data);
  }

  /**
   * Deleting a stored user: every container holds its entry (no "missing"
   * panic), the pruned containers reflect the shrunk user map, and every
   * remaining user's group still exists.
   */
  lemma UsersDeleteKeeps(
    users: map<UserId, User>, byEmail: map<string, UserId>, byName: map<string, UserId>,
    byAge: map<UserAge, set<UserId>>, byGroup: map<GroupId, set<UserId>>, groups: map<GroupId, Group>,
    id: UserId)
    requires UsersConsistent(users, byEmail, byName, byAge, byGroup) && ReferencesResolve(byGroup, groups)
    requires id in users
    ensures users[id].id == id
    ensures users[id].email in byEmail && byEmail[users[id].email] == id
    ensures users[id].name in byName && byName[users[id].name] == id
    ensures users[id].age in byAge && id in byAge[users[id].age]
    ensures users[id].group in byGroup && id in byGroup[users[id].group]
    ensures UsersConsistent(
      users - {id}, byEmail - {users[id].email}, byName - {users[id].name},
      GroupRemove(byAge, users[id].age, id), GroupRemove(byGroup, users[id].group, id))
    ensures ReferencesResolve(GroupRemove(byGroup, users[id].group, id), groups)
  {
    UniqueIndexRemove(users, EmailOf, byEmail, id);
    UniqueIndexRemove(users, NameOf, byName, id);
    GroupIndexRemove(users, AgeOf, byAge, id);
    GroupIndexRemove(users, GroupOf, byGroup, id);
  }

  /**
   * Replacing a stored user by `data` (same id) whose email and name no other
   * user holds and whose group exists: each changed field's remove and insert
   * do not panic, the re-associated containers reflect the new user map, and
   * every user's group still exists.
   */
  lemma UsersUpdateKeeps(
    users: map<UserId, User>, byEmail: map<string, UserId>, byName: map<string, UserId>,
    byAge: map<UserAge, set<UserId>>, byGroup: map<GroupId, set<UserId>>, groups: map<GroupId, Group>,
    data: User)
    requires UsersConsistent(users, byEmail, byName, byAge, byGroup) && ReferencesResolve(byGroup, groups)
    requires data.id in users
    requires !TakenByOther(users, EmailOf, data.email, data.id)
    requires !TakenByOther(users, NameOf, data.name, data.id)
    requires data.group in groups
    ensures var p := users[data.id];
      && (p.email != data.email ==> p.email in byEmail && byEmail[p.email] == data.id && data.email !in byEmail)
      && (p.name != data.name ==> p.name in byName && byName[p.name] == data.id && data.name !in byName)
      && (p.age != data.age ==>
            && p.age in byAge && data.id in byAge[p.age]
            && (data.age in byAge ==> data.id !in byAge[data.age]))
      && (p.group != data.group ==>
            && p.group in byGroup && data.id in byGroup[p.group]
            && (data.group in byGroup ==> data.id !in byGroup[data.group]))
    ensures var p := users[data.id];
      UsersConsistent(
        users[data.id := data],
        UniqueReassign(byEmail, p.email, data.email, data.id),
        UniqueReassign(byName, p.name, data.name, data.id),
        GroupReassign(byAge, p.age, data.age, data.id),
        GroupReassign(byGroup, p.group, data.group, data.id))
    ensures ReferencesResolve(GroupReassign(byGroup, users[data.id].group, data.group, data.id), groups)
  {
    UniqueIndexLookupOther(users, EmailOf, byEmail, data.email, data.id);
    UniqueIndexLookupOther(users, NameOf, byName, data.name, data.id);
    UniqueIndexReplace(users, EmailOf, byEmail, data.id, data);
    UniqueIndexReplace(users, NameOf, byName, data.id, data);
    GroupIndexReplace(users, AgeOf, byAge, data.id, data);
    GroupIndexReplace(users, GroupOf, byGroup, data.id, data);
    KeyedByStore(users, UserIdOf, data);
  }

  /**
   * Inserting a group whose id and name are free: the insert arms do not
   * panic, and the updated containers reflect the grown group map.
   */
  lemma GroupsInsertKeeps(
    groups: map<GroupId, Group>, byName: map<string, GroupId>, byPrivileged: map<bool, set<GroupId>>,
    data: Group)
    requires GroupsConsistent(groups, byName, byPrivileged)
    requires data.id !in groups && !Taken(groups, GroupNameOf, data.name)
    ensures data.name !in byName
    ensures data.privileged in byPrivileged ==> data.id !in byPrivileged[data.privileged]
    ensures GroupsConsistent(
      groups[data.id := data], byName[data.name := data.id], GroupAdd(byPrivileged, data.privileged, data.id))
  {
    UniqueIndexLookup(groups, GroupNameOf, byName, data.name);
    UniqueIndexInsert(groups, GroupNameOf, byName, data.id, data);
    GroupIndexInsert(groups, PrivilegedOf, byPrivileged, data.id, data);
    KeyedByStore(groups, GroupIdOf, data);
  }

  /**
   * Deleting a stored group no user belongs to: its name and privilege
   * entries are present (no "missing" panic), the pruned containers reflect
   * the shrunk group map, and every user's group still exists.
   */
  lemma GroupsDeleteKeeps(
    groups: map<GroupId, Group>, byName: map<string, GroupId>, byPrivileged: map<bool, set<GroupId>>,
    usersByGroup: map<GroupId, set<UserId>>, id: GroupId)
    requires GroupsConsistent(groups, byName, byPrivileged) && ReferencesResolve(usersByGroup, groups)
    requires id in groups && id !in usersByGroup
    ensures groups[id].id == id
    ensures groups[id].name in byName && byName[groups[id].name] == id
    ensures groups[id].privileged in byPrivileged && id in byPrivileged[groups[id].privileged]
    ensures GroupsConsistent(
      groups - {id}, byName - {groups[id].name}, GroupRemove(byPrivileged, groups[id].privileged, id))
    ensures ReferencesResolve(usersByGroup, groups - {id})
  {
    UniqueIndexRemove(groups, GroupNameOf, byName, id);
    GroupIndexRemove(groups, PrivilegedOf, byPrivileged, id);
  }

  /**
   * Replacing a stored group by `data` (same id) whose name no other group
   * holds: the changed fields' removes and inserts do not panic, and the
   * re-associated containers reflect the new group map.
   */
  lemma GroupsUpdateKeeps(
    groups: map<GroupId, Group>, byName: map<string, GroupId>, byPrivileged: map<bool, set<GroupId>>,
    data: Group)
    requires GroupsConsistent(groups, byName, byPrivileged)
    requires data.id in groups
    requires !TakenByOther(groups, GroupNameOf, data.name, data.id)
    ensures var p := groups[data.id];
      && (p.name != data.name ==> p.name in byName && byName[p.name] == data.id && data.name !in byName)
      && (p.privileged != data.privileged ==>
            && p.privileged in byPrivileged && data.id in byPrivileged[p.privileged]
            && (data.privileged in byPrivileged ==> data.id !in byPrivileged[data.privileged]))
    ensures var p := groups[data.id];
      GroupsConsistent(
        groups[data.id := data],
        UniqueReassign(byName, p.name, data.name, data.id),
        GroupReassign(byPrivileged, p.privileged, data.privileged, data.id))
  {
    UniqueIndexLookupOther(groups, GroupNameOf, byName, data.name, data.id);
    UniqueIndexReplace(groups, GroupNameOf, byName, data.id, data);
    GroupIndexReplace(groups, PrivilegedOf, byPrivileged, data.id, data);
    KeyedByStore(groups, GroupIdOf, data);
  }

  class Database {
    var users: map<UserId, User>
    var userByEmail: map<string, UserId>
    var userByName: map<string, UserId>
    var usersByAge: map<UserAge, set<UserId>>
    var usersByGroup: map<GroupId, set<UserId>>

    var groups: map<GroupId, Group>
    var groupByName: map<string, GroupId>
    var groupsByPrivileged: map<bool, set<GroupId>>

    /**
     * Every container reflects its table's records, and every grouped
     * group id exists; hence every user's group exists.
     */
    ghost predicate Valid()
      reads this
      ensures Valid() ==> forall id :: id in users ==> users[id].group in groups
    {
      && UsersConsistent(users, userByEmail, userByName, usersByAge, usersByGroup)
      && GroupsConsistent(groups, groupByName, groupsByPrivileged)
      && ReferencesResolve(usersByGroup, groups)
    }

    /** `#[derive(Default)]`: every container empty. */
    constructor ()
      ensures Valid()
      ensures users == map[] && userByEmail == map[] && userByName == map[]
      ensures usersByAge == map[] && usersByGroup == map[]
      ensures groups == map[] && groupByName == map[] && groupsByPrivileged == map[]
    {
      users, userByEmail, userByName := map[], map[], map[];
      usersByAge, usersByGroup := map[], map[];
      groups, groupByName, groupsByPrivileged := map[], map[], map[];
    }

    // -------------------------------------------------------------------
    // The primary maps' own `insert` and `remove`
    // -------------------------------------------------------------------

    /** `users.insert(id, data)`: the primary map stores the user under its id. */
    method StoreUser(data: User)
      modifies this
      ensures users == old(users)[data.id := data]
      ensures unchanged(this`userByEmail, this`userByName, this`usersByAge, this`usersByGroup, this`groups, this`groupByName, this`groupsByPrivileged)
    {
      users := users[data.id := data];
    }

    /** `users.remove(&id)`: the primary map drops the id. */
    method EraseUser(id: UserId)
      modifies this
      ensures users == old(users) - {id}
      ensures unchanged(this`userByEmail, this`userByName, this`usersByAge, this`usersByGroup, this`groups, this`groupByName, this`groupsByPrivileged)
    {
      users := users - {id};
    }

    /** `groups.insert(id, data)`: the primary map stores the group under its id. */
    method StoreGroup(data: Group)
      modifies this
      ensures groups == old(groups)[data.id := data]
      ensures unchanged(this`groupByName, this`groupsByPrivileged, this`users, this`userByEmail, this`userByName, this`usersByAge, this`usersByGroup)
    {
      groups := groups[data.id := data];
    }

    /** `groups.remove(&id)`: the primary map drops the id. */
    method EraseGroup(id: GroupId)
      modifies this
      ensures groups == old(groups) - {id}
      ensures unchanged(this`groupByName, this`groupsByPrivileged, this`users, this`userByEmail, this`userByName, this`usersByAge, this`usersByGroup)
    {
      groups := groups - {id};
    }

    // -------------------------------------------------------------------
    // users
    // -------------------------------------------------------------------

    /** `users_next_id`: one more than the largest user id, 0 when there are no users. */
    method UsersNextId() returns (id: UserId)
      ensures id !in users
      ensures users == map[] ==> id == 0
      ensures users != map[] ==> id >= 1 && id - 1 in users
      ensures forall k :: k in users ==> k < id
    {
      id := NextKey(users);
    }

    /**
     * `users_insert_check`: the declarations in order are primary `users`,
     * unique `user_by_email`, unique `user_by_name`, foreign `groups`; the two
     * grouping declarations never fail on insert.
     */
    function UsersInsertCheck(data: User): (r: Result<(), Error>)
      reads this
      requires Valid()
      ensures r == Err(UserIdExists) <==> data.id in users
      ensures r == Err(UserEmailExists) <==>
        data.id !in users && Taken(users, EmailOf, data.email)
      ensures r == Err(UserNameExists) <==>
        data.id !in users && !Taken(users, EmailOf, data.email) && Taken(users, NameOf, data.name)
      ensures r == Err(GroupNotFound) <==>
        data.id !in users && !Taken(users, EmailOf, data.email) && !Taken(users, NameOf, data.name)
        && data.group !in groups
      ensures r.Ok? <==>
        data.id !in users && !Taken(users, EmailOf, data.email) && !Taken(users, NameOf, data.name)
        && data.group in groups
    {
      UniqueIndexLookup(users, EmailOf, userByEmail, data.email);
      UniqueIndexLookup(users, NameOf, userByName, data.name);
      var checks := [
        PrimaryInsertCheck(users, data.id, UserIdExists),
        UniqueInsertCheck(userByEmail, data.email, UserEmailExists),
        UniqueInsertCheck(userByName, data.name, UserNameExists),
        ForeignInsertCheck(groups, data.group, GroupNotFound)
      ];
      assert checks[0].violated ==> FirstViolated(checks, 0);
      assert checks[1].violated ==> FirstViolated(checks, 0) || FirstViolated(checks, 1);
      assert checks[2].violated ==> FirstViolated(checks, 0) || FirstViolated(checks, 1) || FirstViolated(checks, 2);
      assert checks[3].violated ==>
        FirstViolated(checks, 0) || FirstViolated(checks, 1) || FirstViolated(checks, 2) || FirstViolated(checks, 3);
      FirstViolation(checks)
    }

    /**
     * `users_insert_indices`: adds the new user to every container of its own
     * table. The precondition is exactly that none of its panics fires: no
     * unique entry for the new values yet ("index entry already existed"),
     * and the id not yet grouped ("index already had new user").
     */
    method UsersInsertIndices(data: User)
      requires data.email !in userByEmail && data.name !in userByName
      requires data.age in usersByAge ==> data.id !in usersByAge[data.age]
      requires data.group in usersByGroup ==> data.id !in usersByGroup[data.group]
      modifies this
      ensures userByEmail == old(userByEmail)[data.email := data.id]
      ensures userByName == old(userByName)[data.name := data.id]
      ensures usersByAge == GroupAdd(old(usersByAge), data.age, data.id)
      ensures usersByGroup == GroupAdd(old(usersByGroup), data.group, data.id)
      ensures unchanged(this`users, this`groups, this`groupByName, this`groupsByPrivileged)
    {
      // primary `users` and foreign `groups` keep no container here.
      userByEmail := userByEmail[data.email := data.id];
      userByName := userByName[data.name := data.id];
      usersByAge := GroupAdd(usersByAge, data.age, data.id);
      usersByGroup := GroupAdd(usersByGroup, data.group, data.id);
    }

    /**
     * `users_insert`: all checks first; on a violation nothing changes,
     * otherwise the containers and then the primary map take the new user.
     */
    method UsersInsert(data: User) returns (r: Result<(), Error>)
      requires Valid()
      modifies this
      ensures r == old(UsersInsertCheck(data))
      ensures r.Err? ==> unchanged(this)
      ensures r.Ok? ==>
        && users == old(users)[data.id := data]
        && userByEmail == old(userByEmail)[data.email := data.id]
        && userByName == old(userByName)[data.name := data.id]
        && usersByAge == GroupAdd(old(usersByAge), data.age, data.id)
        && usersByGroup == GroupAdd(old(usersByGroup), data.group, data.id)
        && unchanged(this`groups, this`groupByName, this`groupsByPrivileged)
      ensures Valid()
    {
      r := UsersInsertCheck(data);
      if r.Err? {
        return;
      }
      UsersInsertKeeps(users, userByEmail, userByName, usersByAge, usersByGroup, groups, data);
      UsersInsertIndices(data);
      StoreUser(data);
    }

    /**
     * `users_delete_check`: the missing error for an unknown id; no `users`
     * declaration has a delete arm that can fail, so otherwise the stored row.
     */
    function UsersDeleteCheck(id: UserId): (r: Result<User, Error>)
      reads this
      requires Valid()
      ensures r.Ok? <==> id in users
      ensures r.Err? ==> r.error == UserNotFound
      ensures r.Ok? ==> r.value == users[id] && r.value.id == id
    {
      if id !in users then Err(UserNotFound) else Ok(users[id])
    }

    /**
     * `users_delete_indices`: removes the user from every container of its own
     * table. The precondition is exactly that none of its panics fires: each
     * unique entry is present and holds this id ("missing item", "had wrong
     * key"), and each grouping set is present and holds it ("index missing",
     * "already had new user").
     */
    method UsersDeleteIndices(data: User)
      requires data.email in userByEmail && userByEmail[data.email] == data.id
      requires data.name in userByName && userByName[data.name] == data.id
      requires data.age in usersByAge && data.id in usersByAge[data.age]
      requires data.group in usersByGroup && data.id in usersByGroup[data.group]
      modifies this
      ensures userByEmail == old(userByEmail) - {data.email}
      ensures userByName == old(userByName) - {data.name}
      ensures usersByAge == GroupRemove(old(usersByAge), data.age, data.id)
      ensures usersByGroup == GroupRemove(old(usersByGroup), data.group, data.id)
      ensures unchanged(this`users, this`groups, this`groupByName, this`groupsByPrivileged)
    {
      userByEmail := userByEmail - {data.email};
      userByName := userByName - {data.name};
      usersByAge := GroupRemove(usersByAge, data.age, data.id);
      usersByGroup := GroupRemove(usersByGroup, data.group, data.id);
    }

    /**
     * `users_delete`: the missing error, or the stored user removed from its
     * containers and then from the primary map, and returned.
     */
    method UsersDelete(id: UserId) returns (r: Result<User, Error>)
      requires Valid()
      modifies this
      ensures r == old(UsersDeleteCheck(id))
      ensures r.Err? ==> unchanged(this)
      ensures r.Ok? ==>
        && r.value.age in old(usersByAge) && r.value.group in old(usersByGroup)
        && users == old(users) - {id}
        && userByEmail == old(userByEmail) - {r.value.email}
        && userByName == old(userByName) - {r.value.name}
        && usersByAge == GroupRemove(old(usersByAge), r.value.age, id)
        && usersByGroup == GroupRemove(old(usersByGroup), r.value.group, id)
        && unchanged(this`groups, this`groupByName, this`groupsByPrivileged)
      ensures Valid()
    {
      r := UsersDeleteCheck(id);
      if r.Err? {
        return;
      }
      UsersDeleteKeeps(users, userByEmail, userByName, usersByAge, usersByGroup, groups, id);
      UsersDeleteIndices(r.value);
      EraseUser(id);
    }

    /**
     * `users_update_check` for the stored `previous` and the replacement
     * `data`: a unique or foreign declaration is checked only when its field
     * changed, against the new value; so a value fails only when ANOTHER
     * user holds it, and the declaration order decides which error is reported.
     */
    function UsersUpdateCheck(previous: User, data: User): (r: Result<(), Error>)
      reads this
      requires Valid() && data.id in users && previous == users[data.id]
      ensures r == Err(UserEmailExists) <==> TakenByOther(users, EmailOf, data.email, data.id)
      ensures r == Err(UserNameExists) <==>
        !TakenByOther(users, EmailOf, data.email, data.id) && TakenByOther(users, NameOf, data.name, data.id)
      ensures r == Err(GroupNotFound) <==>
        !TakenByOther(users, EmailOf, data.email, data.id) && !TakenByOther(users, NameOf, data.name, data.id)
        && data.group !in groups
      ensures r.Ok? <==>
        !TakenByOther(users, EmailOf, data.email, data.id) && !TakenByOther(users, NameOf, data.name, data.id)
        && data.group in groups
    {
      UniqueIndexLookupOther(users, EmailOf, userByEmail, data.email, data.id);
      UniqueIndexLookupOther(users, NameOf, userByName, data.name, data.id);
      assert previous.group in usersByGroup;
      var checks := [
        UniqueUpdateCheck(userByEmail, previous.email, data.email, UserEmailExists),
        UniqueUpdateCheck(userByName, previous.name, data.name, UserNameExists),
        ForeignUpdateCheck(groups, previous.group, data.group, GroupNotFound)
      ];
      assert checks[0].violated ==> FirstViolated(checks, 0);
      assert checks[1].violated ==> FirstViolated(checks, 0) || FirstViolated(checks, 1);
      assert checks[2].violated ==> FirstViolated(checks, 0) || FirstViolated(checks, 1) || FirstViolated(checks, 2);
      FirstViolation(checks)
    }

    /**
     * `users_update_indices`: every unique or grouping field that changed is
     * re-associated, removing the old value's entry and then inserting the new
     * one. The precondition is exactly that none of the panics of those removes
     * and inserts fires.
     */
    method UsersUpdateIndices(previous: User, data: User)
      requires previous.email != data.email ==>
        previous.email in userByEmail && userByEmail[previous.email] == data.id && data.email !in userByEmail
      requires previous.name != data.name ==>
        previous.name in userByName && userByName[previous.name] == data.id && data.name !in userByName
      requires previous.age != data.age ==>
        && previous.age in usersByAge && data.id in usersByAge[previous.age]
        && (data.age in usersByAge ==> data.id !in usersByAge[data.age])
      requires previous.group != data.group ==>
        && previous.group in usersByGroup && data.id in usersByGroup[previous.group]
        && (data.group in usersByGroup ==> data.id !in usersByGroup[data.group])
      modifies this
      ensures userByEmail == UniqueReassign(old(userByEmail), previous.email, data.email, data.id)
      ensures userByName == UniqueReassign(old(userByName), previous.name, data.name, data.id)
      ensures usersByAge == GroupReassign(old(usersByAge), previous.age, data.age, data.id)
      ensures usersByGroup == GroupReassign(old(usersByGroup), previous.group, data.group, data.id)
      ensures unchanged(this`users, this`groups, this`groupByName, this`groupsByPrivileged)
    {
      // primary `users` and foreign `groups` have no update arm.
      userByEmail := UniqueReassign(userByEmail, previous.email, data.email, data.id);
      userByName := UniqueReassign(userByName, previous.name, data.name, data.id);
      usersByAge := GroupReassign(usersByAge, previous.age, data.age, data.id);
      usersByGroup := GroupReassign(usersByGroup, previous.group, data.group, data.id);
    }

    /**
     * `users_update`: the missing error for an unknown id, else the update
     * check; on success the changed fields are re-indexed, the stored user is
     * replaced and the previous one returned. A failure changes nothing.
     */
    method UsersUpdate(data: User) returns (r: Result<User, Error>)
      requires Valid()
      modifies this
      ensures r.Err? ==> unchanged(this)
      ensures data.id !in old(users) ==> r == Err(UserNotFound)
      ensures data.id in old(users) ==>
        (r.Ok? <==> old(UsersUpdateCheck(users[data.id], data)).Ok?)
      ensures data.id in old(users) && r.Err? ==>
        r == Err(old(UsersUpdateCheck(users[data.id], data)).error)
      ensures r.Ok? ==>
        && data.id in old(users) && r.value == old(users[data.id])
        && users == old(users)[data.id := data]
        && r.value.age in old(usersByAge) && r.value.group in old(usersByGroup)
        && userByEmail == UniqueReassign(old(userByEmail), r.value.email, data.email, data.id)
        && userByName == UniqueReassign(old(userByName), r.value.name, data.name, data.id)
        && usersByAge == GroupReassign(old(usersByAge), r.value.age, data.age, data.id)
        && usersByGroup == GroupReassign(old(usersByGroup), r.value.group, data.group, data.id)
        && unchanged(this`groups, this`groupByName, this`groupsByPrivileged)
      ensures Valid()
    {
      if data.id !in users {
        return Err(UserNotFound);
      }
      var previous := users[data.id];
      var verdict := UsersUpdateCheck(previous, data);
      if verdict.Err? {
        return Err(verdict.error);
      }
      UsersUpdateKeeps(users, userByEmail, userByName, usersByAge, usersByGroup, groups, data);
      UsersUpdateIndices(previous, data);
      StoreUser(data);
      r := Ok(previous);
    }

    // -------------------------------------------------------------------
    // groups
    // -------------------------------------------------------------------

    /** `groups_next_id`: one more than the largest group id, 0 when there are no groups. */
    method GroupsNextId() returns (id: GroupId)
      ensures id !in groups
      ensures groups == map[] ==> id == 0
      ensures groups != map[] ==> id >= 1 && id - 1 in groups
      ensures forall k :: k in groups ==> k < id
    {
      id := NextKey(groups);
    }

    /**
     * `groups_insert_check`: primary `groups`, then unique `group_by_name`;
     * the reverse and grouping declarations never fail on insert.
     */
    function GroupsInsertCheck(data: Group): (r: Result<(), Error>)
      reads this
      requires Valid()
      ensures r == Err(GroupIdExists) <==> data.id in groups
      ensures r == Err(GroupNameExists) <==> data.id !in groups && Taken(groups, GroupNameOf, data.name)
      ensures r.Ok? <==> data.id !in groups && !Taken(groups, GroupNameOf, data.name)
    {
      UniqueIndexLookup(groups, GroupNameOf, groupByName, data.name);
      var checks := [
        PrimaryInsertCheck(groups, data.id, GroupIdExists),
        UniqueInsertCheck(groupByName, data.name, GroupNameExists)
      ];
      assert checks[0].violated ==> FirstViolated(checks, 0);
      assert checks[1].violated ==> FirstViolated(checks, 0) || FirstViolated(checks, 1);
      FirstViolation(checks)
    }

    /**
     * `groups_insert_indices`: adds the new group to its name and privilege
     * containers; the reverse declaration has no insert arm. The precondition
     * is exactly that none of its panics fires.
     */
    method GroupsInsertIndices(data: Group)
      requires data.name !in groupByName
      requires data.privileged in groupsByPrivileged ==> data.id !in groupsByPrivileged[data.privileged]
      modifies this
      ensures groupByName == old(groupByName)[data.name := data.id]
      ensures groupsByPrivileged == GroupAdd(old(groupsByPrivileged), data.privileged, data.id)
      ensures unchanged(this`groups, this`users, this`userByEmail, this`userByName, this`usersByAge, this`usersByGroup)
    {
      groupByName := groupByName[data.name := data.id];
      groupsByPrivileged := GroupAdd(groupsByPrivileged, data.privileged, data.id);
    }

    /** `groups_insert`: all checks first; on success the containers, then the primary map. */
    method GroupsInsert(data: Group) returns (r: Result<(), Error>)
      requires Valid()
      modifies this
      ensures r == old(GroupsInsertCheck(data))
      ensures r.Err? ==> unchanged(this)
      ensures r.Ok? ==>
        && groups == old(groups)[data.id := data]
        && groupByName == old(groupByName)[data.name := data.id]
        && groupsByPrivileged == GroupAdd(old(groupsByPrivileged), data.privileged, data.id)
        && unchanged(this`users, this`userByEmail, this`userByName, this`usersByAge, this`usersByGroup)
      ensures Valid()
    {
      r := GroupsInsertCheck(data);
      if r.Err? {
        return;
      }
      GroupsInsertKeeps(groups, groupByName, groupsByPrivileged, data);
      GroupsInsertIndices(data);
      StoreGroup(data);
    }

    /**
     * `groups_delete_check`: the missing error for an unknown id, then the
     * reverse declaration on `users_by_group`: a group that users still
     * belong to cannot be deleted.
     */
    function GroupsDeleteCheck(id: GroupId): (r: Result<Group, Error>)
      reads this
      requires Valid()
      ensures r == Err(GroupNotFound) <==> id !in groups
      ensures r == Err(GroupNotEmpty) <==> id in groups && Taken(users, GroupOf, id)
      ensures r.Ok? <==> id in groups && !Taken(users, GroupOf, id)
      ensures r.Ok? ==> r.value == groups[id] && r.value.id == id
    {
      if id !in groups then Err(GroupNotFound)
      else
        GroupIndexLookup(users, GroupOf, usersByGroup, id, id);
        // the "has empty index" panic cannot fire: grouping sets are never empty.
        assert id in usersByGroup ==> usersByGroup[id] != {};
        var checks := [ReverseDeleteCheck(usersByGroup, id, GroupNotEmpty)];
        assert checks[0].violated ==> FirstViolated(checks, 0);
        var verdict := FirstViolation(checks);
        if verdict.Err? then Err(verdict.error) else Ok(groups[id])
    }

    /**
     * `groups_delete_indices`: removes the group from its name and privilege
     * containers, and removes the reverse declaration's entry for it from
     * `users_by_group`. The precondition is exactly that none of its panics
     * fires; for the reverse arm, that no non-empty set is left under the id.
     */
    method GroupsDeleteIndices(data: Group)
      requires data.name in groupByName && groupByName[data.name] == data.id
      requires !(data.id in usersByGroup && usersByGroup[data.id] != {})
      requires data.privileged in groupsByPrivileged && data.id in groupsByPrivileged[data.privileged]
      modifies this
      ensures groupByName == old(groupByName) - {data.name}
      ensures groupsByPrivileged == GroupRemove(old(groupsByPrivileged), data.privileged, data.id)
      ensures usersByGroup == old(usersByGroup) - {data.id}
      ensures unchanged(this`groups, this`users, this`userByEmail, this`userByName, this`usersByAge)
    {
      groupByName := groupByName - {data.name};
      usersByGroup := usersByGroup - {data.id};
      groupsByPrivileged := GroupRemove(groupsByPrivileged, data.privileged, data.id);
    }

    /**
     * `groups_delete`: the missing error, the still-referenced error, or the
     * group removed from its containers and the primary map, and returned.
     */
    method GroupsDelete(id: GroupId) returns (r: Result<Group, Error>)
      requires Valid()
      modifies this
      ensures r == old(GroupsDeleteCheck(id))
      ensures r.Err? ==> unchanged(this)
      ensures r.Ok? ==>
        && r.value.privileged in old(groupsByPrivileged)
        && groups == old(groups) - {id}
        && groupByName == old(groupByName) - {r.value.name}
        && groupsByPrivileged == GroupRemove(old(groupsByPrivileged), r.value.privileged, id)
        && unchanged(this`users, this`userByEmail, this`userByName, this`usersByAge, this`usersByGroup)
      ensures Valid()
    {
      r := GroupsDeleteCheck(id);
      if r.Err? {
        return;
      }
      // no user belongs to the group, so `users_by_group` has no entry for it
      GroupIndexLookup(users, GroupOf, usersByGroup, id, id);
      GroupsDeleteKeeps(groups, groupByName, groupsByPrivileged, usersByGroup, id);
      assert usersByGroup - {id} == usersByGroup;
      GroupsDeleteIndices(r.value);
      EraseGroup(id);
    }

    /**
     * `groups_update_check`: only unique `group_by_name` has an update arm
     * that can fail, and only when the name changed to one another group holds.
     */
    function GroupsUpdateCheck(previous: Group, data: Group): (r: Result<(), Error>)
      reads this
      requires Valid() && data.id in groups && previous == groups[data.id]
      ensures r == Err(GroupNameExists) <==> TakenByOther(groups, GroupNameOf, data.name, data.id)
      ensures r.Ok? <==> !TakenByOther(groups, GroupNameOf, data.name, data.id)
    {
      UniqueIndexLookupOther(groups, GroupNameOf, groupByName, data.name, data.id);
      var checks := [UniqueUpdateCheck(groupByName, previous.name, data.name, GroupNameExists)];
      assert checks[0].violated ==> FirstViolated(checks, 0);
      FirstViolation(checks)
    }

    /**
     * `groups_update_indices`: re-associates a changed name and a changed
     * privilege flag. The precondition is exactly that none of the panics of
     * those removes and inserts fires.
     */
    method GroupsUpdateIndices(previous: Group, data: Group)
      requires previous.name != data.name ==>
        previous.name in groupByName && groupByName[previous.name] == data.id && data.name !in groupByName
      requires previous.privileged != data.privileged ==>
        && previous.privileged in groupsByPrivileged && data.id in groupsByPrivileged[previous.privileged]
        && (data.privileged in groupsByPrivileged ==> data.id !in groupsByPrivileged[data.privileged])
      modifies this
      ensures groupByName == UniqueReassign(old(groupByName), previous.name, data.name, data.id)
      ensures groupsByPrivileged ==
        GroupReassign(old(groupsByPrivileged), previous.privileged, data.privileged, data.id)
      ensures unchanged(this`groups, this`users, this`userByEmail, this`userByName, this`usersByAge, this`usersByGroup)
    {
      // primary `groups` has no update arm, and the arm of reverse
      // `users_by_group` runs only when the id changed, which an update never does.
      groupByName := UniqueReassign(groupByName, previous.name, data.name, data.id);
      groupsByPrivileged := GroupReassign(groupsByPrivileged, previous.privileged, data.privileged, data.id);
    }

    /**
     * `groups_update`: the missing error for an unknown id, else the name
     * check; on success the changed fields are re-indexed, the stored group is
     * replaced and the previous one returned. A failure changes nothing.
     */
    method GroupsUpdate(data: Group) returns (r: Result<Group, Error>)
      requires Valid()
      modifies this
      ensures r.Err? ==> unchanged(this)
      ensures data.id !in old(groups) ==> r == Err(GroupNotFound)
      ensures data.id in old(groups) ==>
        (r.Ok? <==> old(GroupsUpdateCheck(groups[data.id], data)).Ok?)
      ensures data.id in old(groups) && r.Err? ==>
        r == Err(old(GroupsUpdateCheck(groups[data.id], data)).error)
      ensures r.Ok? ==>
        && data.id in old(groups) && r.value == old(groups[data.id])
        && groups == old(groups)[data.id := data]
        && r.value.privileged in old(groupsByPrivileged)
        && groupByName == UniqueReassign(old(groupByName), r.value.name, data.name, data.id)
        && groupsByPrivileged ==
             GroupReassign(old(groupsByPrivileged), r.value.privileged, data.privileged, data.id)
        && unchanged(this`users, this`userByEmail, this`userByName, this`usersByAge, this`usersByGroup)
      ensures Valid()
    {
      if data.id !in groups {
        return Err(GroupNotFound);
      }
      var previous := groups[data.id];
      var verdict := GroupsUpdateCheck(previous, data);
      if verdict.Err? {
        return Err(verdict.error);
      }
      GroupsUpdateKeeps(groups, groupByName, groupsByPrivileged, data);
      GroupsUpdateIndices(previous, data);
      StoreGroup(data);
      r := Ok(previous);
    }
  }
}
