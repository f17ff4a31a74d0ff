/**
 * Client sequences on a fresh database, after the crate's own unit tests
 * (inserting, clashing on id or email, updating email and age, deleting),
 * adapted to the two-table instance: a user needs its group to exist, and a
 * group is deletable only once no user belongs to it.
 */
module Scenarios {
  import opened Protocol
  import opened Index
  import opened Database

  const Staff := Group(0, "staff", false)
  const Alice := User(0, 0, "user", "user@example.com", 21)

  /**
   * `can_insert_user`: on an empty database the group and then the user are
   * accepted; the user is stored under its id, its email and name map to the
   * id, and its age and group each group exactly that id.
   */
  method Seeded() returns (db: Database)
    ensures fresh(db) && db.Valid()
    ensures db.users == map[0 := Alice]
    ensures db.userByEmail == map["user@example.com" := 0] && db.userByName == map["user" := 0]
    ensures db.usersByAge == map[21 := {0}] && db.usersByGroup == map[0 := {0}]
    ensures db.groups == map[0 := Staff]
    ensures db.groupByName == map["staff" := 0] && db.groupsByPrivileged == map[false := {0}]
  {
    db := new Database();
    assert !Taken(db.groups, GroupNameOf, Staff.name);
    var group := db.GroupsInsert(Staff);
    assert group.Ok?;
    assert !Taken(db.users, EmailOf, Alice.email);
    assert !Taken(db.users, NameOf, Alice.name);
    var user := db.UsersInsert(Alice);
    assert user.Ok?;
    var none: set<UserId> := {};
    assert none + {0} == {0};
  }

  /** `cannot_insert_user_existing_id`: a second user under a taken id is refused. */
  method InsertSameId() returns (r: Result<(), Error>, users: map<UserId, User>)
    ensures r == Err(UserIdExists)
    ensures users == map[0 := Alice]
  {
    var db := Seeded();
    r := db.UsersInsert(Alice);
    users := db.users;
  }

  /** `cannot_insert_user_existing_email`: a new id with a taken email is refused. */
  method InsertSameEmail() returns (r: Result<(), Error>, users: map<UserId, User>)
    ensures r == Err(UserEmailExists)
    ensures users == map[0 := Alice]
  {
    var db := Seeded();
    assert Taken(db.users, EmailOf, Alice.email) by {
      assert EmailOf(db.users[0]) == Alice.email;
    }
    r := db.UsersInsert(Alice.(id := 1, name := "other"));
    users := db.users;
  }

  /** `foreign groups group`: a user naming a group that does not exist is refused. */
  method InsertMissingGroup() returns (r: Result<(), Error>, users: map<UserId, User>)
    ensures r == Err(GroupNotFound)
    ensures users == map[0 := Alice]
  {
    var db := Seeded();
    assert !Taken(db.users, EmailOf, "other@example.com");
    assert !Taken(db.users, NameOf, "other");
    assert 7 !in db.groups;
    r := db.UsersInsert(User(1, 7, "other", "other@example.com", 21));
    users := db.users;
  }

  /**
   * `can_update_user_all`: changing email and age returns the previous row,
   * moves the email entry and the age group, and drops the old ones.
   */
  method UpdateEmailAndAge() returns (
    previous: Result<User, Error>,
    users: map<UserId, User>, byEmail: map<string, UserId>, byAge: map<UserAge, set<UserId>>)
    ensures previous == Ok(Alice)
    ensures users == map[0 := Alice.(email := "new@example.com", age := 30)]
    ensures byEmail == map["new@example.com" := 0]
    ensures byAge == map[30 := {0}]
  {
    var db := Seeded();
    assert !TakenByOther(db.users, EmailOf, "new@example.com", 0);
    assert !TakenByOther(db.users, NameOf, Alice.name, 0);
    var after := Alice.(email := "new@example.com", age := 30);
    previous := db.UsersUpdate(after);
    ReassignedContainers();
    users, byEmail, byAge := db.users, db.userByEmail, db.usersByAge;
  }

  /** The containers of `Seeded` after Alice's email and age change. */
  lemma ReassignedContainers()
    ensures map[0 := Alice][0 := Alice.(email := "new@example.com", age := 30)]
      == map[0 := Alice.(email := "new@example.com", age := 30)]
    ensures UniqueReassign(map["user@example.com" := 0 as UserId], "user@example.com", "new@example.com", 0)
      == map["new@example.com" := 0]
    ensures GroupReassign(map[21 as UserAge := {0 as UserId}], 21, 30, 0) == map[30 := {0}]
  {
    var none: set<UserId> := {};
    assert {0} - {0} == none;
    assert none + {0} == {0};
  }

  /**
   * `cannot_update_user_existing_email`: taking over another user's email is
   * refused and leaves both users as they were.
   */
  method UpdateEmailClash() returns (result: Result<User, Error>, users: map<UserId, User>)
    ensures result == Err(UserEmailExists)
    ensures users == map[0 := Alice, 1 := Alice.(id := 1, name := "other", email := "other@example.com")]
  {
    var db := Seeded();
    var other := Alice.(id := 1, name := "other", email := "other@example.com");
    assert !Taken(db.users, EmailOf, other.email);
    assert !Taken(db.users, NameOf, other.name);
    var _ := db.UsersInsert(other);
    assert TakenByOther(db.users, EmailOf, Alice.email, 1) by {
      assert EmailOf(db.users[0]) == Alice.email;
    }
    result := db.UsersUpdate(other.(email := Alice.email));
    users := db.users;
  }

  /** `reverse users_by_group id`: a group that a user belongs to cannot be deleted. */
  method DeleteGroupInUse() returns (r: Result<Group, Error>, groups: map<GroupId, Group>)
    ensures r == Err(GroupNotEmpty)
    ensures groups == map[0 := Staff]
  {
    var db := Seeded();
    assert Taken(db.users, GroupOf, 0) by {
      assert GroupOf(db.users[0]) == 0;
    }
    r := db.GroupsDelete(0);
    groups := db.groups;
  }

  /** Once its only member is deleted, the group can be deleted too. */
  method DeleteMemberThenGroup() returns (
    member: Result<User, Error>, group: Result<Group, Error>,
    users: map<UserId, User>, groups: map<GroupId, Group>)
    ensures member == Ok(Alice)
    ensures group == Ok(Staff)
    ensures users == map[] && groups == map[]
  {
    var db := Seeded();
    member := db.UsersDelete(0);
    assert db.users == map[];
    assert !Taken(db.users, GroupOf, 0);
    group := db.GroupsDelete(0);
    users, groups := db.users, db.groups;
  }

  /** Deleting the same user twice: the second delete reports it missing and changes nothing. */
  method DeleteTwice() returns (first: Result<User, Error>, second: Result<User, Error>, users: map<UserId, User>)
    ensures first == Ok(Alice)
    ensures second == Err(UserNotFound)
    ensures users == map[]
  {
    var db := Seeded();
    first := db.UsersDelete(0);
    second := db.UsersDelete(0);
    users := db.users;
  }
}
