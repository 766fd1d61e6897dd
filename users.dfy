/** `POST /users/<user_name>/<user_type>`: registers a user under a name nobody holds. */
module Users {
  import opened Wrappers
  import opened Query
  import opened Models
  import opened Replies
  import UserType

  /** `create_user` as a function of the tables before the call. The type is checked
      before the name, and it is stored as given, not in its normal form. */
  function Create(t: Tables, userName: string, userType: string): (out: Outcome)
    ensures out.sent == [] && out.tables == t.(users := out.tables.users)
    ensures out.reply.status in {201, 409}
    ensures out.reply.status == 201 <==> out.tables != t
    ensures out.tables != t ==> |out.tables.users| == |t.users| + 1 && out.tables.users[..|t.users|] == t.users
  {
    if !UserType.IsValidUserType(Some(userType)) then
      Outcome(t, [], Reply(409, Error("User type is not supported")))
    else if GetUser(t.users, userName).Some? then
      Outcome(t, [], Reply(409, Error("Username already exists")))
    else
      var id := NextId(t.users, UserPk);
      Outcome(t.(users := t.users + [User(id, userName, userType)]), [],
              Reply(201, UserCreated("User '" + userName + "' created successfully", id)))
  }

  /** The handler. */
  method CreateUser(db: Database, userName: string, userType: string) returns (reply: Reply)
    modifies db
    ensures var out := Create(old(db.Snapshot()), userName, userType);
      db.Snapshot() == out.tables && reply == out.reply
  {
    if !UserType.IsValidUserType(Some(userType)) {
      return Reply(409, Error("User type is not supported"));
    }
    var existingUser := GetUser(db.users, userName);
    if existingUser.Some? {
      return Reply(409, Error("Username already exists"));
    }
    var id := db.AddUser(userName, userType);
    reply := Reply(201, UserCreated("User '" + userName + "' created successfully", id));
  }

  /** An unsupported type is refused before the name is looked at: the reply is the same
      whether or not the name is taken, and nothing changes. */
  lemma TypeCheckedFirst(t: Tables, userName: string, userType: string)
    requires !UserType.IsValidUserType(Some(userType))
    ensures Create(t, userName, userType) == Outcome(t, [], Reply(409, Error("User type is not supported")))
  {
  }

  /** Creation succeeds exactly when the type is supported and nobody has the name; the
      tables change exactly when it succeeds. */
  lemma CreateSucceedsIff(t: Tables, userName: string, userType: string)
    ensures var out := Create(t, userName, userType);
      out.reply.status == 201 <==>
        UserType.IsValidUserType(Some(userType)) &&
        forall i :: 0 <= i < |t.users| ==> t.users[i].userName != userName
    ensures var out := Create(t, userName, userType);
      out.tables != t <==> out.reply.status == 201
  {
    var out := Create(t, userName, userType);
    if out.reply.status == 201 {
      assert |out.tables.users| == |t.users| + 1;
    }
  }

  /** A successful creation appends one user row under a key larger than every key in
      use, replies with that key, and from then on the name finds that row. */
  lemma CreateAppends(t: Tables, userName: string, userType: string)
    requires UserType.IsValidUserType(Some(userType))
    requires forall i :: 0 <= i < |t.users| ==> t.users[i].userName != userName
    ensures var out := Create(t, userName, userType);
      && out.reply.status == 201 && out.reply.body.UserCreated?
      && var id := out.reply.body.userId;
      && (forall i :: 0 <= i < |t.users| ==> t.users[i].id < id)
      && out.tables == t.(users := t.users + [User(id, userName, userType)])
      && GetUser(out.tables.users, userName) == Some(User(id, userName, userType))
  {
    CreateBranch(t, userName, userType);
    GetUserAppended(t.users, User(NextId(t.users, UserPk), userName, userType));
  }

  /** The branch a supported type and a free name take. */
  lemma CreateBranch(t: Tables, userName: string, userType: string)
    requires UserType.IsValidUserType(Some(userType))
    requires forall i :: 0 <= i < |t.users| ==> t.users[i].userName != userName
    ensures var id := NextId(t.users, UserPk);
      Create(t, userName, userType) ==
        Outcome(t.(users := t.users + [User(id, userName, userType)]), [],
                Reply(201, UserCreated("User '" + userName + "' created successfully", id)))
  {
    assert GetUser(t.users, userName).None?;
  }

  /** A row appended under a name nobody had is the row that name finds. */
  lemma GetUserAppended(users: seq<User>, u: User)
    requires forall i :: 0 <= i < |users| ==> users[i].userName != u.userName
    ensures GetUser(users + [u], u.userName) == Some(u)
  {
    assert forall j :: 0 <= j < |users| ==> !WithUserName(u.userName)(users[j]);
    FirstAppended(users, u, WithUserName(u.userName));
    assert (users + [u])[|users|] == u;
  }

  /** Creating the same user twice creates it once: the second call answers 409 "Username
      already exists" and changes nothing. */
  lemma CreateTwice(t: Tables, userName: string, userType: string, otherType: string)
    requires Create(t, userName, userType).reply.status == 201
    ensures var t1 := Create(t, userName, userType).tables;
      Create(t1, userName, otherType).tables == t1 &&
      (UserType.IsValidUserType(Some(otherType)) ==>
         Create(t1, userName, otherType).reply == Reply(409, Error("Username already exists")))
  {
    CreateSucceedsIff(t, userName, userType);
    CreateAppends(t, userName, userType);
  }

  /** A user row that is present stays present when another is appended. */
  lemma HasUserAppend(users: seq<User>, u: User, id: int)
    requires HasUser(users, id)
    ensures HasUser(users + [u], id)
  {
    var i :| 0 <= i < |users| && users[i].id == id;
    assert (users + [u])[i] == users[i];
  }

  /** Creation keeps the database's integrity and the handlers' invariants; in
      particular user names stay unique. */
  lemma CreateKeepsInvariants(t: Tables, userName: string, userType: string)
    requires Invariants(t)
    ensures Invariants(Create(t, userName, userType).tables)
  {
    if UserType.IsValidUserType(Some(userType)) && GetUser(t.users, userName).None? {
      var u := User(NextId(t.users, UserPk), userName, userType);
      CreateAppends(t, userName, userType);
      var t1 := t.(users := t.users + [u]);
      DistinctAppend(t.users, u, UserPk);
      DistinctAppend(t.users, u, UserNameKey);
      forall i | 0 <= i < |t.wishlists| ensures HasUser(t1.users, t.wishlists[i].userId) {
        HasUserAppend(t.users, u, t.wishlists[i].userId);
      }
      forall i | 0 <= i < |t.rentals| ensures HasUser(t1.users, t.rentals[i].userId) {
        HasUserAppend(t.users, u, t.rentals[i].userId);
      }
      assert Valid(t1);
    }
  }
}
