/** `UserRepository`: create, list, find, partial update, delete and count over the
    `users` table. `create` stores the password field as given: hashing is the service's
    job. */
module UserRepository {
  import opened Wrappers
  import opened Entities
  import opened Errors
  import opened Requests
  import opened Sequences
  import opened Store

  /** Inserts the payload as a new active user. */
  method Create(db: Db, data: CreateUserRequest) returns (r: Result<User, DbErr>)
    requires db.Valid()
    modifies db
    ensures db.Valid()
    ensures db.nextPostId == old(db.nextPostId)
    ensures db.nextUserId == old(db.nextUserId) + 1
    ensures old(db.EmailTaken(data.email)) ==>
      r.Failure? && db.users == old(db.users) && db.posts == old(db.posts)
    ensures !old(db.EmailTaken(data.email)) ==>
      && r.Success? && r.value.id == old(db.nextUserId)
      && r.value.email == data.email && r.value.username == data.username
      && r.value.passwordHash == data.password && r.value.fullName == data.fullName
      && r.value.isActive
      && r.value.id !in old(db.users)
      && db.users == old(db.users)[r.value.id := r.value]
      && db.posts == old(db.posts)
  {
    r := db.InsertUser(data.email, data.username, data.password, data.fullName, true);
  }

  /** `find().limit(limit).offset((page - 1) * limit)`: the rows in creation order, after
      skipping `(page - 1) * limit` of them, at most `limit` of them. */
  method FindAll(db: Db, page: nat, limit: nat) returns (rows: seq<User>)
    requires db.Valid() && page >= 1
    ensures rows == LimitOffset(db.UserRows(), PageOffset(page, limit), limit)
    ensures |rows| <= limit
    ensures forall i :: 0 <= i < |rows| ==> rows[i] == db.UserRows()[PageOffset(page, limit) + i]
    ensures |rows| == if PageOffset(page, limit) >= |db.users| then 0
                      else Min(limit, |db.users| - PageOffset(page, limit))
  {
    var offset := PageOffset(page, limit);
    rows := LimitOffset(db.UserRows(), offset, limit);
  }

  /** The row with this id, if any. */
  method FindById(db: Db, id: int) returns (r: Option<User>)
    requires db.Valid()
    ensures r.Some? <==> id in db.users
    ensures r.Some? ==> r.value == db.users[id] && r.value.id == id
  {
    r := if id in db.users then Some(db.users[id]) else None;
  }

  /** Looks the row up, sets each supplied field on it and writes it back. An absent id is
      `Ok(None)` with nothing changed; a supplied email that another user has is a store
      error with nothing changed. */
  method Update(db: Db, id: int, data: UpdateUserRequest) returns (r: Result<Option<User>, DbErr>)
    requires db.Valid()
    modifies db
    ensures db.Valid()
    ensures db.nextUserId == old(db.nextUserId) && db.nextPostId == old(db.nextPostId)
    ensures id !in old(db.users) ==> r == Success(None) && unchanged(db)
    ensures id in old(db.users) ==>
      var u := ApplyUserUpdate(old(db.users[id]), data);
      if old(db.EmailTakenByOther(u.email, id)) then r.Failure? && unchanged(db)
      else
        && r == Success(Some(u))
        && db.users == old(db.users)[id := u]
        && db.posts == old(db.posts)
  {
    var existing := FindById(db, id);
    if existing.None? {
      return Success(None);
    }
    var m := existing.value;
    if data.email.Some? {
      m := m.(email := data.email.value);
    }
    if data.username.Some? {
      m := m.(username := data.username.value);
    }
    if data.fullName.Some? {
      m := m.(fullName := Some(data.fullName.value));
    }
    if data.isActive.Some? {
      m := m.(isActive := data.isActive.value);
    }
    var written := db.WriteUser(m);
    match written
    case Success(u) => r := Success(Some(u));
    case Failure(e) => r := Failure(e);
  }

  /** True exactly when the row existed; afterwards it is gone, and so are its posts. */
  method Delete(db: Db, id: int) returns (existed: bool)
    requires db.Valid()
    modifies db
    ensures db.Valid()
    ensures db.nextUserId == old(db.nextUserId) && db.nextPostId == old(db.nextPostId)
    ensures existed == (id in old(db.users))
    ensures db.users == old(db.users) - {id}
    ensures db.posts == Cascade(old(db.posts), id)
  {
    var existing := FindById(db, id);
    if existing.None? {
      existed := false;
    } else {
      existed := true;
    }
    var _ := db.DeleteUser(id);
  }

  /** The number of rows: the size of the table, and the length of the full listing. */
  method Count(db: Db) returns (n: int)
    requires db.Valid()
    ensures n == |db.users|
    ensures n == |db.UserRows()|
  {
    n := |db.UserRows()|;
  }
}
