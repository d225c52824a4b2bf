/** The `/users` handlers. They validate the payload, query the store directly and wrap
    the outcome in the envelope. A missing user is an error envelope with status 200, not
    a store error; a store fault is a bare 500. */
module UserHandlers {
  import opened Wrappers
  import opened Entities
  import opened Errors
  import opened Requests
  import opened Envelope
  import opened Sequences
  import opened Store

  /** `POST /users`: 400 on an invalid payload, 409 when the email is taken, 500 when
      hashing fails, otherwise 201 with the new user (without its digest) while the
      stored row holds the digest. Nothing is written on any error path. */
  method CreateUser(db: Db, payload: CreateUserRequest, isEmail: string -> bool,
                    hash: string -> Result<string, string>)
    returns (r: HandlerResult<UserResponse>)
    requires db.Valid()
    modifies db
    ensures db.Valid()
    ensures db.nextPostId == old(db.nextPostId)
    ensures !ValidCreateUser(payload, isEmail) ==>
      r == Respond(StatusBadRequest, Error("Invalid input data")) && unchanged(db)
    ensures ValidCreateUser(payload, isEmail) && old(db.EmailTaken(payload.email)) ==>
      r == Respond(StatusConflict, Error("User with this email already exists")) && unchanged(db)
    ensures (ValidCreateUser(payload, isEmail) && !old(db.EmailTaken(payload.email))
             && hash(payload.password).Failure?) ==>
      r == Abort(StatusInternalServerError) && unchanged(db)
    ensures (ValidCreateUser(payload, isEmail) && !old(db.EmailTaken(payload.email))
             && hash(payload.password).Success?) ==>
      var u := User(old(db.nextUserId), payload.email, payload.username,
                    hash(payload.password).value, payload.fullName, true);
      && u.id !in old(db.users)
      && db.nextUserId == old(db.nextUserId) + 1
      && db.users == old(db.users)[u.id := u]
      && db.posts == old(db.posts)
      && r == Respond(StatusCreated, Envelope.Success(ToUserResponse(u), "User created successfully"))
  {
    if !ValidCreateUser(payload, isEmail) {
      return Respond(StatusBadRequest, Error("Invalid input data"));
    }
    if db.EmailTaken(payload.email) {
      return Respond(StatusConflict, Error("User with this email already exists"));
    }
    var digest := hash(payload.password);
    if digest.Failure? {
      return Abort(StatusInternalServerError);
    }
    // the users table defaults is_active to true
    var inserted := db.InsertUser(payload.email, payload.username, digest.value, payload.fullName, true);
    match inserted
    case Failure(_) => r := Abort(StatusInternalServerError);
    case Success(u) => r := Respond(StatusCreated, Envelope.Success(ToUserResponse(u), "User created successfully"));
  }

  /** The page `GET /users` lists: newest first, `(page - 1) * limit` skipped. */
  function NewestFirstPage(db: Db, page: nat, limit: nat): (r: seq<User>)
    reads db
    requires db.Valid() && page >= 1
    ensures |r| <= limit
    ensures |r| == if PageOffset(page, limit) >= |db.users| then 0
                   else Min(limit, |db.users| - PageOffset(page, limit))
    ensures forall i :: 0 <= i < |r| ==>
      PageOffset(page, limit) + i < |db.users|
      && r[i] == db.UserRows()[|db.users| - 1 - (PageOffset(page, limit) + i)]
  {
    var all := db.UserRows();
    var offset := PageOffset(page, limit);
    var n := |db.users|;
    assert |all| == n;
    var r := ReversePage(all, offset, limit);
    assert |r| == if offset >= n then 0 else Min(limit, n - offset);
    r
  }

  /** `GET /users?page=&limit=`: defaults 1 and 10; at most `limit` users, newest first;
      `total` is the table size and `total_pages` its ceiling over `limit`. */
  method GetUsers(db: Db, params: PaginationParams) returns (r: HandlerResult<Paginated<UserResponse>>)
    requires db.Valid() && params.page != Some(0) && params.limit != Some(0)
    ensures var page, limit := ResolvePage(params), ResolveLimit(params);
      r == Respond(StatusOk, Envelope.Success(
             PageOf(UserResponses(NewestFirstPage(db, page, limit)), page, limit, |db.users|),
             "Users retrieved successfully"))
    ensures r.Respond? && r.body.success && r.body.data.Some?
    ensures var p := r.body.data.value;
      && |p.data| <= p.limit
      && p.total == |db.users|
      && p.totalPages * p.limit >= p.total
      && (p.totalPages == 0 || (p.totalPages - 1) * p.limit < p.total)
  {
    var page := params.page.GetOr(1);
    var limit := params.limit.GetOr(10);
    var users := NewestFirstPage(db, page, limit);
    var total := |db.users|;
    var response := PageOf(UserResponses(users), page, limit, total);
    r := Respond(StatusOk, Envelope.Success(response, "Users retrieved successfully"));
  }

  /** `GET /users/{id}`: the user, or the "User not found" error envelope, both with 200. */
  method GetUserById(db: Db, id: int) returns (r: HandlerResult<UserResponse>)
    requires db.Valid()
    ensures id in db.users ==>
      r == Respond(StatusOk, Envelope.Success(ToUserResponse(db.users[id]), "User found successfully"))
    ensures id !in db.users ==> r == Respond(StatusOk, Error("User not found"))
    ensures r.Respond? && r.status == StatusOk && (r.body.success <==> id in db.users)
  {
    if id in db.users {
      r := Respond(StatusOk, Envelope.Success(ToUserResponse(db.users[id]), "User found successfully"));
    } else {
      r := Respond(StatusOk, Error("User not found"));
    }
  }

  /** `PUT /users/{id}`: an invalid payload is an error envelope with status 200 (not 400
      as on create); a missing id is "User not found"; otherwise one COALESCE update
      keeps every absent field. A clash with another user's email is a bare 500. */
  method UpdateUser(db: Db, id: int, payload: UpdateUserRequest, isEmail: string -> bool)
    returns (r: HandlerResult<UserResponse>)
    requires db.Valid()
    modifies db
    ensures db.Valid()
    ensures db.nextUserId == old(db.nextUserId) && db.nextPostId == old(db.nextPostId)
    ensures !ValidUpdateUser(payload, isEmail) ==>
      r == Respond(StatusOk, Error("Invalid input data")) && unchanged(db)
    ensures ValidUpdateUser(payload, isEmail) && id !in old(db.users) ==>
      r == Respond(StatusOk, Error("User not found")) && unchanged(db)
    ensures ValidUpdateUser(payload, isEmail) && id in old(db.users) ==>
      var u := ApplyUserUpdate(old(db.users[id]), payload);
      if old(db.EmailTakenByOther(u.email, id)) then
        r == Abort(StatusInternalServerError) && unchanged(db)
      else
        && r == Respond(StatusOk, Envelope.Success(ToUserResponse(u), "User updated successfully"))
        && db.users == old(db.users)[id := u]
        && db.posts == old(db.posts)
  {
    if !ValidUpdateUser(payload, isEmail) {
      return Respond(StatusOk, Error("Invalid input data"));
    }
    if id !in db.users {
      return Respond(StatusOk, Error("User not found"));
    }
    var updated := db.WriteUser(ApplyUserUpdate(db.users[id], payload));
    match updated
    case Failure(_) => r := Abort(StatusInternalServerError);
    case Success(u) => r := Respond(StatusOk, Envelope.Success(ToUserResponse(u), "User updated successfully"));
  }

  /** `DELETE /users/{id}`: "User not found" exactly when no row was removed; removing the
      user removes that user's posts. */
  method DeleteUser(db: Db, id: int) returns (r: HandlerResult<string>)
    requires db.Valid()
    modifies db
    ensures db.Valid()
    ensures db.nextUserId == old(db.nextUserId) && db.nextPostId == old(db.nextPostId)
    ensures id !in old(db.users) ==> r == Respond(StatusOk, Error("User not found"))
    ensures id in old(db.users) ==>
      r == Respond(StatusOk, Envelope.Success("User deleted", "User deleted successfully"))
    ensures db.users == old(db.users) - {id}
    ensures db.posts == Cascade(old(db.posts), id)
  {
    var affected := db.DeleteUser(id);
    if affected == 0 {
      return Respond(StatusOk, Error("User not found"));
    }
    r := Respond(StatusOk, Envelope.Success("User deleted", "User deleted successfully"));
  }
}
