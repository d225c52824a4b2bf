/** `UserService`: hashes the password before the repository sees it, resolves the
    pagination defaults, and otherwise hands the repository's results back as they are,
    store errors converted to `AppError::DatabaseError`. */
module UserService {
  import opened Wrappers
  import opened Entities
  import opened Errors
  import opened Requests
  import opened Envelope
  import opened Sequences
  import opened Store
  import UserRepository

  /** `hash_password`: the digest, or the hashing failure as an internal error whose
      message starts "Failed to hash password: ". The hash itself (bcrypt, salted) is the
      parameter `hash`. */
  function HashPassword(password: string, hash: string -> Result<string, string>): (r: Result<string, AppError>)
    ensures r.Success? <==> hash(password).Success?
    ensures r.Success? ==> r.value == hash(password).value
    ensures r.Failure? ==> r.error == InternalServerError("Failed to hash password: " + hash(password).error)
  {
    match hash(password)
    case Success(digest) => Success(digest)
    case Failure(e) => Failure(InternalServerError("Failed to hash password: " + e))
  }

  /** The repository receives the digest in place of the password, and every other field
      unchanged; when hashing fails the repository is not called. */
  method CreateUser(db: Db, data: CreateUserRequest, hash: string -> Result<string, string>)
    returns (r: Result<User, AppError>)
    requires db.Valid()
    modifies db
    ensures db.Valid()
    ensures db.nextPostId == old(db.nextPostId)
    ensures hash(data.password).Failure? ==>
      r == Failure(InternalServerError("Failed to hash password: " + hash(data.password).error))
      && unchanged(db)
    ensures hash(data.password).Success? ==> db.nextUserId == old(db.nextUserId) + 1
    ensures hash(data.password).Success? && old(db.EmailTaken(data.email)) ==>
      r.Failure? && r.error.DatabaseError? && db.users == old(db.users) && db.posts == old(db.posts)
    ensures hash(data.password).Success? && !old(db.EmailTaken(data.email)) ==>
      && r.Success? && r.value.id == old(db.nextUserId)
      && r.value.passwordHash == hash(data.password).value
      && r.value.email == data.email && r.value.username == data.username
      && r.value.fullName == data.fullName && r.value.isActive
      && r.value.id !in old(db.users)
      && db.users == old(db.users)[r.value.id := r.value]
      && db.posts == old(db.posts)
  {
    var hashed := HashPassword(data.password, hash);
    if hashed.Failure? {
      return Failure(hashed.error);
    }
    var request := CreateUserRequest(data.email, data.username, hashed.value, data.fullName);
    var created := UserRepository.Create(db, request);
    match created
    case Success(u) => r := Success(u);
    case Failure(e) => r := Failure(FromDbErr(e));
  }

  /** Page 1 and limit 10 when absent, then the repository's page. */
  method GetUsers(db: Db, params: PaginationParams) returns (rows: seq<User>)
    requires db.Valid() && params.page != Some(0)
    ensures rows == LimitOffset(db.UserRows(), PageOffset(ResolvePage(params), ResolveLimit(params)), ResolveLimit(params))
    ensures |rows| <= ResolveLimit(params)
    ensures params.limit.None? ==> |rows| <= 10
    ensures params.page.None? ==> rows == LimitOffset(db.UserRows(), 0, ResolveLimit(params))
  {
    var page := params.page.GetOr(1);
    var limit := params.limit.GetOr(10);
    rows := UserRepository.FindAll(db, page, limit);
    assert page == ResolvePage(params) && limit == ResolveLimit(params);
    assert params.page.None? ==> PageOffset(page, limit) == 0;
  }

  method GetUserById(db: Db, id: int) returns (r: Option<User>)
    requires db.Valid()
    ensures r.Some? <==> id in db.users
    ensures r.Some? ==> r.value == db.users[id] && r.value.id == id
  {
    r := UserRepository.FindById(db, id);
  }

  method UpdateUser(db: Db, id: int, data: UpdateUserRequest) returns (r: Result<Option<User>, AppError>)
    requires db.Valid()
    modifies db
    ensures db.Valid()
    ensures db.nextUserId == old(db.nextUserId) && db.nextPostId == old(db.nextPostId)
    ensures id !in old(db.users) ==> r == Success(None) && unchanged(db)
    ensures id in old(db.users) ==>
      var u := ApplyUserUpdate(old(db.users[id]), data);
      if old(db.EmailTakenByOther(u.email, id)) then r.Failure? && r.error.DatabaseError? && unchanged(db)
      else r == Success(Some(u)) && db.users == old(db.users)[id := u] && db.posts == old(db.posts)
  {
    var updated := UserRepository.Update(db, id, data);
    match updated
    case Success(o) => r := Success(o);
    case Failure(e) => r := Failure(FromDbErr(e));
  }

  method DeleteUser(db: Db, id: int) returns (deleted: bool)
    requires db.Valid()
    modifies db
    ensures db.Valid()
    ensures db.nextUserId == old(db.nextUserId) && db.nextPostId == old(db.nextPostId)
    ensures deleted == (id in old(db.users))
    ensures db.users == old(db.users) - {id}
    ensures db.posts == Cascade(old(db.posts), id)
  {
    deleted := UserRepository.Delete(db, id);
  }

  method GetUserCount(db: Db) returns (n: int)
    requires db.Valid()
    ensures n == |db.users|
  {
    n := UserRepository.Count(db);
  }
}
