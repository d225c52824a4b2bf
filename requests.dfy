/** Request payloads and their declarative validation rules.

    The repository carries three copies of these payload types (the handlers' copy and the
    repositories'/services' copies for users and for posts), each with the same
    `#[validate(...)]` attribute on the same field, so they are defined once here. A rule
    on an `Option` field is checked only when the field is present; a field without an
    attribute is never a cause of rejection. */
module Requests {
  import opened Wrappers
  import opened Entities

  datatype CreateUserRequest = CreateUserRequest(
    email: string,
    username: string,
    password: string,
    fullName: Option<string>)

  datatype UpdateUserRequest = UpdateUserRequest(
    email: Option<string>,
    username: Option<string>,
    fullName: Option<string>,
    isActive: Option<bool>)

  datatype CreatePostRequest = CreatePostRequest(
    title: string,
    content: string,
    isPublished: Option<bool>)

  datatype UpdatePostRequest = UpdatePostRequest(
    title: Option<string>,
    content: Option<string>,
    isPublished: Option<bool>)

  /** Query parameters of the list endpoints; the type declares no validation rule. */
  datatype PaginationParams = PaginationParams(page: Option<nat>, limit: Option<nat>)

  /** One `#[validate(...)]` attribute: `email`, or `length(min = .., max = ..)`.
      Lengths count characters. */
  datatype Rule = Email | Length(min: Option<nat>, max: Option<nat>)

  const EmailRule: Rule := Email
  const UsernameRule: Rule := Length(Some(3), Some(50))
  const PasswordRule: Rule := Length(Some(6), None)
  const FullNameRule: Rule := Length(Some(1), Some(100))
  const TitleRule: Rule := Length(Some(1), Some(200))
  const ContentRule: Rule := Length(Some(1), None)

  /** Whether `s` satisfies `rule`; the email grammar belongs to the validator library and
      is the parameter `isEmail`. */
  predicate Holds(rule: Rule, s: string, isEmail: string -> bool) {
    match rule
    case Email => isEmail(s)
    case Length(min, max) =>
      (min.None? || min.value <= |s|) && (max.None? || |s| <= max.value)
  }

  /** The violations one required field contributes: its name, or nothing. */
  function Check(field: string, rule: Rule, s: string, isEmail: string -> bool): seq<string> {
    if Holds(rule, s, isEmail) then [] else [field]
  }

  /** The violations one optional field contributes: none when the field is absent. */
  function CheckPresent(field: string, rule: Rule, o: Option<string>, isEmail: string -> bool): seq<string> {
    match o
    case None => []
    case Some(s) => Check(field, rule, s, isEmail)
  }

  function CreateUserViolations(r: CreateUserRequest, isEmail: string -> bool): seq<string> {
    Check("email", EmailRule, r.email, isEmail)
      + Check("username", UsernameRule, r.username, isEmail)
      + Check("password", PasswordRule, r.password, isEmail)
      + CheckPresent("full_name", FullNameRule, r.fullName, isEmail)
  }

  function UpdateUserViolations(r: UpdateUserRequest, isEmail: string -> bool): seq<string> {
    CheckPresent("email", EmailRule, r.email, isEmail)
      + CheckPresent("username", UsernameRule, r.username, isEmail)
      + CheckPresent("full_name", FullNameRule, r.fullName, isEmail)
  }

  function CreatePostViolations(r: CreatePostRequest): seq<string> {
    Check("title", TitleRule, r.title, NoEmail)
      + Check("content", ContentRule, r.content, NoEmail)
  }

  function UpdatePostViolations(r: UpdatePostRequest): seq<string> {
    CheckPresent("title", TitleRule, r.title, NoEmail)
      + CheckPresent("content", ContentRule, r.content, NoEmail)
  }

  /** Post payloads carry no email rule; any grammar will do for them. */
  const NoEmail: string -> bool := s => false

  /** `payload.validate()` succeeds. */
  predicate ValidCreateUser(r: CreateUserRequest, isEmail: string -> bool) {
    CreateUserViolations(r, isEmail) == []
  }

  predicate ValidUpdateUser(r: UpdateUserRequest, isEmail: string -> bool) {
    UpdateUserViolations(r, isEmail) == []
  }

  predicate ValidCreatePost(r: CreatePostRequest) {
    CreatePostViolations(r) == []
  }

  predicate ValidUpdatePost(r: UpdatePostRequest) {
    UpdatePostViolations(r) == []
  }

  /** A create-user payload is accepted exactly when every field meets its bound. */
  lemma CreateUserValidIff(r: CreateUserRequest, isEmail: string -> bool)
    ensures ValidCreateUser(r, isEmail) <==>
      && isEmail(r.email)
      && 3 <= |r.username| <= 50
      && 6 <= |r.password|
      && (r.fullName.Some? ==> 1 <= |r.fullName.value| <= 100)
  {
  }

  /** The violation list names exactly the fields whose rule fails. */
  lemma CreateUserViolationsNameFailingFields(r: CreateUserRequest, isEmail: string -> bool)
    ensures ("email" in CreateUserViolations(r, isEmail)) <==> !isEmail(r.email)
    ensures ("username" in CreateUserViolations(r, isEmail)) <==> !(3 <= |r.username| <= 50)
    ensures ("password" in CreateUserViolations(r, isEmail)) <==> |r.password| < 6
    ensures ("full_name" in CreateUserViolations(r, isEmail)) <==>
      (r.fullName.Some? && !(1 <= |r.fullName.value| <= 100))
  {
  }

  /** The password rule has a lower bound only: any password of six or more characters
      passes it, however long, and no shorter one does. */
  lemma PasswordHasNoUpperBound(r: CreateUserRequest, isEmail: string -> bool)
    ensures ("password" in CreateUserViolations(r, isEmail)) <==> |r.password| < 6
    ensures |r.password| >= 6 && isEmail(r.email) && 3 <= |r.username| <= 50 && r.fullName.None?
      ==> ValidCreateUser(r, isEmail)
  {
  }

  /** An update payload is accepted exactly when each present field meets the create rule;
      absent fields and `is_active` impose nothing. */
  lemma UpdateUserValidIff(r: UpdateUserRequest, isEmail: string -> bool)
    ensures ValidUpdateUser(r, isEmail) <==>
      && (r.email.Some? ==> isEmail(r.email.value))
      && (r.username.Some? ==> 3 <= |r.username.value| <= 50)
      && (r.fullName.Some? ==> 1 <= |r.fullName.value| <= 100)
  {
  }

  /** The empty update (every field absent, whatever `is_active` is) is valid. */
  lemma EmptyUserUpdateValid(isActive: Option<bool>, isEmail: string -> bool)
    ensures ValidUpdateUser(UpdateUserRequest(None, None, None, isActive), isEmail)
  {
  }

  /** Update and create apply the same rule to the same field: carrying a create payload's
      fields over into an update is accepted exactly when the create payload is (the
      password, which updates lack, being long enough). */
  lemma UpdateUserAgreesWithCreate(c: CreateUserRequest, isActive: Option<bool>, isEmail: string -> bool)
    requires |c.password| >= 6
    ensures ValidUpdateUser(UpdateUserRequest(Some(c.email), Some(c.username), c.fullName, isActive), isEmail)
      <==> ValidCreateUser(c, isEmail)
  {
  }

  lemma CreatePostValidIff(r: CreatePostRequest)
    ensures ValidCreatePost(r) <==> 1 <= |r.title| <= 200 && 1 <= |r.content|
  {
  }

  /** The violation list names exactly the post fields whose rule fails. */
  lemma CreatePostViolationsNameFailingFields(r: CreatePostRequest)
    ensures ("title" in CreatePostViolations(r)) <==> !(1 <= |r.title| <= 200)
    ensures ("content" in CreatePostViolations(r)) <==> |r.content| == 0
  {
  }

  lemma UpdatePostValidIff(r: UpdatePostRequest)
    ensures ValidUpdatePost(r) <==>
      && (r.title.Some? ==> 1 <= |r.title.value| <= 200)
      && (r.content.Some? ==> 1 <= |r.content.value|)
  {
  }

  /** A 201-character title is refused on create and on update; 200 characters pass. */
  lemma TitleOf201Rejected(title: string, content: string, p: Option<bool>)
    ensures |title| == 201 ==> !ValidCreatePost(CreatePostRequest(title, content, p))
    ensures |title| == 201 ==> !ValidUpdatePost(UpdatePostRequest(Some(title), None, p))
    ensures |title| == 200 && |content| >= 1 ==> ValidCreatePost(CreatePostRequest(title, content, p))
    ensures |title| == 200 ==> ValidUpdatePost(UpdatePostRequest(Some(title), None, p))
  {
  }

  /** `is_published` carries no rule: changing it never changes the verdict. */
  lemma PublishedNeverRejects(c: CreatePostRequest, u: UpdatePostRequest, b: Option<bool>)
    ensures ValidCreatePost(c.(isPublished := b)) == ValidCreatePost(c)
    ensures ValidUpdatePost(u.(isPublished := b)) == ValidUpdatePost(u)
  {
  }

  // ---------------------------------------------------------------------------
  // What an update payload does to a row (COALESCE semantics)

  /** The row after a partial update: each present field replaces the stored one, each
      absent field keeps its stored value; a present `full_name` becomes `Some(..)`. */
  function ApplyUserUpdate(u: User, d: UpdateUserRequest): User {
    u.(email := d.email.GetOr(u.email),
       username := d.username.GetOr(u.username),
       fullName := if d.fullName.Some? then d.fullName else u.fullName,
       isActive := d.isActive.GetOr(u.isActive))
  }

  function ApplyPostUpdate(p: Post, d: UpdatePostRequest): Post {
    p.(title := d.title.GetOr(p.title),
       content := d.content.GetOr(p.content),
       isPublished := d.isPublished.GetOr(p.isPublished))
  }

  /** Present fields are overwritten, absent ones kept; id and digest never change. */
  lemma UserUpdateSemantics(u: User, d: UpdateUserRequest)
    ensures ApplyUserUpdate(u, d).id == u.id
    ensures ApplyUserUpdate(u, d).passwordHash == u.passwordHash
    ensures d.email.None? ==> ApplyUserUpdate(u, d).email == u.email
    ensures d.email.Some? ==> ApplyUserUpdate(u, d).email == d.email.value
    ensures d.username.None? ==> ApplyUserUpdate(u, d).username == u.username
    ensures d.username.Some? ==> ApplyUserUpdate(u, d).username == d.username.value
    ensures d.fullName.None? ==> ApplyUserUpdate(u, d).fullName == u.fullName
    ensures d.fullName.Some? ==> ApplyUserUpdate(u, d).fullName == d.fullName
    ensures d.isActive.None? ==> ApplyUserUpdate(u, d).isActive == u.isActive
    ensures d.isActive.Some? ==> ApplyUserUpdate(u, d).isActive == d.isActive.value
  {
  }

  /** No update can clear a stored full name. */
  lemma FullNameNeverCleared(u: User, d: UpdateUserRequest)
    requires u.fullName.Some?
    ensures ApplyUserUpdate(u, d).fullName.Some?
  {
  }

  /** Applying the same update twice is applying it once; the empty update is the identity. */
  lemma UserUpdateIdempotent(u: User, d: UpdateUserRequest)
    ensures ApplyUserUpdate(ApplyUserUpdate(u, d), d) == ApplyUserUpdate(u, d)
    ensures ApplyUserUpdate(u, UpdateUserRequest(None, None, None, None)) == u
  {
  }

  /** Only title, content and `is_published` can change; id and owner never do. */
  lemma PostUpdateSemantics(p: Post, d: UpdatePostRequest)
    ensures ApplyPostUpdate(p, d).id == p.id
    ensures ApplyPostUpdate(p, d).userId == p.userId
    ensures ApplyPostUpdate(p, d).title == (if d.title.Some? then d.title.value else p.title)
    ensures ApplyPostUpdate(p, d).content == (if d.content.Some? then d.content.value else p.content)
    ensures ApplyPostUpdate(p, d).isPublished
      == (if d.isPublished.Some? then d.isPublished.value else p.isPublished)
  {
  }

  lemma PostUpdateIdempotent(p: Post, d: UpdatePostRequest)
    ensures ApplyPostUpdate(ApplyPostUpdate(p, d), d) == ApplyPostUpdate(p, d)
    ensures ApplyPostUpdate(p, UpdatePostRequest(None, None, None)) == p
  {
  }
}
