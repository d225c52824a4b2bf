/** The response envelope `{success, message, data}`, the paginated wrapper, the pagination
    defaults and the outward representations of users and posts.

    The repository defines the envelope twice with identical bodies (once beside the
    response schemas, once beside the pagination parameters); both are this one. */
module Envelope {
  import opened Wrappers
  import opened Entities
  import opened Requests

  datatype ApiResponse<T> = ApiResponse(success: bool, message: string, data: Option<T>)

  /** `ApiResponse::success(data, message)`. */
  function Success<T>(data: T, message: string): ApiResponse<T> {
    ApiResponse(true, message, Some(data))
  }

  /** `ApiResponse::error(message)`. */
  function Error<T>(message: string): ApiResponse<T> {
    ApiResponse(false, message, None)
  }

  /** The envelope invariant: a payload is present exactly on success. */
  predicate WellFormed<T>(r: ApiResponse<T>) {
    r.data.Some? <==> r.success
  }

  lemma SuccessEnvelope<T>(d: T, m: string)
    ensures Success(d, m).success
    ensures Success(d, m).message == m
    ensures Success(d, m).data == Some(d)
  {
  }

  lemma ErrorEnvelope<T>(m: string)
    ensures !Error<T>(m).success
    ensures Error<T>(m).message == m
    ensures Error<T>(m).data == None
  {
  }

  /** The well-formed envelopes are exactly the ones the two constructors build. */
  lemma WellFormedIffConstructed<T>(r: ApiResponse<T>)
    ensures WellFormed(r) <==>
      (r.data.Some? && r == Success(r.data.value, r.message)) || r == Error(r.message)
  {
  }

  /** The list payload: a page of items with its coordinates. It has no field that depends
      on success; `data` is the (possibly empty) item list. */
  datatype Paginated<T> = Paginated(data: seq<T>, page: nat, limit: nat, total: nat, totalPages: nat)

  const DefaultPage: nat := 1
  const DefaultLimit: nat := 10

  /** `PaginationParams::default()`. */
  function DefaultParams(): PaginationParams {
    PaginationParams(Some(1), Some(10))
  }

  /** `params.page.unwrap_or(1)` */
  function ResolvePage(p: PaginationParams): nat {
    p.page.GetOr(DefaultPage)
  }

  /** `params.limit.unwrap_or(10)` */
  function ResolveLimit(p: PaginationParams): nat {
    p.limit.GetOr(DefaultLimit)
  }

  /** The `Default` instance agrees with the fallbacks: an absent field resolves as if the
      default had been given, and a given field is used as is. */
  lemma DefaultParamsMatchFallbacks(p: PaginationParams)
    ensures ResolvePage(DefaultParams()) == 1 && ResolveLimit(DefaultParams()) == 10
    ensures p.page.None? ==> ResolvePage(p) == ResolvePage(DefaultParams())
    ensures p.limit.None? ==> ResolveLimit(p) == ResolveLimit(DefaultParams())
    ensures p.page.Some? ==> ResolvePage(p) == p.page.value
    ensures p.limit.Some? ==> ResolveLimit(p) == p.limit.value
  {
  }

  /** `ceil(total / limit)`, the number of pages of `limit` items that hold `total` items:
      the least `r` with `r * limit >= total`. */
  function CeilDiv(total: nat, limit: nat): (r: nat)
    requires limit >= 1
    ensures r * limit >= total
    ensures r == 0 || (r - 1) * limit < total
  {
    var q := total / limit;
    if q * limit == total then q else q + 1
  }

  lemma MulMonotone(a: nat, b: nat, c: nat)
    requires a <= b
    ensures a * c <= b * c
  {
  }

  /** Page `p` (1-based) starts inside the table exactly when `p <= total_pages`: the page
      count is the number of non-empty pages. */
  lemma NonEmptyPageIffWithinTotalPages(total: nat, limit: nat, p: nat)
    requires limit >= 1 && p >= 1
    ensures (p - 1) * limit < total <==> p <= CeilDiv(total, limit)
  {
    var r := CeilDiv(total, limit);
    if p <= r {
      MulMonotone(p - 1, r - 1, limit);
    } else {
      MulMonotone(r, p - 1, limit);
    }
  }

  /** Every item index falls in some page between 1 and `total_pages`. */
  lemma EveryItemOnSomePage(total: nat, limit: nat, k: nat)
    requires limit >= 1 && k < total
    ensures var p := k / limit + 1;
      1 <= p <= CeilDiv(total, limit) && (p - 1) * limit <= k < p * limit
  {
    var p := k / limit + 1;
    assert (p - 1) * limit <= k < p * limit;
    NonEmptyPageIffWithinTotalPages(total, limit, p);
  }

  /** The wrapper the list handlers build: `total_pages` from `total` and `limit`. */
  function PageOf<T>(items: seq<T>, page: nat, limit: nat, total: nat): (r: Paginated<T>)
    requires limit >= 1
    ensures r.data == items && r.page == page && r.limit == limit && r.total == total
    ensures r.totalPages * limit >= total
    ensures r.totalPages == 0 || (r.totalPages - 1) * limit < total
  {
    Paginated(items, page, limit, total, CeilDiv(total, limit))
  }

  /** The outward form of a user: every column except the password digest. */
  datatype UserResponse = UserResponse(
    id: int,
    email: string,
    username: string,
    fullName: Option<string>,
    isActive: bool)

  datatype PostResponse = PostResponse(
    id: int,
    title: string,
    content: string,
    userId: int,
    isPublished: bool)

  function ToUserResponse(u: User): UserResponse {
    UserResponse(u.id, u.email, u.username, u.fullName, u.isActive)
  }

  function ToPostResponse(p: Post): PostResponse {
    PostResponse(p.id, p.title, p.content, p.userId, p.isPublished)
  }

  /** The responses for a list of rows, in the same order. */
  function UserResponses(rows: seq<User>): (r: seq<UserResponse>)
    ensures |r| == |rows|
    ensures forall i :: 0 <= i < |r| ==> r[i] == ToUserResponse(rows[i])
  {
    seq(|rows|, i requires 0 <= i < |rows| => ToUserResponse(rows[i]))
  }

  function PostResponses(rows: seq<Post>): (r: seq<PostResponse>)
    ensures |r| == |rows|
    ensures forall i :: 0 <= i < |r| ==> r[i] == ToPostResponse(rows[i])
  {
    seq(|rows|, i requires 0 <= i < |rows| => ToPostResponse(rows[i]))
  }

  /** What a handler returns: a status with an envelope, or, when a store call or the
      hash fails, a bare status without a body. */
  datatype HandlerResult<T> = Respond(status: int, body: ApiResponse<T>) | Abort(status: int)

  /** A user response cannot depend on the digest: two rows give the same response exactly
      when they agree on every column but `password_hash`. */
  lemma UserResponseHidesDigest(u: User, v: User)
    ensures ToUserResponse(u) == ToUserResponse(v) <==> u.(passwordHash := v.passwordHash) == v
  {
  }

  /** A post response carries every column of the row, so it determines the row. */
  lemma PostResponseFaithful(p: Post, q: Post)
    ensures ToPostResponse(p) == ToPostResponse(q) <==> p == q
  {
  }
}
