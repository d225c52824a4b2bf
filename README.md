# rust_be core in Dafny

A model of the request-to-store path of **rust_be**, a small CRUD backend for users
and posts written in Rust. It covers:

- the validation rules of the request payloads;
- the response envelope `{success, message, data}` with its paginated wrapper;
- the application error type and the HTTP responses it maps to;
- the `users`/`posts` store with its table constraints;
- the two repositories, the two services and the ten HTTP handlers on top of the store;
- the bearer-token middleware, with the JWT claims it checks.

Each part is a module:

| module | file | models |
|---|---|---|
| `Wrappers` | wrappers.dfy | `Option` and `Result` |
| `Entities` | entities.dfy | the `users` and `posts` rows |
| `Requests` | requests.dfy | the request payloads and their validation rules; what a partial update does to a row |
| `Sequences` | sequences.dfy | `LIMIT`/`OFFSET`, reversal, filtering and order-preserving subsequences |
| `Envelope` | envelope.dfy | `ApiResponse`, `PaginatedResponse`, the pagination defaults, `ceil(total / limit)`, `UserResponse`, `PostResponse` |
| `Errors` | errors.dfy | `AppError`, its `Display`, its conversion from store errors, and `into_response` |
| `Store` | store.dfy | class `Db` holding both tables as maps, plus the ids in creation order; its invariant holds the primary keys, unique emails, and the `posts.user_id` foreign key with `ON DELETE CASCADE` |
| `UserRepository`, `PostRepository` | user_repository.dfy, post_repository.dfy | the sea-orm repositories |
| `UserService`, `PostService` | user_service.dfy, post_service.dfy | the services |
| `UserHandlers`, `PostHandlers` | user_handlers.dfy, post_handlers.dfy | the axum handlers |
| `Jwt` | jwt.dfy | `Claims::new`, `create_jwt` and `verify_jwt` |
| `Auth` | auth.dfy | `auth_middleware` |

The repository states its validation rules three times: in `src/models/requests/mod.rs`,
`src/schemas/user.rs` and `src/schemas/post.rs`. All three copies carry the same
attributes, field for field, so `Requests` defines them once. Likewise
`src/schemas/response.rs` and `src/models/common.rs` define identical envelopes, and
`Envelope` holds the one definition.

The store is a class whose methods change its maps in place. The repository methods,
services and handlers are methods that receive the store, as the Rust passes the
database connection. The `Db` methods state every field of the new store: both tables,
the id lists and the id counters. The repository, service and handler methods state both
tables in full and both id counters: an insert advances its own counter and keeps the
other, and an update or delete keeps both. The class invariant `Db.Valid()`
is preserved by every method. As in PostgreSQL, a serial id drawn by a refused insert is
not given back; the next insert gets the id after it.

Calls into libraries this model cannot see are parameters:

- the email grammar of the validator crate is `isEmail: string -> bool`;
- bcrypt is `hash: string -> Result<string, string>`;
- HS256 signing and decoding is a `Jwt.Signer` of two functions;
- the clock is `now: nat`.

What the middleware needs from the JWT library is stated as the predicate
`Jwt.Hs256Like`. A token the library signed decodes under the same secret to the signed
claims until `exp` plus the library's default 60 seconds of leeway, and is refused after.
`Auth.IssuedTokenAdmitted` further assumes that a signed token is visible ASCII text, as
the base64url encoding the library emits is, so that it can travel in a header.

Order of rows:

- The repositories' `find_all` issues no `ORDER BY`. It is modelled as creation (id) order.
- The handlers' `ORDER BY created_at DESC` is modelled as reverse creation order.

## Model

| member | source | states |
|---|---|---|
| Requests.CreateUserValidIff | src/models/requests/mod.rs:5-18 | a create-user payload passes exactly when the email is an email, 3 <= \|username\| <= 50, \|password\| >= 6, and full_name is absent or 1..100 long |
| Requests.CreateUserViolationsNameFailingFields | src/schemas/user.rs:5-18 | the service-side copy reports a field exactly when that field's rule fails |
| Requests.PasswordHasNoUpperBound | src/schemas/user.rs:13-14 | the password is refused exactly when shorter than 6; any longer password passes |
| Requests.UpdateUserValidIff | src/models/requests/mod.rs:20-32 | an update payload passes exactly when each present field meets its rule; is_active is unconstrained |
| Requests.EmptyUserUpdateValid | src/models/requests/mod.rs:20-32 | the update with every field absent is valid |
| Requests.UpdateUserAgreesWithCreate | src/schemas/user.rs:20-32 | update and create apply the same rule to the same field |
| Requests.CreatePostValidIff | src/models/requests/mod.rs:34-43 | a create-post payload passes exactly when 1 <= \|title\| <= 200 and \|content\| >= 1 |
| Requests.CreatePostViolationsNameFailingFields | src/schemas/post.rs:5-14 | title and content are reported exactly when their bounds fail |
| Requests.UpdatePostValidIff | src/schemas/post.rs:16-24 | title and content bounds are checked only when present |
| Requests.TitleOf201Rejected | src/schemas/post.rs:5-24 | a 201-character title is refused on create and update; 200 characters pass |
| Requests.PublishedNeverRejects | src/schemas/post.rs:5-24 | changing is_published never changes the validation verdict |
| Requests.UserUpdateSemantics | src/repositories/user_repo.rs:55-72 | each supplied field is overwritten and each absent one kept; id and digest never change |
| Requests.FullNameNeverCleared | src/repositories/user_repo.rs:64-66 | no update can turn a stored full_name into null |
| Requests.UserUpdateIdempotent | src/handlers/user.rs:248-264 | applying the COALESCE update twice equals applying it once; the empty update is the identity |
| Requests.PostUpdateSemantics | src/repositories/post_repo.rs:51-65 | only title, content and is_published change, each only when supplied; id and user_id never change |
| Requests.PostUpdateIdempotent | src/handlers/post.rs:235-252 | the per-field post update is idempotent; the empty update is the identity |
| Sequences.LimitOffset | src/repositories/user_repo.rs:29-38 | a page has at most `limit` rows, its exact length, and row i is row offset+i of the listing |
| Sequences.FilterIsSubsequence | src/services/post_service.rs:59-64 | a filtered listing is an order-preserving subsequence of the listing |
| Sequences.FilterMembers | src/services/post_service.rs:67-72 | a row is in the filtered listing exactly when it is in the listing and passes the filter |
| Envelope.SuccessEnvelope | src/schemas/response.rs:13-19 | `success(d, m)` has success true, message m verbatim, data Some(d) |
| Envelope.ErrorEnvelope | src/models/common.rs:20-26 | `error(m)` has success false, message m, no data |
| Envelope.WellFormedIffConstructed | src/schemas/response.rs:12-28 | data is present exactly on success, and those envelopes are exactly the ones the two constructors build |
| Envelope.DefaultParamsMatchFallbacks | src/models/common.rs:35-42 | `PaginationParams::default()` is page 1, limit 10, the same as the unwrap_or fallbacks |
| Envelope.CeilDiv | src/handlers/user.rs:119-120 | total_pages is the least r with r * limit >= total |
| Envelope.NonEmptyPageIffWithinTotalPages | src/handlers/post.rs:132 | page p starts inside the table exactly when p <= total_pages |
| Envelope.EveryItemOnSomePage | src/handlers/user.rs:107-120 | every item index lies on exactly the page between 1 and total_pages that its offset names |
| Envelope.PageOf | src/models/common.rs:44-51 | the paginated wrapper carries the item list as given, page, limit, total, and the ceiling page count |
| Envelope.UserResponseHidesDigest | src/schemas/response.rs:91-102 | two users give the same response exactly when they differ at most in password_hash |
| Envelope.PostResponseFaithful | src/schemas/response.rs:104-115 | a post response determines the row |
| Errors.DisplayDeterminesError | src/error.rs:17-27 | each variant has its own label, so the displayed text determines the variant and the message |
| Errors.FromDbErr | src/error.rs:31-35 | converting a store error always gives DatabaseError carrying that error |
| Errors.IntoResponse | src/error.rs:47-49 | the body is the single-key object {"error": ..}; the status is between 400 and 500 |
| Errors.IntoResponseMapping | src/error.rs:39-45 | statuses 500/400/404/401/500 per variant; the body carries the variant's message, or "Database error" for store errors |
| Errors.DatabaseErrorHidesDetail | src/error.rs:40 | all store errors produce the same response, so driver text never reaches the body |
| Errors.ClientErrorIffBelow500 | src/error.rs:39-45 | the status is below 500 exactly for validation, not-found and unauthorized errors |
| Store.DeleteUserKeepsTablesValid | migration/src/m20231107_create_posts_table.rs:28-32 | deleting a user and cascading to its posts keeps every key and foreign-key constraint |
| Store.DeletePostKeepsTablesValid | migration/src/m20231107_create_posts_table.rs:16-33 | deleting a post keeps every constraint |
| Store.Cascade | migration/src/m20231107_create_posts_table.rs:32 | the posts surviving a user's deletion are exactly those with another owner, unchanged |
| Store.Db.constructor | migration/src/m20231107_create_posts_table.rs:10-37 | freshly created tables are empty and satisfy the invariant |
| Store.Db.UserRows | src/repositories/user_repo.rs:32-35 | the full listing holds every row once, in creation order |
| Store.Db.PostRows | src/repositories/post_repo.rs:28-31 | the full listing holds every row once, in creation order |
| Store.Db.InsertUser | src/handlers/user.rs:62-75 | a fresh id and the row as given, or a unique violation on the email with both tables unchanged; a serial id is used up either way |
| Store.Db.WriteUser | src/handlers/user.rs:248-270 | the row replaced, or a unique violation if another user has the email, nothing else changed |
| Store.Db.DeleteUser | migration/src/m20231107_create_posts_table.rs:28-32 | the user is removed, and so are exactly that user's posts; affected rows 1 or 0 |
| Store.Db.InsertPost | migration/src/m20231107_create_posts_table.rs:16-34 | a fresh id, or a foreign-key violation when the owner is missing, with both tables unchanged; a serial id is used up either way |
| Store.Db.WritePost | src/repositories/post_repo.rs:64 | the row replaced, nothing else changed |
| Store.Db.SetPostColumn | src/handlers/post.rs:235-252 | one column of one post set, affected 1 or 0, nothing else changed |
| Store.Db.DeletePost | src/handlers/post.rs:298-307 | the post removed, affected 1 or 0, users untouched |
| UserRepository.Create | src/repositories/user_repo.rs:11-27 | an active user under the next serial id with the given email, username, full_name and password as given, or a store error with both tables unchanged; nextUserId advances by one and nextPostId is kept |
| UserRepository.FindAll | src/repositories/user_repo.rs:29-39 | at most limit rows after skipping (page-1)*limit, in listing order |
| UserRepository.FindById | src/repositories/user_repo.rs:41-47 | Some(u) with u.id == id exactly when id is in the table |
| UserRepository.Update | src/repositories/user_repo.rs:49-76 | absent id gives Ok(None) with nothing changed; otherwise the COALESCE of the row, or a store error on an email clash; both id counters are kept |
| UserRepository.Delete | src/repositories/user_repo.rs:78-89 | true exactly when the row existed; afterwards it is gone, other users unchanged, exactly its posts gone and the other posts unchanged; both id counters are kept |
| UserRepository.Count | src/repositories/user_repo.rs:91-97 | the table size |
| PostRepository.Create | src/repositories/post_repo.rs:11-23 | a post with the given owner and is_published defaulting to false, or a store error when the owner is missing; nextPostId advances by one and nextUserId is kept |
| PostRepository.FindAll | src/repositories/post_repo.rs:25-35 | at most limit rows after skipping (page-1)*limit |
| PostRepository.FindById | src/repositories/post_repo.rs:37-43 | Some exactly when the id is present |
| PostRepository.Update | src/repositories/post_repo.rs:45-69 | absent id gives Ok(None) with nothing changed; otherwise the supplied fields written, owner and id kept; both id counters are kept |
| PostRepository.Delete | src/repositories/post_repo.rs:71-82 | true exactly when the row existed; afterwards it is gone; both id counters are kept |
| PostRepository.Count | src/repositories/post_repo.rs:84-90 | the table size |
| UserService.HashPassword | src/services/user_service.rs:70-73 | the digest, or InternalServerError("Failed to hash password: " + cause) |
| UserService.CreateUser | src/services/user_service.rs:20-33 | the repository stores the digest, never the plaintext, with the other fields unchanged; a hashing failure writes nothing; nextUserId advances by one when hashing succeeds and nextPostId is kept |
| UserService.GetUsers | src/services/user_service.rs:36-42 | page 1 and limit 10 when absent, then the repository's page |
| UserService.GetUserById | src/services/user_service.rs:45-48 | the repository's lookup |
| UserService.UpdateUser | src/services/user_service.rs:51-54 | the repository's update, store errors as DatabaseError; both id counters are kept |
| UserService.DeleteUser | src/services/user_service.rs:57-60 | the repository's delete, with the cascade to that user's posts; both id counters are kept |
| UserService.GetUserCount | src/services/user_service.rs:63-66 | the table size |
| PostService.CreatePost | src/services/post_service.rs:20-23 | the repository's insert, store errors as DatabaseError; nextPostId advances by one and nextUserId is kept |
| PostService.GetPosts | src/services/post_service.rs:26-32 | page 1 and limit 10 when absent, then the repository's page |
| PostService.GetPostById | src/services/post_service.rs:35-38 | the repository's lookup |
| PostService.UpdatePost | src/services/post_service.rs:41-44 | the repository's update; both id counters are kept |
| PostService.DeletePost | src/services/post_service.rs:47-50 | the repository's delete; both id counters are kept |
| PostService.GetPostCount | src/services/post_service.rs:53-56 | the table size |
| PostService.GetPostsByUser | src/services/post_service.rs:59-64 | only that user's posts, an order-preserving subsequence of the page, every such post of the page, at most limit |
| PostService.GetPublishedPosts | src/services/post_service.rs:67-72 | only published posts, an order-preserving subsequence of the page, every published post of the page, at most limit |
| UserHandlers.CreateUser | src/handlers/user.rs:29-91 | 400 on invalid input and 409 on a taken email, both writing nothing; 500 on a hashing failure; else 201 with a response without the digest, while the stored row holds the digest; nextUserId advances by one on success and nextPostId is always kept |
| Sequences.ReversePage | src/handlers/user.rs:125-128 | a descending page has exactly min(limit, \|rows\| - offset) rows, the i-th being the (offset+i)-th from the end |
| UserHandlers.NewestFirstPage | src/handlers/user.rs:123-132 | the page holds exactly min(limit, total - (page-1)*limit) users (none past the end), newest first, starting (page-1)*limit from the newest |
| UserHandlers.GetUsers | src/handlers/user.rs:103-159 | defaults 1/10; total is the table size; total_pages its ceiling over limit; at most limit users |
| UserHandlers.GetUserById | src/handlers/user.rs:174-207 | the user, or error("User not found"), both with status 200 |
| UserHandlers.UpdateUser | src/handlers/user.rs:224-286 | invalid input and a missing id give error envelopes with 200 and write nothing; otherwise the COALESCE update, or 500 on an email clash; both id counters are kept |
| UserHandlers.DeleteUser | src/handlers/user.rs:301-324 | "User not found" exactly when no row was removed; the user's posts go with it; both id counters are kept |
| PostHandlers.CreatePost | src/handlers/post.rs:28-77 | 400 on invalid input, writing nothing; else a post of user 1 with is_published defaulting to false, 201; 500 if user 1 is missing; nextPostId advances by one on valid input and nextUserId is always kept |
| PostHandlers.NewestFirstPage | src/handlers/post.rs:106-117 | the page holds exactly min(limit, total - (page-1)*limit) posts (none past the end), newest first |
| PostHandlers.GetPosts | src/handlers/post.rs:89-146 | defaults 1/10; total_pages is the ceiling of the table size over limit; at most limit posts |
| PostHandlers.GetPostById | src/handlers/post.rs:161-194 | the post, or error("Post not found") |
| PostHandlers.UpdatePost | src/handlers/post.rs:211-279 | invalid input or a missing id write nothing; otherwise exactly the present fields are written and the answer is the stored row; both id counters are kept |
| PostHandlers.DeletePost | src/handlers/post.rs:294-317 | "Post not found" exactly when no row was removed; both id counters are kept |
| Jwt.IntToStringRoundTrip | src/utils/jwt.rs:20 | parsing the decimal rendering of the user id gives back the id, negatives included |
| Jwt.IntToStringInjective | src/utils/jwt.rs:20 | distinct users get distinct subjects |
| Jwt.NewClaims | src/utils/jwt.rs:14-24 | sub is the decimal `to_string()` of the user id and parses back to the user id; iat is the clock reading and exp = iat + 86400 |
| Jwt.IssuedTokenLifetime | src/utils/jwt.rs:27-39 | a token from create_jwt verifies under the same secret exactly until its 24 hours (plus leeway) have passed, and names its user |
| Auth.ToStr | src/middleware/auth.rs:18-21 | the header reads as text exactly when every byte is visible ASCII or tab, byte for byte |
| Auth.ExtractBearerIff | src/middleware/auth.rs:23-30 | a token is extracted exactly when the header reads as "Bearer " followed by it |
| Auth.LowercaseSchemeRejected | src/middleware/auth.rs:24 | the prefix match is case-sensitive |
| Auth.MiddlewareDecision | src/middleware/auth.rs:13-39 | the request passes, unchanged, exactly when a bearer token verifies; every refusal is Unauthorized (401); a missing or malformed header gives "Missing or invalid authorization header"; a bearer token that fails verification gives "Invalid token" |
| Auth.IssuedTokenAdmitted | src/middleware/auth.rs:32-39 | a header carrying an issued token is let through for the token's lifetime and refused with "Invalid token" after |

## Left out

- Connectivity and driver faults of the store: only constraint violations (unique email, foreign key) are modelled as store errors; every other `?` on a query is a path the model does not take.
- Timestamps (`created_at`, `updated_at`, `NOW()`): not part of the rows; creation order is id order.
- UserRepository.FindAll, PostRepository.FindAll, Store.Db.UserRows, Store.Db.PostRows: the `find_all` queries carry no `ORDER BY`, so PostgreSQL promises no row order; the model fixes creation (id) order, an idealisation the source does not guarantee.
- Integer widths: ids are `i32`, pagination fields `u64`, counts are cast with `as i64`. The model uses unbounded integers, so overflow and the casts are not modelled.
- The `page = 0` underflow of `(page - 1) * limit`: `page >= 1` is a precondition (`params.page != Some(0)`).
- The float `ceil` of `total_pages`: modelled as integer ceiling division under `limit >= 1`; `limit = 0` (NaN or infinity cast to u64) is excluded by a precondition.
- `PaginationParams` has no validation rules, so there is nothing to model: any page and limit pass validation.
- The email grammar of the validator crate and the bcrypt algorithm with its cost factor (10 in the handler, `DEFAULT_COST` in the service): parameters.
- HS256 encoding, the MAC and the library's other claim checks: the `Signer` parameter and the `Hs256Like` assumption. The claims are not attached to the request, as in the source.
- Serialization (serde, JSON) and the OpenAPI annotations.
- Concurrency: an interleaved request between the email check and the insert, or between the per-field post updates, is not modelled; the handlers run sequentially.
- The `users` migration is not part of this model. The model assumes it declares `email UNIQUE` and `is_active DEFAULT true`.
- The error type the services import is not part of this model. Its conversion from store errors is taken to be the one in src/error.rs.
- Sequences.Reverse, Sequences.Filter, Envelope.UserResponses and Envelope.PostResponses are helpers for the SQL ordering, the iterator filters and the response mapping. They state their contents element by element and have no rows of their own; the properties are stated by the members that use them.
- Jwt.ParseSigned and Jwt.ParseUnsigned are steps of the `sub` round trip: each states how `parse` reads one kind of decimal text. Jwt.IntToStringRoundTrip carries the property.
- Logging: the `tracing::error!` calls on the handlers' failure paths are output only and are not modelled.
- bcrypt salts each digest at random. The model folds the salt into the fixed `hash` parameter, so hashing the same password twice gives the same digest here.
