/** The `/posts` handlers. Posts are created for the fixed user 1; the update issues one
    statement per present field and then reads the row back. */
module PostHandlers {
  import opened Wrappers
  import opened Entities
  import opened Errors
  import opened Requests
  import opened Envelope
  import opened Sequences
  import opened Store

  /** The owner every created post gets, in place of an authenticated user. */
  const DemoUserId: int := 1

  /** `POST /posts`: 400 on an invalid payload; otherwise a post of user 1 with
      `is_published` defaulting to false, answered with 201. When user 1 does not exist
      the foreign key refuses the insert: a bare 500, both tables unchanged, one id used up. */
  method CreatePost(db: Db, payload: CreatePostRequest) returns (r: HandlerResult<PostResponse>)
    requires db.Valid()
    modifies db
    ensures db.Valid()
    ensures db.nextUserId == old(db.nextUserId)
    ensures !ValidCreatePost(payload) ==>
      r == Respond(StatusBadRequest, Error("Invalid input data")) && unchanged(db)
    ensures ValidCreatePost(payload) ==> db.nextPostId == old(db.nextPostId) + 1
    ensures ValidCreatePost(payload) && DemoUserId !in old(db.users) ==>
      r == Abort(StatusInternalServerError) && db.users == old(db.users) && db.posts == old(db.posts)
    ensures ValidCreatePost(payload) && DemoUserId in old(db.users) ==>
      var p := Post(old(db.nextPostId), payload.title, payload.content, DemoUserId,
                    payload.isPublished.GetOr(false));
      && p.id !in old(db.posts)
      && db.posts == old(db.posts)[p.id := p]
      && db.users == old(db.users)
      && r == Respond(StatusCreated, Envelope.Success(ToPostResponse(p), "Post created successfully"))
  {
    if !ValidCreatePost(payload) {
      return Respond(StatusBadRequest, Error("Invalid input data"));
    }
    var userId := DemoUserId;
    var inserted := db.InsertPost(payload.title, payload.content, userId, payload.isPublished.GetOr(false));
    match inserted
    case Failure(_) => r := Abort(StatusInternalServerError);
    case Success(p) => r := Respond(StatusCreated, Envelope.Success(ToPostResponse(p), "Post created successfully"));
  }

  /** The page `GET /posts` lists: newest first, `(page - 1) * limit` skipped. */
  function NewestFirstPage(db: Db, page: nat, limit: nat): (r: seq<Post>)
    reads db
    requires db.Valid() && page >= 1
    ensures |r| <= limit
    ensures |r| == if PageOffset(page, limit) >= |db.posts| then 0
                   else Min(limit, |db.posts| - PageOffset(page, limit))
    ensures forall i :: 0 <= i < |r| ==>
      PageOffset(page, limit) + i < |db.posts|
      && r[i] == db.PostRows()[|db.posts| - 1 - (PageOffset(page, limit) + i)]
  {
    var all := db.PostRows();
    var offset := PageOffset(page, limit);
    var n := |db.posts|;
    assert |all| == n;
    var r := ReversePage(all, offset, limit);
    assert |r| == if offset >= n then 0 else Min(limit, n - offset);
    r
  }

  /** `GET /posts?page=&limit=`: defaults 1 and 10; at most `limit` posts, newest first;
      `total_pages` is the ceiling of the table size over `limit`. */
  method GetPosts(db: Db, params: PaginationParams) returns (r: HandlerResult<Paginated<PostResponse>>)
    requires db.Valid() && params.page != Some(0) && params.limit != Some(0)
    ensures var page, limit := ResolvePage(params), ResolveLimit(params);
      r == Respond(StatusOk, Envelope.Success(
             PageOf(PostResponses(NewestFirstPage(db, page, limit)), page, limit, |db.posts|),
             "Posts retrieved successfully"))
    ensures r.Respond? && r.body.success && r.body.data.Some?
    ensures var p := r.body.data.value;
      && |p.data| <= p.limit
      && p.total == |db.posts|
      && p.totalPages * p.limit >= p.total
      && (p.totalPages == 0 || (p.totalPages - 1) * p.limit < p.total)
  {
    var page := params.page.GetOr(1);
    var limit := params.limit.GetOr(10);
    var posts := NewestFirstPage(db, page, limit);
    var total := |db.posts|;
    var response := PageOf(PostResponses(posts), page, limit, total);
    r := Respond(StatusOk, Envelope.Success(response, "Posts retrieved successfully"));
  }

  /** `GET /posts/{id}`: the post, or the "Post not found" error envelope, both with 200. */
  method GetPostById(db: Db, id: int) returns (r: HandlerResult<PostResponse>)
    requires db.Valid()
    ensures id in db.posts ==>
      r == Respond(StatusOk, Envelope.Success(ToPostResponse(db.posts[id]), "Post found successfully"))
    ensures id !in db.posts ==> r == Respond(StatusOk, Error("Post not found"))
    ensures r.Respond? && r.status == StatusOk && (r.body.success <==> id in db.posts)
  {
    if id in db.posts {
      r := Respond(StatusOk, Envelope.Success(ToPostResponse(db.posts[id]), "Post found successfully"));
    } else {
      r := Respond(StatusOk, Error("Post not found"));
    }
  }

  /** `PUT /posts/{id}`: an invalid payload or a missing id is an error envelope with 200
      and writes nothing; otherwise title, content and `is_published` are written one
      statement each when present, and the row read back is the answer. */
  method UpdatePost(db: Db, id: int, payload: UpdatePostRequest) returns (r: HandlerResult<PostResponse>)
    requires db.Valid()
    modifies db
    ensures db.Valid()
    ensures db.nextUserId == old(db.nextUserId) && db.nextPostId == old(db.nextPostId)
    ensures !ValidUpdatePost(payload) ==>
      r == Respond(StatusOk, Error("Invalid input data")) && unchanged(db)
    ensures ValidUpdatePost(payload) && id !in old(db.posts) ==>
      r == Respond(StatusOk, Error("Post not found")) && unchanged(db)
    ensures ValidUpdatePost(payload) && id in old(db.posts) ==>
      var p := ApplyPostUpdate(old(db.posts[id]), payload);
      && db.posts == old(db.posts)[id := p]
      && db.users == old(db.users)
      && r == Respond(StatusOk, Envelope.Success(ToPostResponse(db.posts[id]), "Post updated successfully"))
  {
    if !ValidUpdatePost(payload) {
      return Respond(StatusOk, Error("Invalid input data"));
    }
    if id !in db.posts {
      return Respond(StatusOk, Error("Post not found"));
    }
    if payload.title.Some? {
      var _ := db.SetPostColumn(id, Title(payload.title.value));
    }
    if payload.content.Some? {
      var _ := db.SetPostColumn(id, Content(payload.content.value));
    }
    if payload.isPublished.Some? {
      var _ := db.SetPostColumn(id, IsPublished(payload.isPublished.value));
    }
    var updated := db.posts[id];
    r := Respond(StatusOk, Envelope.Success(ToPostResponse(updated), "Post updated successfully"));
  }

  /** `DELETE /posts/{id}`: "Post not found" exactly when no row was removed. */
  method DeletePost(db: Db, id: int) returns (r: HandlerResult<string>)
    requires db.Valid()
    modifies db
    ensures db.Valid()
    ensures db.nextUserId == old(db.nextUserId) && db.nextPostId == old(db.nextPostId)
    ensures id !in old(db.posts) ==> r == Respond(StatusOk, Error("Post not found"))
    ensures id in old(db.posts) ==>
      r == Respond(StatusOk, Envelope.Success("Post deleted", "Post deleted successfully"))
    ensures db.posts == old(db.posts) - {id}
    ensures db.users == old(db.users)
  {
    var affected := db.DeletePost(id);
    if affected == 0 {
      return Respond(StatusOk, Error("Post not found"));
    }
    r := Respond(StatusOk, Envelope.Success("Post deleted", "Post deleted successfully"));
  }
}
