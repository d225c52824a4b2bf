/** `PostService`: pagination defaults, delegation to the repository, and two filters
    (by owner, published only) that run on the fetched page. */
module PostService {
  import opened Wrappers
  import opened Entities
  import opened Errors
  import opened Requests
  import opened Envelope
  import opened Sequences
  import opened Store
  import PostRepository

  method CreatePost(db: Db, userId: int, data: CreatePostRequest) returns (r: Result<Post, AppError>)
    requires db.Valid()
    modifies db
    ensures db.Valid()
    ensures db.nextUserId == old(db.nextUserId)
    ensures db.nextPostId == old(db.nextPostId) + 1
    ensures userId !in old(db.users) ==>
      r.Failure? && r.error.DatabaseError? && db.users == old(db.users) && db.posts == old(db.posts)
    ensures userId in old(db.users) ==>
      && r.Success? && r.value.id == old(db.nextPostId)
      && r.value.title == data.title && r.value.content == data.content
      && r.value.userId == userId
      && r.value.isPublished == (data.isPublished.Some? && data.isPublished.value)
      && r.value.id !in old(db.posts)
      && db.posts == old(db.posts)[r.value.id := r.value]
      && db.users == old(db.users)
  {
    var created := PostRepository.Create(db, userId, data);
    match created
    case Success(p) => r := Success(p);
    case Failure(e) => r := Failure(FromDbErr(e));
  }

  /** Page 1 and limit 10 when absent, then the repository's page. */
  method GetPosts(db: Db, params: PaginationParams) returns (rows: seq<Post>)
    requires db.Valid() && params.page != Some(0)
    ensures rows == LimitOffset(db.PostRows(), PageOffset(ResolvePage(params), ResolveLimit(params)), ResolveLimit(params))
    ensures |rows| <= ResolveLimit(params)
    ensures params.limit.None? ==> |rows| <= 10
    ensures params.page.None? ==> rows == LimitOffset(db.PostRows(), 0, ResolveLimit(params))
  {
    var page := params.page.GetOr(1);
    var limit := params.limit.GetOr(10);
    rows := PostRepository.FindAll(db, page, limit);
    assert page == ResolvePage(params) && limit == ResolveLimit(params);
    assert params.page.None? ==> PageOffset(page, limit) == 0;
  }

  method GetPostById(db: Db, id: int) returns (r: Option<Post>)
    requires db.Valid()
    ensures r.Some? <==> id in db.posts
    ensures r.Some? ==> r.value == db.posts[id] && r.value.id == id
  {
    r := PostRepository.FindById(db, id);
  }

  method UpdatePost(db: Db, id: int, data: UpdatePostRequest) returns (r: Result<Option<Post>, AppError>)
    requires db.Valid()
    modifies db
    ensures db.Valid()
    ensures db.nextUserId == old(db.nextUserId) && db.nextPostId == old(db.nextPostId)
    ensures id !in old(db.posts) ==> r == Success(None) && unchanged(db)
    ensures id in old(db.posts) ==>
      var p := ApplyPostUpdate(old(db.posts[id]), data);
      r == Success(Some(p)) && db.posts == old(db.posts)[id := p] && db.users == old(db.users)
  {
    var updated := PostRepository.Update(db, id, data);
    match updated
    case Success(o) => r := Success(o);
    case Failure(e) => r := Failure(FromDbErr(e));
  }

  method DeletePost(db: Db, id: int) returns (deleted: bool)
    requires db.Valid()
    modifies db
    ensures db.Valid()
    ensures db.nextUserId == old(db.nextUserId) && db.nextPostId == old(db.nextPostId)
    ensures deleted == (id in old(db.posts))
    ensures db.posts == old(db.posts) - {id}
    ensures db.users == old(db.users)
  {
    deleted := PostRepository.Delete(db, id);
  }

  method GetPostCount(db: Db) returns (n: int)
    requires db.Valid()
    ensures n == |db.posts|
  {
    n := PostRepository.Count(db);
  }

  /** The page `get_posts` returns, without its filter. */
  function PageOfPosts(db: Db, params: PaginationParams): seq<Post>
    reads db
    requires db.Valid() && params.page != Some(0)
  {
    LimitOffset(db.PostRows(), PageOffset(ResolvePage(params), ResolveLimit(params)), ResolveLimit(params))
  }

  /** The posts of the fetched page owned by `userId`, in page order: the filter runs after
      pagination, so it never reaches beyond the page. */
  method GetPostsByUser(db: Db, userId: int, params: PaginationParams) returns (rows: seq<Post>)
    requires db.Valid() && params.page != Some(0)
    ensures forall i :: 0 <= i < |rows| ==> rows[i].userId == userId
    ensures IsSubsequence(rows, PageOfPosts(db, params))
    ensures forall p :: p in PageOfPosts(db, params) && p.userId == userId ==> p in rows
    ensures |rows| <= ResolveLimit(params)
  {
    var all := GetPosts(db, params);
    var owned := (p: Post) => p.userId == userId;
    rows := Filter(all, owned);
    FilterIsSubsequence(all, owned);
    forall p | p in all && p.userId == userId ensures p in rows {
      FilterMembers(all, owned, p);
    }
  }

  /** The published posts of the fetched page, in page order. */
  method GetPublishedPosts(db: Db, params: PaginationParams) returns (rows: seq<Post>)
    requires db.Valid() && params.page != Some(0)
    ensures forall i :: 0 <= i < |rows| ==> rows[i].isPublished
    ensures IsSubsequence(rows, PageOfPosts(db, params))
    ensures forall p :: p in PageOfPosts(db, params) && p.isPublished ==> p in rows
    ensures |rows| <= ResolveLimit(params)
  {
    var all := GetPosts(db, params);
    var published := (p: Post) => p.isPublished;
    rows := Filter(all, published);
    FilterIsSubsequence(all, published);
    forall p | p in all && p.isPublished ensures p in rows {
      FilterMembers(all, published, p);
    }
  }
}
