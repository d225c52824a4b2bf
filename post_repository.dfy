/** `PostRepository`: create, list, find, partial update, delete and count over the
    `posts` table. */
module PostRepository {
  import opened Wrappers
  import opened Entities
  import opened Errors
  import opened Requests
  import opened Sequences
  import opened Store

  /** Inserts a post owned by `userId`; `is_published` defaults to false. A missing owner
      is a store error with both tables unchanged. */
  method Create(db: Db, userId: int, data: CreatePostRequest) returns (r: Result<Post, DbErr>)
    requires db.Valid()
    modifies db
    ensures db.Valid()
    ensures db.nextUserId == old(db.nextUserId)
    ensures db.nextPostId == old(db.nextPostId) + 1
    ensures userId !in old(db.users) ==>
      r.Failure? && db.users == old(db.users) && db.posts == old(db.posts)
    ensures userId in old(db.users) ==>
      && r.Success? && r.value.id == old(db.nextPostId)
      && r.value.title == data.title && r.value.content == data.content
      && r.value.userId == userId
      && r.value.isPublished == (data.isPublished.Some? && data.isPublished.value)
      && r.value.id !in old(db.posts)
      && db.posts == old(db.posts)[r.value.id := r.value]
      && db.users == old(db.users)
  {
    r := db.InsertPost(data.title, data.content, userId, data.isPublished.GetOr(false));
  }

  /** The rows in creation order after skipping `(page - 1) * limit`, at most `limit`. */
  method FindAll(db: Db, page: nat, limit: nat) returns (rows: seq<Post>)
    requires db.Valid() && page >= 1
    ensures rows == LimitOffset(db.PostRows(), PageOffset(page, limit), limit)
    ensures |rows| <= limit
    ensures forall i :: 0 <= i < |rows| ==> rows[i] == db.PostRows()[PageOffset(page, limit) + i]
    ensures |rows| == if PageOffset(page, limit) >= |db.posts| then 0
                      else Min(limit, |db.posts| - PageOffset(page, limit))
  {
    var offset := PageOffset(page, limit);
    rows := LimitOffset(db.PostRows(), offset, limit);
  }

  method FindById(db: Db, id: int) returns (r: Option<Post>)
    requires db.Valid()
    ensures r.Some? <==> id in db.posts
    ensures r.Some? ==> r.value == db.posts[id] && r.value.id == id
  {
    r := if id in db.posts then Some(db.posts[id]) else None;
  }

  /** Sets each supplied title, content or `is_published` on the row and writes it back;
      `Ok(None)` with nothing changed for an absent id. Never touches id or owner. */
  method Update(db: Db, id: int, data: UpdatePostRequest) returns (r: Result<Option<Post>, DbErr>)
    requires db.Valid()
    modifies db
    ensures db.Valid()
    ensures db.nextUserId == old(db.nextUserId) && db.nextPostId == old(db.nextPostId)
    ensures id !in old(db.posts) ==> r == Success(None) && unchanged(db)
    ensures id in old(db.posts) ==>
      var p := ApplyPostUpdate(old(db.posts[id]), data);
      && r == Success(Some(p))
      && p.id == id && p.userId == old(db.posts[id].userId)
      && db.posts == old(db.posts)[id := p]
      && db.users == old(db.users)
  {
    var existing := FindById(db, id);
    if existing.None? {
      return Success(None);
    }
    var m := existing.value;
    if data.title.Some? {
      m := m.(title := data.title.value);
    }
    if data.content.Some? {
      m := m.(content := data.content.value);
    }
    if data.isPublished.Some? {
      m := m.(isPublished := data.isPublished.value);
    }
    db.WritePost(m);
    r := Success(Some(m));
  }

  /** True exactly when the row existed; afterwards it is gone and nothing else changed. */
  method Delete(db: Db, id: int) returns (existed: bool)
    requires db.Valid()
    modifies db
    ensures db.Valid()
    ensures db.nextUserId == old(db.nextUserId) && db.nextPostId == old(db.nextPostId)
    ensures existed == (id in old(db.posts))
    ensures db.posts == old(db.posts) - {id}
    ensures db.users == old(db.users)
  {
    var existing := FindById(db, id);
    existed := existing.Some?;
    var _ := db.DeletePost(id);
  }

  /** The number of rows: the size of the table, and the length of the full listing. */
  method Count(db: Db) returns (n: int)
    requires db.Valid()
    ensures n == |db.posts|
    ensures n == |db.PostRows()|
  {
    n := |db.PostRows()|;
  }
}
