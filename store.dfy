/** The relational store as the core sees it: the `users` and `posts` tables, each a map
    from id to row plus the ids in creation order, with serial id counters.

    The class invariant carries the table constraints: ids are store-assigned, unique and
    never reused; each row sits under its own id; emails are unique among users; every
    post references an existing user. Deleting a user deletes that user's posts (the
    foreign key's `ON DELETE CASCADE`). NOT NULL columns are the non-optional fields of
    the row types. The methods are the single SQL statements the repositories and the
    handlers issue. */
module Store {
  import opened Wrappers
  import opened Entities
  import opened Errors
  import opened Sequences

  /** Ids in `ids` are ascending, below `next`, from 1 up, and exactly the table's keys. */
  ghost predicate TableValid(ids: seq<int>, keys: set<int>, next: int) {
    && 1 <= next
    && Increasing(ids)
    && (forall i :: 0 <= i < |ids| ==> 1 <= ids[i] < next)
    && (forall k :: k in keys <==> k in ids)
  }

  /** The constraints of both tables, on plain values. */
  ghost predicate TablesValid(users: map<int, User>, userIds: seq<int>, nextUserId: int,
                              posts: map<int, Post>, postIds: seq<int>, nextPostId: int)
  {
    && TableValid(userIds, users.Keys, nextUserId)
    && TableValid(postIds, posts.Keys, nextPostId)
    && (forall id :: id in users ==> users[id].id == id)
    && (forall id :: id in posts ==> posts[id].id == id)
    && (forall a, b :: a in users && b in users && a != b ==> users[a].email != users[b].email)
    && (forall id :: id in posts ==> posts[id].userId in users)
  }

  /** One updatable column of `posts` with its new value. */
  datatype PostColumn = Title(title: string) | Content(content: string) | IsPublished(isPublished: bool)

  function SetColumn(p: Post, c: PostColumn): (q: Post)
    ensures q.id == p.id && q.userId == p.userId
  {
    match c
    case Title(t) => p.(title := t)
    case Content(t) => p.(content := t)
    case IsPublished(b) => p.(isPublished := b)
  }

  /** The posts that survive deleting user `uid`. */
  function Cascade(posts: map<int, Post>, uid: int): (r: map<int, Post>)
    ensures forall p :: p in r <==> p in posts && posts[p].userId != uid
    ensures forall p :: p in r ==> r[p] == posts[p]
  {
    map p | p in posts && posts[p].userId != uid :: posts[p]
  }

  /** Removing a user, its posts, and their ids keeps every constraint. */
  lemma DeleteUserKeepsTablesValid(users: map<int, User>, userIds: seq<int>, nextUserId: int,
                                   posts: map<int, Post>, postIds: seq<int>, nextPostId: int, id: int)
    requires TablesValid(users, userIds, nextUserId, posts, postIds, nextPostId)
    ensures var us := users - {id}; var ps := Cascade(posts, id);
      TablesValid(us, KeepOnly(userIds, us.Keys), nextUserId, ps, KeepOnly(postIds, ps.Keys), nextPostId)
  {
    var us := users - {id};
    var ps := Cascade(posts, id);
    KeepIds(userIds, us.Keys);
    KeepIds(postIds, ps.Keys);
    var ui, pi := KeepOnly(userIds, us.Keys), KeepOnly(postIds, ps.Keys);
    assert forall i :: 0 <= i < |ui| ==> ui[i] in userIds;
    assert forall i :: 0 <= i < |pi| ==> pi[i] in postIds;
  }

  /** Removing one post and its id keeps every constraint. */
  lemma DeletePostKeepsTablesValid(users: map<int, User>, userIds: seq<int>, nextUserId: int,
                                   posts: map<int, Post>, postIds: seq<int>, nextPostId: int, id: int)
    requires TablesValid(users, userIds, nextUserId, posts, postIds, nextPostId)
    ensures var ps := posts - {id};
      TablesValid(users, userIds, nextUserId, ps, KeepOnly(postIds, ps.Keys), nextPostId)
  {
    var ps := posts - {id};
    KeepIds(postIds, ps.Keys);
    var pi := KeepOnly(postIds, ps.Keys);
    assert forall i :: 0 <= i < |pi| ==> pi[i] in postIds;
  }

  class Db {
    var users: map<int, User>
    var userIds: seq<int>
    var nextUserId: int
    var posts: map<int, Post>
    var postIds: seq<int>
    var nextPostId: int

    ghost predicate Valid()
      reads this
    {
      TablesValid(users, userIds, nextUserId, posts, postIds, nextPostId)
    }

    /** Freshly migrated, empty tables. */
    constructor ()
      ensures Valid()
      ensures users == map[] && userIds == [] && nextUserId == 1
      ensures posts == map[] && postIds == [] && nextPostId == 1
    {
      users, userIds, nextUserId := map[], [], 1;
      posts, postIds, nextPostId := map[], [], 1;
    }

    /** The user rows in creation order: every row of the table, once each. */
    function UserRows(): (r: seq<User>)
      reads this
      requires Valid()
      ensures |r| == |users| == |userIds|
      ensures forall i :: 0 <= i < |r| ==> r[i] == users[userIds[i]] && r[i] in users.Values
      ensures forall u :: u in users.Values ==> u in r
    {
      IncreasingCard(userIds, users.Keys);
      var m, ids := users, userIds;
      assert forall i :: 0 <= i < |ids| ==> ids[i] in m;
      var r := seq(|ids|, i requires 0 <= i < |ids| => m[ids[i]]);
      assert forall v :: v in m.Values ==> v in r by {
        forall v | v in m.Values ensures v in r {
          var id :| id in m && m[id] == v;
          var i :| 0 <= i < |ids| && ids[i] == id;
          assert r[i] == v;
        }
      }
      r
    }

    /** The post rows in creation order: every row of the table, once each. */
    function PostRows(): (r: seq<Post>)
      reads this
      requires Valid()
      ensures |r| == |posts| == |postIds|
      ensures forall i :: 0 <= i < |r| ==> r[i] == posts[postIds[i]] && r[i] in posts.Values
      ensures forall p :: p in posts.Values ==> p in r
    {
      IncreasingCard(postIds, posts.Keys);
      var m, ids := posts, postIds;
      assert forall i :: 0 <= i < |ids| ==> ids[i] in m;
      var r := seq(|ids|, i requires 0 <= i < |ids| => m[ids[i]]);
      assert forall v :: v in m.Values ==> v in r by {
        forall v | v in m.Values ensures v in r {
          var id :| id in m && m[id] == v;
          var i :| 0 <= i < |ids| && ids[i] == id;
          assert r[i] == v;
        }
      }
      r
    }

    /** `SELECT .. FROM users WHERE email = $1` finds a row. */
    function EmailTaken(email: string): (b: bool)
      reads this
      ensures b <==> exists id :: id in users && users[id].email == email
    {
      exists id | id in users :: users[id].email == email
    }

    /** Some user other than `id` already has `email`. */
    function EmailTakenByOther(email: string, id: int): (b: bool)
      reads this
      ensures b <==> exists o :: o in users && o != id && users[o].email == email
    {
      exists o | o in users :: o != id && users[o].email == email
    }

    /** `INSERT INTO users ..`: a fresh id, or a unique-constraint violation on the email.
        The serial key is drawn before the constraint is checked and is not given back,
        so a refused insert still uses up an id. */
    method InsertUser(email: string, username: string, passwordHash: string,
                      fullName: Option<string>, isActive: bool)
      returns (r: Result<User, DbErr>)
      requires Valid()
      modifies this
      ensures Valid()
      ensures nextUserId == old(nextUserId) + 1
      ensures old(EmailTaken(email)) ==>
        && r.Failure? && r.error.UniqueViolation?
        && users == old(users) && userIds == old(userIds)
        && posts == old(posts) && postIds == old(postIds) && nextPostId == old(nextPostId)
      ensures !old(EmailTaken(email)) ==>
        && r == Success(User(old(nextUserId), email, username, passwordHash, fullName, isActive))
        && r.value.id !in old(users)
        && users == old(users)[r.value.id := r.value]
        && userIds == old(userIds) + [r.value.id]
        && posts == old(posts) && postIds == old(postIds) && nextPostId == old(nextPostId)
    {
      if EmailTaken(email) {
        nextUserId := nextUserId + 1;
        return Failure(UniqueViolation("duplicate key value violates unique constraint \"users_email_key\""));
      }
      var u := User(nextUserId, email, username, passwordHash, fullName, isActive);
      assert nextUserId !in userIds;
      users := users[u.id := u];
      userIds := userIds + [u.id];
      nextUserId := nextUserId + 1;
      r := Success(u);
    }

    /** `UPDATE users SET .. WHERE id = $1` writing the whole row `u`. */
    method WriteUser(u: User) returns (r: Result<User, DbErr>)
      requires Valid() && u.id in users
      modifies this
      ensures Valid()
      ensures old(EmailTakenByOther(u.email, u.id)) ==>
        r.Failure? && r.error.UniqueViolation? && unchanged(this)
      ensures !old(EmailTakenByOther(u.email, u.id)) ==>
        && r == Success(u)
        && users == old(users)[u.id := u]
        && userIds == old(userIds) && nextUserId == old(nextUserId)
        && posts == old(posts) && postIds == old(postIds) && nextPostId == old(nextPostId)
    {
      if EmailTakenByOther(u.email, u.id) {
        return Failure(UniqueViolation("duplicate key value violates unique constraint \"users_email_key\""));
      }
      users := users[u.id := u];
      r := Success(u);
    }

    /** `DELETE FROM users WHERE id = $1`, cascading to the user's posts; the number of
        user rows removed. */
    method DeleteUser(id: int) returns (affected: nat)
      requires Valid()
      modifies this
      ensures Valid()
      ensures affected == if id in old(users) then 1 else 0
      ensures users == old(users) - {id}
      ensures posts == Cascade(old(posts), id)
      ensures userIds == KeepOnly(old(userIds), users.Keys)
      ensures postIds == KeepOnly(old(postIds), posts.Keys)
      ensures nextUserId == old(nextUserId) && nextPostId == old(nextPostId)
    {
      DeleteUserKeepsTablesValid(users, userIds, nextUserId, posts, postIds, nextPostId, id);
      affected := if id in users then 1 else 0;
      var keptUsers := users - {id};
      var keptPosts := Cascade(posts, id);
      users, userIds := keptUsers, KeepOnly(userIds, keptUsers.Keys);
      posts, postIds := keptPosts, KeepOnly(postIds, keptPosts.Keys);
    }

    /** `INSERT INTO posts ..`: a fresh id, or a foreign-key violation when the owner does
        not exist; as for users, a refused insert still uses up an id. */
    method InsertPost(title: string, content: string, userId: int, isPublished: bool)
      returns (r: Result<Post, DbErr>)
      requires Valid()
      modifies this
      ensures Valid()
      ensures nextPostId == old(nextPostId) + 1
      ensures userId !in old(users) ==>
        && r.Failure? && r.error.ForeignKeyViolation?
        && posts == old(posts) && postIds == old(postIds)
        && users == old(users) && userIds == old(userIds) && nextUserId == old(nextUserId)
      ensures userId in old(users) ==>
        && r == Success(Post(old(nextPostId), title, content, userId, isPublished))
        && r.value.id !in old(posts)
        && posts == old(posts)[r.value.id := r.value]
        && postIds == old(postIds) + [r.value.id]
        && users == old(users) && userIds == old(userIds) && nextUserId == old(nextUserId)
    {
      if userId !in users {
        nextPostId := nextPostId + 1;
        return Failure(ForeignKeyViolation("insert or update on table \"posts\" violates foreign key constraint \"fk_posts_user_id\""));
      }
      var p := Post(nextPostId, title, content, userId, isPublished);
      assert nextPostId !in postIds;
      posts := posts[p.id := p];
      postIds := postIds + [p.id];
      nextPostId := nextPostId + 1;
      r := Success(p);
    }

    /** `UPDATE posts SET .. WHERE id = $1` writing the row `p` as the ORM's update does;
        the owner column is never among the columns it sets. */
    method WritePost(p: Post)
      requires Valid() && p.id in posts && p.userId == posts[p.id].userId
      modifies this
      ensures Valid()
      ensures posts == old(posts)[p.id := p]
      ensures postIds == old(postIds) && nextPostId == old(nextPostId)
      ensures users == old(users) && userIds == old(userIds) && nextUserId == old(nextUserId)
    {
      posts := posts[p.id := p];
    }

    /** `UPDATE posts SET <column> = $1 WHERE id = $2`; the number of rows changed. */
    method SetPostColumn(id: int, c: PostColumn) returns (affected: nat)
      requires Valid()
      modifies this
      ensures Valid()
      ensures affected == if id in old(posts) then 1 else 0
      ensures posts == if id in old(posts) then old(posts)[id := SetColumn(old(posts)[id], c)] else old(posts)
      ensures postIds == old(postIds) && nextPostId == old(nextPostId)
      ensures users == old(users) && userIds == old(userIds) && nextUserId == old(nextUserId)
    {
      if id in posts {
        posts := posts[id := SetColumn(posts[id], c)];
        affected := 1;
      } else {
        affected := 0;
      }
    }

    /** `DELETE FROM posts WHERE id = $1`; the number of rows removed. */
    method DeletePost(id: int) returns (affected: nat)
      requires Valid()
      modifies this
      ensures Valid()
      ensures affected == if id in old(posts) then 1 else 0
      ensures posts == old(posts) - {id}
      ensures postIds == KeepOnly(old(postIds), posts.Keys)
      ensures users == old(users) && userIds == old(userIds)
      ensures nextUserId == old(nextUserId) && nextPostId == old(nextPostId)
    {
      DeletePostKeepsTablesValid(users, userIds, nextUserId, posts, postIds, nextPostId, id);
      affected := if id in posts then 1 else 0;
      var kept := posts - {id};
      posts, postIds := kept, KeepOnly(postIds, kept.Keys);
    }
  }
}
