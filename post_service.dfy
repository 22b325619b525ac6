/** The post service: create, read (with like counters), update and delete
    a post, and the post-only copies of the like operations. */
module PostService {
  import opened Records
  import opened LikeRows
  import opened Db

  /** Insert a post owned by the user. Any storage failure, which here is the
      foreign key to a missing user, becomes NotFound. */
  method Create(db: Database, userId: Id, data: PostInput) returns (r: Result<Post>)
    requires db.Valid()
    modifies db
    ensures db.Valid()
    ensures userId !in old(db.users) ==> r == Err(NotFound("user doesn't exist")) && unchanged(db)
    ensures userId in old(db.users) ==>
      var id := old(db.nextId);
      && r == Ok(Post(id, data.title, data.content, data.isPublic, userId))
      && id !in old(db.posts)
      && db.posts == old(db.posts)[id := r.value]
      && db.postIds == old(db.postIds) + {id}
      && db.nextId == id + 1
    ensures db.users == old(db.users) && db.comments == old(db.comments) && db.likes == old(db.likes)
    ensures db.tokens == old(db.tokens) && db.commentIds == old(db.commentIds)
  {
    if userId !in db.users {
      return Err(NotFound("user doesn't exist"));
    }
    var id := db.nextId;
    var post := Post(id, data.title, data.content, data.isPublic, userId);
    db.posts := db.posts[id := post];
    db.postIds := db.postIds + {id};
    db.nextId := id + 1;
    r := Ok(post);
  }

  /** `where: { likeItemId: postId, like: true }`: the query behind both
      counters, with no type filter. */
  function LikedWhere(postId: Id): (w: Where)
    ensures forall l :: Matches(l, w) <==> l.likeItemId == postId && l.like
  {
    Where(None, postId, None, Some(true))
  }

  /** Read a post with its counters, as the queries are written: both
      counters count the rows on the id whose flag is true, whatever their
      type, so `countDislike` always equals `countLike`. */
  function Get(posts: map<Id, Post>, likes: seq<Like>, postId: Id): (r: Result<PostView>)
    ensures r.Err? <==> postId !in posts
    ensures r.Err? ==> r.error == NotFound("Post doesn't exist")
    ensures r.Ok? ==> r.value.post == posts[postId]
    ensures r.Ok? ==> r.value.countLike == Count(likes, LikedWhere(postId))
    ensures r.Ok? ==> r.value.countDislike == r.value.countLike
  {
    if postId !in posts then Err(NotFound("Post doesn't exist"))
    else
      var countLike := Count(likes, LikedWhere(postId));
      var countDislike := Count(likes, LikedWhere(postId));
      Ok(PostView(posts[postId], countLike, countDislike))
  }

  /** In a consistent store every row on a post's id has type "P", so the
      missing type filter is harmless: `countLike` is exactly the number of
      likes of the post. */
  lemma GetCountsOnlyPostLikes(likes: seq<Like>, users: map<Id, User>, postIds: set<Id>, commentIds: set<Id>, postId: Id)
    requires LikesConsistent(likes, users, postIds, commentIds)
    requires postIds !! commentIds
    requires postId in postIds
    ensures Count(likes, LikedWhere(postId)) == Count(likes, Where(Some("P"), postId, None, Some(true)))
  {
    forall l | l in likes && l.likeItemId == postId ensures l.likeType == "P" {
      assert TargetIssued(l, postIds, commentIds);
    }
    CountIgnoresType(likes, LikedWhere(postId), "P");
  }

  /** `countDislike` does not count dislikes: a post disliked once reads
      zero dislikes. */
  lemma GetIgnoresDislikes(p: Post)
    ensures var likes := [Like("P", p.id, p.userId, false)];
      && Count(likes, Where(Some("P"), p.id, None, Some(false))) == 1
      && Get(map[p.id := p], likes, p.id).value.countDislike == 0
  {
    var likes := [Like("P", p.id, p.userId, false)];
    assert likes[1..] == [];
  }

  /** Overwrite the supplied fields of an existing post. A missing post
      (the storage's record-not-found error) becomes NotFound. */
  method Update(db: Database, postId: Id, patch: PostPatch) returns (r: Result<Post>)
    requires db.Valid()
    modifies db
    ensures db.Valid()
    ensures postId !in old(db.posts) ==> r == Err(NotFound("Post not found")) && unchanged(db)
    ensures postId in old(db.posts) ==>
      && r == Ok(ApplyPostPatch(old(db.posts)[postId], patch))
      && db.posts == old(db.posts)[postId := r.value]
    ensures db.users == old(db.users) && db.comments == old(db.comments) && db.likes == old(db.likes)
    ensures db.tokens == old(db.tokens) && db.nextId == old(db.nextId)
    ensures db.postIds == old(db.postIds) && db.commentIds == old(db.commentIds)
  {
    if postId !in db.posts {
      return Err(NotFound("Post not found"));
    }
    var updated := ApplyPostPatch(db.posts[postId], patch);
    db.posts := db.posts[postId := updated];
    r := Ok(updated);
  }

  /** Delete the post, then every like of type "P" on it. A missing post is
      NotFound and nothing is removed. Comments are not touched. */
  method Delete(db: Database, postId: Id) returns (r: Result<bool>)
    requires db.Valid()
    modifies db
    ensures db.Valid()
    ensures postId !in old(db.posts) ==> r == Err(NotFound("Post not found")) && unchanged(db)
    ensures postId in old(db.posts) ==>
      && r == Ok(true)
      && db.posts == old(db.posts) - {postId}
      && db.likes == DeleteMany(old(db.likes), ItemWhere("P", postId))
      && Count(db.likes, ItemWhere("P", postId)) == 0
    ensures db.users == old(db.users) && db.comments == old(db.comments)
    ensures db.tokens == old(db.tokens) && db.nextId == old(db.nextId)
    ensures db.postIds == old(db.postIds) && db.commentIds == old(db.commentIds)
  {
    if postId !in db.posts {
      return Err(NotFound("Post not found"));
    }
    db.posts := db.posts - {postId};
    DeleteKeepsConsistent(db.likes, db.users, db.postIds, db.commentIds, ItemWhere("P", postId));
    db.likes := DeleteMany(db.likes, ItemWhere("P", postId));
    r := Ok(true);
  }

  /** The post-only copy of the like upsert. Its catch maps only the
      record-not-found error, which none of its queries raises, so it
      behaves as the generic one called with type "P". */
  method CreateUpdateLike(db: Database, userId: Id, postId: Id, like: bool) returns (r: Result<()>)
    requires db.Valid()
    modifies db
    ensures db.Valid()
    ensures db.users == old(db.users) && db.posts == old(db.posts) && db.comments == old(db.comments)
    ensures db.tokens == old(db.tokens) && db.nextId == old(db.nextId)
    ensures db.postIds == old(db.postIds) && db.commentIds == old(db.commentIds)
    ensures postId !in old(db.posts) ==> r == Err(NotFound("Post not found")) && db.likes == old(db.likes)
    ensures postId in old(db.posts) ==>
      var k := LikeKey("P", postId, userId);
      if FindFirst(old(db.likes), KeyWhere(k)).None? && userId !in old(db.users) then
        r == Err(ForeignKeyViolation) && db.likes == old(db.likes)
      else
        && r == Ok(())
        && db.likes == Upsert(old(db.likes), k, like)
        && HoldsReaction(db.likes, k, like)
  {
    var k := LikeKey("P", postId, userId);
    var found := FindFirst(db.likes, KeyWhere(k));
    if postId !in db.posts {
      return Err(NotFound("Post not found"));
    }
    if found.None? {
      if userId !in db.users {
        return Err(ForeignKeyViolation);
      }
      UpsertKeepsConsistent(db.likes, db.users, db.postIds, db.commentIds, k, like);
      UpsertExactlyOne(db.likes, k, like);
      db.likes := db.likes + [Like("P", postId, userId, like)];
    } else {
      UpdateManyKeepsConsistent(db.likes, db.users, db.postIds, db.commentIds, k, like);
      UpsertExactlyOne(db.likes, k, like);
      db.likes := UpdateMany(db.likes, KeyWhere(k), like);
    }
    r := Ok(());
  }

  /** The post-only copy of the like delete. */
  method DeleteLike(db: Database, userId: Id, postId: Id) returns (r: Result<()>)
    requires db.Valid()
    modifies db
    ensures db.Valid()
    ensures db.users == old(db.users) && db.posts == old(db.posts) && db.comments == old(db.comments)
    ensures db.tokens == old(db.tokens) && db.nextId == old(db.nextId)
    ensures db.postIds == old(db.postIds) && db.commentIds == old(db.commentIds)
    ensures postId !in old(db.posts) ==> r == Err(NotFound("Post not found")) && db.likes == old(db.likes)
    ensures postId in old(db.posts) ==>
      var k := LikeKey("P", postId, userId);
      && r == Ok(())
      && db.likes == DeleteMany(old(db.likes), KeyWhere(k))
      && Count(db.likes, KeyWhere(k)) == 0
  {
    if postId !in db.posts {
      return Err(NotFound("Post not found"));
    }
    var k := LikeKey("P", postId, userId);
    DeleteKeepsConsistent(db.likes, db.users, db.postIds, db.commentIds, KeyWhere(k));
    db.likes := DeleteMany(db.likes, KeyWhere(k));
    r := Ok(());
  }
}
