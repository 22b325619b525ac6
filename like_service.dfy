/** The generic like service: a reaction (like or dislike) of a user to a
    post (type "P") or to a comment (any other type). */
module LikeService {
  import opened Records
  import opened LikeRows
  import opened Db
  import CommentRows

  /** The target check: type "P" looks in the post table, any other type
      in the comment table. */
  predicate TargetExists(posts: map<Id, Post>, comments: seq<Comment>, likeType: string, likeItemId: Id)
    ensures TargetExists(posts, comments, likeType, likeItemId) <==>
      if likeType == "P" then likeItemId in posts else exists c :: c in comments && c.id == likeItemId
  {
    if likeType == "P" then likeItemId in posts else CommentRows.Find(comments, likeItemId).Some?
  }

  function MissingTarget(likeType: string): (e: Error)
    ensures e.NotFound?
    ensures e.message == if likeType == "P" then "Post not found" else "Comment not found"
  {
    if likeType == "P" then NotFound("Post not found") else NotFound("Comment not found")
  }

  /** Create the user's reaction to the target, or overwrite it. A missing
      target fails with NotFound and the table is untouched; inserting for a
      user that does not exist fails with the storage's foreign-key error,
      which is rethrown as it is. */
  method CreateUpdateLike(db: Database, likeType: string, userId: Id, likeItemId: Id, like: bool)
    returns (r: Result<()>)
    requires db.Valid()
    modifies db
    ensures db.Valid()
    ensures db.users == old(db.users) && db.posts == old(db.posts) && db.comments == old(db.comments)
    ensures db.tokens == old(db.tokens) && db.nextId == old(db.nextId)
    ensures db.postIds == old(db.postIds) && db.commentIds == old(db.commentIds)
    ensures !TargetExists(old(db.posts), old(db.comments), likeType, likeItemId) ==>
      r == Err(MissingTarget(likeType)) && db.likes == old(db.likes)
    ensures TargetExists(old(db.posts), old(db.comments), likeType, likeItemId) ==>
      var k := LikeKey(likeType, likeItemId, userId);
      if FindFirst(old(db.likes), KeyWhere(k)).None? && userId !in old(db.users) then
        r == Err(ForeignKeyViolation) && db.likes == old(db.likes)
      else
        && r == Ok(())
        && db.likes == Upsert(old(db.likes), k, like)
        && HoldsReaction(db.likes, k, like)
  {
    var k := LikeKey(likeType, likeItemId, userId);
    var found := FindFirst(db.likes, KeyWhere(k));
    if !TargetExists(db.posts, db.comments, likeType, likeItemId) {
      return Err(MissingTarget(likeType));
    }
    ExistingTargetIssued(db, likeType, likeItemId, userId, like);
    if found.None? && userId !in db.users {
      return Err(ForeignKeyViolation);
    }
    UpsertAllowed(db.likes, db.users, db.postIds, db.commentIds, k, like);
    if found.None? {
      db.likes := db.likes + [Like(likeType, likeItemId, userId, like)];
    } else {
      db.likes := UpdateMany(db.likes, KeyWhere(k), like);
    }
    r := Ok(());
  }

  /** A target that passes the check carries an issued id of its kind. */
  lemma ExistingTargetIssued(db: Database, likeType: string, likeItemId: Id, userId: Id, flag: bool)
    requires db.Valid()
    requires TargetExists(db.posts, db.comments, likeType, likeItemId)
    ensures TargetIssued(Like(likeType, likeItemId, userId, flag), db.postIds, db.commentIds)
  {
    if likeType != "P" {
      FoundCommentIssued(db.comments, db.users, db.commentIds, likeItemId);
    }
  }

  /** An upsert the storage accepts, because the row exists or its user does,
      leaves one row under the key, carrying the new flag, and keeps the like
      table consistent. */
  lemma UpsertAllowed(likes: seq<Like>, users: map<Id, User>, postIds: set<Id>, commentIds: set<Id>, k: LikeKey, flag: bool)
    requires LikesConsistent(likes, users, postIds, commentIds)
    requires FindFirst(likes, KeyWhere(k)).Some? || k.userId in users
    requires TargetIssued(Like(k.likeType, k.likeItemId, k.userId, flag), postIds, commentIds)
    ensures LikesConsistent(Upsert(likes, k, flag), users, postIds, commentIds)
    ensures HoldsReaction(Upsert(likes, k, flag), k, flag)
  {
    if FindFirst(likes, KeyWhere(k)).None? {
      UpsertKeepsConsistent(likes, users, postIds, commentIds, k, flag);
    } else {
      UpdateManyKeepsConsistent(likes, users, postIds, commentIds, k, flag);
    }
    UpsertExactlyOne(likes, k, flag);
  }

  /** Remove the user's reaction to the target. A missing target fails with
      NotFound; otherwise every row under the key goes, and no row at all
      is a no-op that still succeeds. */
  method DeleteLike(db: Database, likeType: string, userId: Id, likeItemId: Id) returns (r: Result<()>)
    requires db.Valid()
    modifies db
    ensures db.Valid()
    ensures db.users == old(db.users) && db.posts == old(db.posts) && db.comments == old(db.comments)
    ensures db.tokens == old(db.tokens) && db.nextId == old(db.nextId)
    ensures db.postIds == old(db.postIds) && db.commentIds == old(db.commentIds)
    ensures !TargetExists(old(db.posts), old(db.comments), likeType, likeItemId) ==>
      r == Err(MissingTarget(likeType)) && db.likes == old(db.likes)
    ensures TargetExists(old(db.posts), old(db.comments), likeType, likeItemId) ==>
      var k := LikeKey(likeType, likeItemId, userId);
      && r == Ok(())
      && db.likes == DeleteMany(old(db.likes), KeyWhere(k))
      && Count(db.likes, KeyWhere(k)) == 0
  {
    if !TargetExists(db.posts, db.comments, likeType, likeItemId) {
      return Err(MissingTarget(likeType));
    }
    var k := LikeKey(likeType, likeItemId, userId);
    DeleteKeepsConsistent(db.likes, db.users, db.postIds, db.commentIds, KeyWhere(k));
    db.likes := DeleteMany(db.likes, KeyWhere(k));
    r := Ok(());
  }
}
