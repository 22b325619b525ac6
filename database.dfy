/** The relational store the services share: one table per entity, and the
    integrity the database and the services keep between calls. */
module Db {
  import opened Records
  import LikeRows
  import CommentRows

  /** A like row targets an id handed out to a post when its type is "P",
      and one handed out to a comment otherwise. */
  ghost predicate TargetIssued(l: Like, postIds: set<Id>, commentIds: set<Id>) {
    && (l.likeType == "P" ==> l.likeItemId in postIds)
    && (l.likeType != "P" ==> l.likeItemId in commentIds)
  }

  /** Every like row names an existing user and an issued target, and no key
      has two rows. */
  ghost predicate LikesConsistent(likes: seq<Like>, users: map<Id, User>, postIds: set<Id>, commentIds: set<Id>) {
    && (forall l :: l in likes ==> l.userId in users && TargetIssued(l, postIds, commentIds))
    && LikeRows.AtMostOnePerKey(likes)
  }

  /** Upserting a reaction of an existing user to an issued target keeps the
      like table consistent. */
  lemma UpsertKeepsConsistent(likes: seq<Like>, users: map<Id, User>, postIds: set<Id>, commentIds: set<Id>,
                              k: LikeRows.LikeKey, flag: bool)
    requires LikesConsistent(likes, users, postIds, commentIds)
    requires k.userId in users
    requires TargetIssued(Like(k.likeType, k.likeItemId, k.userId, flag), postIds, commentIds)
    ensures LikesConsistent(LikeRows.Upsert(likes, k, flag), users, postIds, commentIds)
  {
    LikeRows.UpsertKeepsAtMostOne(likes, k, flag);
    var r := LikeRows.Upsert(likes, k, flag);
    if LikeRows.FindFirst(likes, LikeRows.KeyWhere(k)).Some? {
      LikeRows.UpdateManyKeepsKeys(likes, LikeRows.KeyWhere(k), flag);
      forall l | l in r ensures l.userId in users && TargetIssued(l, postIds, commentIds) {
        var m :| m in likes && LikeRows.Key(m) == LikeRows.Key(l);
      }
    }
  }

  /** Updating flags in place keeps the like table consistent, whoever the user is. */
  lemma UpdateManyKeepsConsistent(likes: seq<Like>, users: map<Id, User>, postIds: set<Id>, commentIds: set<Id>,
                                  k: LikeRows.LikeKey, flag: bool)
    requires LikesConsistent(likes, users, postIds, commentIds)
    requires LikeRows.FindFirst(likes, LikeRows.KeyWhere(k)).Some?
    ensures LikesConsistent(LikeRows.Upsert(likes, k, flag), users, postIds, commentIds)
  {
    var m := LikeRows.FindFirst(likes, LikeRows.KeyWhere(k)).value;
    assert Like(k.likeType, k.likeItemId, k.userId, flag).likeType == m.likeType;
    UpsertKeepsConsistent(likes, users, postIds, commentIds, k, flag);
  }

  /** Deleting rows keeps the like table consistent. */
  lemma DeleteKeepsConsistent(likes: seq<Like>, users: map<Id, User>, postIds: set<Id>, commentIds: set<Id>, w: LikeRows.Where)
    requires LikesConsistent(likes, users, postIds, commentIds)
    ensures LikesConsistent(LikeRows.DeleteMany(likes, w), users, postIds, commentIds)
  {
    LikeRows.DeleteManyKeepsAtMostOne(likes, w);
  }

  /** Every comment has an issued id and an existing author, and no id
      appears twice. */
  ghost predicate CommentsConsistent(comments: seq<Comment>, users: map<Id, User>, commentIds: set<Id>) {
    && (forall c :: c in comments ==> c.id in commentIds && c.userId in users)
    && CommentRows.UniqueIds(comments)
  }

  lemma FoundCommentIssued(comments: seq<Comment>, users: map<Id, User>, commentIds: set<Id>, id: Id)
    requires CommentsConsistent(comments, users, commentIds)
    requires CommentRows.Find(comments, id).Some?
    ensures id in commentIds
  {
  }

  lemma PatchedKeepsConsistent(comments: seq<Comment>, users: map<Id, User>, commentIds: set<Id>, id: Id, patch: CommentPatch)
    requires CommentsConsistent(comments, users, commentIds)
    ensures CommentsConsistent(CommentRows.Patched(comments, id, patch), users, commentIds)
  {
    CommentRows.PatchedKeepsIdentity(comments, id, patch);
  }

  lemma WithoutKeepsConsistent(comments: seq<Comment>, users: map<Id, User>, commentIds: set<Id>, id: Id)
    requires CommentsConsistent(comments, users, commentIds)
    ensures CommentsConsistent(CommentRows.Without(comments, id), users, commentIds)
  {
    CommentRows.WithoutKeepsUniqueIds(comments, id);
  }

  ghost predicate UniqueEmails(users: map<Id, User>) {
    forall a, b :: a in users && b in users && users[a].email == users[b].email ==> a == b
  }

  /** Whether some user already has this email
      (`prisma.user.findUnique({ where: { email } })`). */
  predicate EmailTaken(users: map<Id, User>, email: string)
    ensures EmailTaken(users, email) <==> email in (set u | u in users.Values :: u.email)
  {
    exists id :: id in users && users[id].email == email
  }

  class Database {
    var users: map<Id, User>
    var posts: map<Id, Post>
    /** In insertion order. */
    var comments: seq<Comment>
    var likes: seq<Like>
    var tokens: map<Id, Token>
    /** The next fresh id: every id in use is below it. */
    var nextId: nat
    /** Every id ever given to a post, and to a comment, deleted ones included. */
    ghost var postIds: set<Id>
    ghost var commentIds: set<Id>

    ghost predicate Valid()
      reads this
    {
      && (forall id :: id in users ==> id < nextId && users[id].id == id)
      && UniqueEmails(users)
      && (forall id :: id in posts ==> id in postIds && posts[id].id == id && posts[id].userId in users)
      && CommentsConsistent(comments, users, commentIds)
      && (forall id :: id in postIds ==> id < nextId)
      && (forall id :: id in commentIds ==> id < nextId)
      && postIds !! commentIds
      && LikesConsistent(likes, users, postIds, commentIds)
      && (forall id :: id in tokens ==> id < nextId && tokens[id].id == id && tokens[id].userId in users)
    }

    constructor ()
      ensures Valid()
      ensures users == map[] && posts == map[] && comments == [] && likes == [] && tokens == map[] && nextId == 0
    {
      users, posts, comments, likes, tokens := map[], map[], [], [], map[];
      nextId := 0;
      postIds, commentIds := {}, {};
    }
  }
}
