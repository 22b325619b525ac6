/** The comment service: the paginated listing of a post's comments, and
    create, read, update and delete of one comment with its like counters. */
module CommentService {
  import opened Records
  import opened LikeRows
  import opened Db
  import opened CommentRows
  import opened Decimal
  import opened Pagination

  /** One entry of the listing: `select: { id, content, isPublic, user: { select: { userName } } }`. */
  datatype CommentItem = CommentItem(id: Id, content: string, isPublic: bool, userName: Option<string>)

  function ItemOf(c: Comment, users: map<Id, User>): (r: CommentItem)
    ensures r.id == c.id && r.content == c.content && r.isPublic == c.isPublic
    ensures r.userName.Some? <==> c.userId in users
    ensures r.userName.Some? ==> r.userName.value == users[c.userId].userName
  {
    CommentItem(c.id, c.content, c.isPublic, UserNameOf(users, c.userId))
  }

  function Items(cs: seq<Comment>, users: map<Id, User>): (r: seq<CommentItem>)
    ensures |r| == |cs|
    ensures forall i :: 0 <= i < |cs| ==> r[i].id == cs[i].id && r[i].content == cs[i].content && r[i].isPublic == cs[i].isPublic
  {
    seq(|cs|, i requires 0 <= i < |cs| => ItemOf(cs[i], users))
  }

  /** The number a query parameter stands for: the default when it is
      empty (`!page`), its decimal value otherwise. */
  function ParamValue(s: string, default: nat): (r: nat)
    requires IsDigits(s)
    ensures s == [] ==> r == default
    ensures s != [] ==> r < Pow10(|s|)
    ensures forall n :: s == Show(n) ==> r == n
  {
    if s == [] then default else ValueOfSpelling(s); Value(s)
  }

  /** A non-empty digit string names at least 1. Page 0 and page size 0, once
      the post exists and both parameters are digits, lead the source outside
      integer arithmetic (a negative skip, a division by zero) and are not
      modelled. */
  predicate PositiveIfGiven(s: string) {
    IsDigits(s) && s != [] ==> Value(s) >= 1
  }

  /** The listing of a post's comments, one page at a time. The post is looked
      up first, then the parameters are checked, then the page is bounded. */
  function GetComments(page: string, take: string, postId: Id,
                       posts: map<Id, Post>, users: map<Id, User>, comments: seq<Comment>): (r: Result<Page<CommentItem>>)
    requires postId in posts && IsDigits(page) && IsDigits(take) ==> PositiveIfGiven(page) && PositiveIfGiven(take)
    ensures postId !in posts ==> r == Err(NotFound("Post does not exist"))
    ensures postId in posts && !(IsDigits(page) && IsDigits(take)) ==> r == Err(InternalError("Page or take aren't numbers"))
    ensures r.Ok? <==>
      && postId in posts && IsDigits(page) && IsDigits(take)
      && ParamValue(page, 1) <= CeilDiv(|OfPost(comments, postId)|, ParamValue(take, 10))
    ensures postId in posts && IsDigits(page) && IsDigits(take) && r.Err? ==> r.error == InternalError("Pages limit exceeded")
    ensures r.Ok? ==>
      var all := OfPost(comments, postId);
      var take, page := ParamValue(take, 10), ParamValue(page, 1);
      var p := r.value.pagination;
      && p.totalItems == |all|
      && p.itemsPerPage == take
      && p.currentPage == page
      && p.totalPages == CeilDiv(|all|, take)
      && (p.nextPage.None? <==> page == p.totalPages)
      && (p.nextPage.Some? ==> p.nextPage.value == page + 1)
      && (p.previousPage.None? <==> page == 1)
      && (p.previousPage.Some? ==> p.previousPage.value == page - 1)
      && 1 <= |r.value.items| <= take
      && r.value.items == Items(PageSlice(all, page, take), users)
  {
    if postId !in posts then Err(NotFound("Post does not exist"))
    else
      var all := OfPost(comments, postId);
      if !IsDigits(page) || !IsDigits(take) then Err(InternalError("Page or take aren't numbers"))
      else
        PaginateItems(all, users, ParamValue(page, 1), ParamValue(take, 10));
        Paginate(Items(all, users), ParamValue(page, 1), ParamValue(take, 10))
  }

  /** A page of listing entries is the entries of the same page of comments. */
  lemma PaginateItems(all: seq<Comment>, users: map<Id, User>, page: nat, take: nat)
    requires page >= 1 && take >= 1
    ensures |Items(all, users)| == |all|
    ensures PageSlice(Items(all, users), page, take) == Items(PageSlice(all, page, take), users)
  {
  }

  /** Empty parameters mean page 1 of 10 comments. */
  lemma GetCommentsDefaults(postId: Id, posts: map<Id, Post>, users: map<Id, User>, comments: seq<Comment>)
    ensures GetComments("", "", postId, posts, users, comments) == GetComments("1", "10", postId, posts, users, comments)
  {
    assert Value("1") == 1;
    assert Value("10") == 10 by {
      assert "10"[..1] == "1";
    }
  }

  /** A page number and size written in decimal select the page that
      `Paginate` describes. */
  lemma GetCommentsDecimal(p: nat, t: nat, postId: Id, posts: map<Id, Post>, users: map<Id, User>, comments: seq<Comment>)
    requires p >= 1 && t >= 1
    requires postId in posts
    ensures PositiveIfGiven(Show(p)) && PositiveIfGiven(Show(t))
    ensures GetComments(Show(p), Show(t), postId, posts, users, comments) == Paginate(Items(OfPost(comments, postId), users), p, t)
  {
    ValueOfShow(p);
    ValueOfShow(t);
  }

  /** Asking for pages 1 to the last, in decimal, lists every comment of the
      post exactly once and in order. */
  lemma GetCommentsCoverPost(t: nat, postId: Id, posts: map<Id, Post>, users: map<Id, User>, comments: seq<Comment>)
    requires t >= 1
    requires postId in posts
    ensures var all := Items(OfPost(comments, postId), users);
      && (forall p :: 1 <= p <= CeilDiv(|all|, t) ==>
            && PositiveIfGiven(Show(p)) && PositiveIfGiven(Show(t))
            && GetComments(Show(p), Show(t), postId, posts, users, comments).Ok?
            && GetComments(Show(p), Show(t), postId, posts, users, comments).value.items == PageSlice(all, p, t))
      && PagesUpTo(all, t, CeilDiv(|all|, t)) == all
  {
    var all := Items(OfPost(comments, postId), users);
    forall p | 1 <= p <= CeilDiv(|all|, t)
      ensures && PositiveIfGiven(Show(p)) && PositiveIfGiven(Show(t))
              && GetComments(Show(p), Show(t), postId, posts, users, comments).Ok?
              && GetComments(Show(p), Show(t), postId, posts, users, comments).value.items == PageSlice(all, p, t)
    {
      GetCommentsDecimal(p, t, postId, posts, users, comments);
    }
    PagesCoverList(all, t);
  }

  /** A post without comments has no page: every page number fails. */
  lemma GetCommentsOfUncommentedPost(page: string, take: string, postId: Id,
                                     posts: map<Id, Post>, users: map<Id, User>, comments: seq<Comment>)
    requires PositiveIfGiven(page) && PositiveIfGiven(take)
    requires postId in posts && IsDigits(page) && IsDigits(take)
    requires forall c :: c in comments ==> c.postId != postId
    ensures GetComments(page, take, postId, posts, users, comments) == Err(InternalError("Pages limit exceeded"))
  {
    OfPostNone(comments, postId);
  }

  /** The cases the service's own tests exercise, on a post with 15 comments:
      pages of 5 exist up to page 3, page 3 of 10 does not, letters are
      refused, and a missing post is reported before anything else. */
  lemma GetCommentsOnFifteenComments(postId: Id, missing: Id, posts: map<Id, Post>, users: map<Id, User>, comments: seq<Comment>)
    requires postId in posts && missing !in posts
    requires |OfPost(comments, postId)| == 15
    ensures GetComments("1", "5", postId, posts, users, comments).Ok?
    ensures GetComments("2", "5", postId, posts, users, comments).Ok?
    ensures GetComments("3", "5", postId, posts, users, comments).Ok?
    ensures |GetComments("3", "5", postId, posts, users, comments).value.items| == 5
    ensures GetComments("3", "5", postId, posts, users, comments).value.pagination.nextPage == None
    ensures GetComments("3", "10", postId, posts, users, comments) == Err(InternalError("Pages limit exceeded"))
    ensures GetComments("a", "b", postId, posts, users, comments) == Err(InternalError("Page or take aren't numbers"))
    ensures GetComments("1", "10", missing, posts, users, comments) == Err(NotFound("Post does not exist"))
    ensures GetComments("0", "5", missing, posts, users, comments) == Err(NotFound("Post does not exist"))
    ensures GetComments("0", "a", postId, posts, users, comments) == Err(InternalError("Page or take aren't numbers"))
  {
    assert Value("1") == 1 && Value("2") == 2 && Value("3") == 3 && Value("5") == 5;
    assert Value("10") == 10 by {
      assert "10"[..1] == "1";
    }
    assert CeilDiv(15, 5) == 3;
    assert CeilDiv(15, 10) == 2;
    assert !IsDigit('a');
  }

  /** `where: { likeItemId, type: 'C', like }`. */
  function CommentWhere(commentId: Id, like: bool): Where {
    Where(Some("C"), commentId, None, Some(like))
  }

  /** The counters' clause matches exactly the type-"C" rows on the comment
      with the given flag. */
  lemma CommentWhereMatches(commentId: Id, like: bool)
    ensures forall l :: Matches(l, CommentWhere(commentId, like)) <==>
      l.likeType == "C" && l.likeItemId == commentId && l.like == like
  {
  }

  /** Read one comment with its counters: likes and dislikes of type "C". */
  function GetComment(comments: seq<Comment>, users: map<Id, User>, likes: seq<Like>, commentId: Id): (r: Result<CommentView>)
    ensures r.Err? <==> forall c :: c in comments ==> c.id != commentId
    ensures r.Err? ==> r.error == NotFound("Comment does not exist")
    ensures r.Ok? ==> r.value.comment in comments && r.value.comment.id == commentId
    ensures r.Ok? ==> r.value.countLike == Count(likes, CommentWhere(commentId, true))
    ensures r.Ok? ==> r.value.countDisLike == Count(likes, CommentWhere(commentId, false))
    ensures r.Ok? ==> r.value.userName == UserNameOf(users, r.value.comment.userId)
  {
    match Find(comments, commentId)
    case None => Err(NotFound("Comment does not exist"))
    case Some(c) =>
      Ok(CommentView(c, Count(likes, CommentWhere(commentId, true)), Count(likes, CommentWhere(commentId, false)),
                     UserNameOf(users, c.userId)))
  }

  /** Read's two counters split the comment's reactions of type "C": each row
      is counted by exactly one of them. */
  lemma GetCommentCountsPartition(comments: seq<Comment>, users: map<Id, User>, likes: seq<Like>, commentId: Id)
    requires GetComment(comments, users, likes, commentId).Ok?
    ensures var v := GetComment(comments, users, likes, commentId).value;
      v.countLike + v.countDisLike == Count(likes, ItemWhere("C", commentId))
  {
    CountSplitsByFlag(likes, ItemWhere("C", commentId));
  }

  /** Insert a comment of the user on the post. A missing user or post (the
      foreign keys) becomes NotFound. Both counters run the like=true query,
      and on a fresh comment both are 0. */
  method Create(db: Database, userId: Id, postId: Id, data: CommentInput) returns (r: Result<CommentView>)
    requires db.Valid()
    modifies db
    ensures db.Valid()
    ensures userId !in old(db.users) || postId !in old(db.posts) ==>
      r == Err(NotFound("User or post doesn't exist")) && unchanged(db)
    ensures userId in old(db.users) && postId in old(db.posts) ==>
      var id := old(db.nextId);
      var c := Comment(id, data.content, data.isPublic, postId, userId);
      && db.comments == old(db.comments) + [c]
      && db.commentIds == old(db.commentIds) + {id}
      && db.nextId == id + 1
      && r.Ok? && r.value.comment == c
      && r.value.countLike == Count(db.likes, CommentWhere(id, true))
      && r.value.countDisLike == Count(db.likes, CommentWhere(id, true))
      && r.value.countLike == 0 && r.value.countDisLike == 0
      && r.value.userName == Some(old(db.users)[userId].userName)
    ensures db.users == old(db.users) && db.posts == old(db.posts) && db.likes == old(db.likes)
    ensures db.tokens == old(db.tokens) && db.postIds == old(db.postIds)
  {
    if userId !in db.users || postId !in db.posts {
      return Err(NotFound("User or post doesn't exist"));
    }
    var id := db.nextId;
    var c := Comment(id, data.content, data.isPublic, postId, userId);
    forall l | l in db.likes ensures !Matches(l, CommentWhere(id, true)) {
      assert TargetIssued(l, db.postIds, db.commentIds);
    }
    var countLike := Count(db.likes, CommentWhere(id, true));
    var countDislike := Count(db.likes, CommentWhere(id, true));
    db.comments := db.comments + [c];
    db.commentIds := db.commentIds + {id};
    db.nextId := id + 1;
    r := Ok(CommentView(c, countLike, countDislike, UserNameOf(db.users, userId)));
  }

  /** Overwrite the supplied fields of an existing comment and return it with
      its counters. Any failure, which here is a missing comment, becomes
      NotFound. */
  method Update(db: Database, commentId: Id, patch: CommentPatch) returns (r: Result<CommentView>)
    requires db.Valid()
    modifies db
    ensures db.Valid()
    ensures Find(old(db.comments), commentId).None? ==> r == Err(NotFound("Comment not found")) && unchanged(db)
    ensures Find(old(db.comments), commentId).Some? ==>
      var c := ApplyCommentPatch(Find(old(db.comments), commentId).value, patch);
      && db.comments == Patched(old(db.comments), commentId, patch)
      && r == Ok(CommentView(c, Count(db.likes, CommentWhere(commentId, true)), Count(db.likes, CommentWhere(commentId, false)),
                             UserNameOf(db.users, c.userId)))
      && r == GetComment(db.comments, db.users, db.likes, commentId)
    ensures db.users == old(db.users) && db.posts == old(db.posts) && db.likes == old(db.likes)
    ensures db.tokens == old(db.tokens) && db.nextId == old(db.nextId)
    ensures db.postIds == old(db.postIds) && db.commentIds == old(db.commentIds)
  {
    var found := Find(db.comments, commentId);
    if found.None? {
      return Err(NotFound("Comment not found"));
    }
    var c := ApplyCommentPatch(found.value, patch);
    PatchedKeepsConsistent(db.comments, db.users, db.commentIds, commentId, patch);
    UpdateReadsBack(db.comments, db.users, db.likes, commentId, patch);
    db.comments := Patched(db.comments, commentId, patch);
    r := Ok(CommentView(c, Count(db.likes, CommentWhere(commentId, true)), Count(db.likes, CommentWhere(commentId, false)),
                        UserNameOf(db.users, c.userId)));
  }

  /** What the update returns is what reading the comment afterwards
      returns: the patched row, its counters and its author's name. */
  lemma UpdateReadsBack(comments: seq<Comment>, users: map<Id, User>, likes: seq<Like>, commentId: Id, patch: CommentPatch)
    requires Find(comments, commentId).Some?
    ensures var c := ApplyCommentPatch(Find(comments, commentId).value, patch);
      GetComment(Patched(comments, commentId, patch), users, likes, commentId)
      == Ok(CommentView(c, Count(likes, CommentWhere(commentId, true)), Count(likes, CommentWhere(commentId, false)),
                        UserNameOf(users, c.userId)))
  {
    FindPatched(comments, commentId, patch);
  }

  /** Delete the comment, then every like of type "C" on it. A missing comment
      is NotFound and nothing is removed. */
  method Delete(db: Database, commentId: Id) returns (r: Result<bool>)
    requires db.Valid()
    modifies db
    ensures db.Valid()
    ensures Find(old(db.comments), commentId).None? ==> r == Err(NotFound("Comment not found")) && unchanged(db)
    ensures Find(old(db.comments), commentId).Some? ==>
      && r == Ok(true)
      && db.comments == Without(old(db.comments), commentId)
      && db.likes == DeleteMany(old(db.likes), ItemWhere("C", commentId))
      && Count(db.likes, ItemWhere("C", commentId)) == 0
    ensures db.users == old(db.users) && db.posts == old(db.posts)
    ensures db.tokens == old(db.tokens) && db.nextId == old(db.nextId)
    ensures db.postIds == old(db.postIds) && db.commentIds == old(db.commentIds)
  {
    if Find(db.comments, commentId).None? {
      return Err(NotFound("Comment not found"));
    }
    WithoutKeepsConsistent(db.comments, db.users, db.commentIds, commentId);
    db.comments := Without(db.comments, commentId);
    DeleteKeepsConsistent(db.likes, db.users, db.postIds, db.commentIds, ItemWhere("C", commentId));
    db.likes := DeleteMany(db.likes, ItemWhere("C", commentId));
    r := Ok(true);
  }
}
