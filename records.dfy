/** The rows of the microblog's relational store, the request records the
    services accept, the records they return, and the error kinds they raise. */
module Records {

  /** Row identifiers. The store hands them out fresh (they stand for the
      uuids the database generates). */
  type Id = nat

  datatype Option<+T> = None | Some(value: T)

  /** The HTTP errors a service call ends with. `InternalError` is a plain
      `Error` (no HTTP status of its own); `ForeignKeyViolation` is the
      storage error the like insert rethrows unchanged. */
  datatype Error =
    | NotFound(message: string)
    | UnprocessableEntity(message: string)
    | InternalError(message: string)
    | ForeignKeyViolation

  datatype Result<+T> = Ok(value: T) | Err(error: Error)

  datatype User = User(id: Id, name: string, userName: string, email: string, password: string, role: string)

  datatype Post = Post(id: Id, title: string, content: string, isPublic: bool, userId: Id)

  datatype Comment = Comment(id: Id, content: string, isPublic: bool, postId: Id, userId: Id)

  /** A like row: `likeType` is "P" for a post and anything else for a comment. */
  datatype Like = Like(likeType: string, likeItemId: Id, userId: Id, like: bool)

  /** A session-token row; its id is the jti embedded in the access token. */
  datatype Token = Token(id: Id, userId: Id)

  /** Registration input; the password is the plaintext, hashed before it is stored. */
  datatype UserInput = UserInput(name: string, userName: string, email: string, password: string)

  datatype PostInput = PostInput(title: string, content: string, isPublic: bool)

  /** An update body: absent fields are left as they are. */
  datatype PostPatch = PostPatch(title: Option<string>, content: Option<string>, isPublic: Option<bool>)

  datatype CommentInput = CommentInput(content: string, isPublic: bool)

  datatype CommentPatch = CommentPatch(content: Option<string>, isPublic: Option<bool>)

  function OrElse<T>(o: Option<T>, default: T): (r: T)
    ensures o.Some? ==> r == o.value
    ensures o.None? ==> r == default
  {
    match o
    case Some(v) => v
    case None => default
  }

  /** `prisma.post.update({ data: { ...data } })`: the supplied fields overwrite. */
  function ApplyPostPatch(p: Post, patch: PostPatch): (r: Post)
    ensures r.id == p.id && r.userId == p.userId
    ensures r.title == OrElse(patch.title, p.title)
    ensures r.content == OrElse(patch.content, p.content)
    ensures r.isPublic == OrElse(patch.isPublic, p.isPublic)
  {
    p.(title := OrElse(patch.title, p.title),
       content := OrElse(patch.content, p.content),
       isPublic := OrElse(patch.isPublic, p.isPublic))
  }

  function ApplyCommentPatch(c: Comment, patch: CommentPatch): (r: Comment)
    ensures r.id == c.id && r.postId == c.postId && r.userId == c.userId
    ensures r.content == OrElse(patch.content, c.content)
    ensures r.isPublic == OrElse(patch.isPublic, c.isPublic)
  {
    c.(content := OrElse(patch.content, c.content),
       isPublic := OrElse(patch.isPublic, c.isPublic))
  }

  /** The shape of `GetPostDto`: the post with its two counters. */
  datatype PostView = PostView(post: Post, countLike: nat, countDislike: nat)

  /** The shape of `ResponseCommentDto`: the comment, its two counters and its author's userName. */
  datatype CommentView = CommentView(comment: Comment, countLike: nat, countDisLike: nat, userName: Option<string>)

  /** The userName of a user, as the nested `select: { user: { select: { userName } } }` yields it. */
  function UserNameOf(users: map<Id, User>, userId: Id): (r: Option<string>)
    ensures r.Some? <==> userId in users
    ensures r.Some? ==> r.value == users[userId].userName
  {
    if userId in users then Some(users[userId].userName) else None
  }
}
