# Microblog services: a verified model

This project models the service layer of a small microblog backend. Users
register, write posts and comment on them, and like or dislike posts and
comments. The backend keeps five tables: users, posts, comments, likes and
session tokens. Each service method runs a few queries against them.

The model has these parts:

- a `Db.Database` class holding the five tables (`users`, `posts` and
  `tokens` as maps from id to row, `comments` and `likes` as sequences in
  table order), a counter for fresh ids, and a `Valid()` invariant;
  - `Valid()` covers foreign keys to users, ids found in their own rows,
    unique emails, like rows that point at an issued post or comment id,
    and at most one like row per (type, item, user);
- the like table's queries (`count`, `findFirst`, `updateMany`,
  `deleteMany`) as pure functions over a where-clause (`LikeRows`), and the
  comment table's lookups and updates the same way (`CommentRows`);
- the paginated comment listing as a pure function (`CommentService.GetComments`,
  built on `Pagination` and `Decimal`);
- every state-changing service operation as a method on the database with a
  `Result` return. It carries the error messages of the source. Its
  contract states all of the new state and keeps `Valid()`;
- read-only operations (`PostService.Get`, `CommentService.GetComment`) as
  pure functions.

Where the code's behaviour and its evident intent differ, the model follows
the code:

- `PostService.Get` counts dislikes with the `like: true` query, so
  `countDislike` always equals `countLike`.
- `CommentService.Create` does the same.
- The generic like upsert constructs `NotFound('User not found')` but never
  throws it. A foreign-key failure therefore surfaces as the storage error
  itself, modelled as `ForeignKeyViolation`.

Hashing the password and signing the access token are parameters of
`UserService.Create` (`hash`, `accessToken`). Fresh ids come from a
counter and stand for the uuids the database generates.

## Model

| member | source | states |
|---|---|---|
| LikeRows.KeyWhere | src/services/like.service.ts:56-61 | the where-clause of the upsert and the like delete matches a row exactly when the row's (type, item, user) is the key |
| LikeRows.ItemWhere | src/services/post.service.ts:96-101 | the cascade clause matches exactly the rows of the given type on the given item |
| LikeRows.Count | src/services/post.service.ts:39-44 | `count` is at most the table size, and is zero exactly when no row matches |
| LikeRows.FindFirst | src/services/like.service.ts:15-22 | `findFirst` finds nothing exactly when no row matches; otherwise it returns a matching row of the table |
| LikeRows.UpdateMany | src/services/like.service.ts:56-65 | `updateMany` keeps the table's length and order, sets the flag of every matching row and leaves every other row as it is |
| LikeRows.DeleteMany | src/services/like.service.ts:104-110 | `deleteMany` keeps exactly the rows that do not match, and removes as many rows as `count` reports |
| LikeRows.Upsert | src/services/like.service.ts:46-66 | the upsert grows the table by one row exactly when no row has the key, and afterwards the table holds the key's row with the requested flag |
| LikeRows.UpsertExactlyOne | src/services/like.service.ts:46-66 | under the uniqueness invariant, after an upsert the key has exactly one row, and it carries the requested flag |
| LikeRows.UpsertKeepsAtMostOne | src/services/like.service.ts:46-66 | the upsert never gives a key a second row |
| LikeRows.UpsertKeepsOtherKeys | src/services/like.service.ts:56-65 | a row under any other key is in the table after an upsert exactly when it was before |
| LikeRows.UpsertLastWins | src/services/like.service.ts:46-66 | two upserts on one key leave the table as the second alone would |
| LikeRows.UpdateManyTwice | src/services/like.service.ts:56-65 | two flag rewrites under a clause without a flag filter equal the second one alone |
| LikeRows.UpdateManyKeepsKeys | src/services/like.service.ts:56-65 | every row after a flag rewrite has the key of some row from before |
| LikeRows.CountUpdateMany | src/services/like.service.ts:56-65 | a flag rewrite on a key keeps the key's row count, and every one of those rows now carries the new flag |
| LikeRows.CountKeyAtMostOne | src/services/like.service.ts:15-22 | under the uniqueness invariant a key matches at most one row |
| LikeRows.CountAppend | src/services/like.service.ts:47-54 | an inserted row raises a count by one exactly when it matches the clause |
| LikeRows.DeleteManyAfterUpdateMany | src/services/like.service.ts:104-110 | deleting a key after rewriting its flags gives the same table as deleting it straight away |
| LikeRows.DeleteManyAppend | src/services/like.service.ts:104-110 | a row at the end of the table is removed by the delete exactly when it matches and otherwise stays last, so the remaining rows keep their order |
| LikeRows.DeleteUndoesUpsert | src/services/like.service.ts:104-110 | a delete on a key undoes any upsert on that key |
| LikeRows.DeleteManyNoMatch | src/services/like.service.ts:104-110 | a delete that matches no row leaves the table unchanged, so deleting a missing reaction is a no-op |
| LikeRows.DeleteManyKeepsAtMostOne | src/services/like.service.ts:104-110 | a delete keeps the uniqueness invariant |
| LikeRows.DeleteManyKeepsDisjointCount | src/services/comment.service.ts:246-251 | a delete leaves unchanged the count of any clause that matches none of its rows |
| LikeRows.CountIgnoresType | src/services/post.service.ts:39-44 | leaving out the type filter changes nothing when every row on the item has one type |
| LikeRows.CountTypedAtMostUntyped | src/services/post.service.ts:39-44 | adding a type filter can only lower a count |
| LikeRows.CountSplitsByFlag | src/services/comment.service.ts:146-159 | the like=true count and the like=false count add up to the count without a flag filter |
| Db.UpsertKeepsConsistent | src/services/like.service.ts:46-54 | upserting a reaction of an existing user to an issued target keeps every like row pointing at a user and an issued target, with at most one row per key |
| Db.UpdateManyKeepsConsistent | src/services/like.service.ts:55-66 | when the key already has a row, the upsert keeps the like table consistent, whoever the user named in the call is |
| Db.DeleteKeepsConsistent | src/services/like.service.ts:104-110 | any like delete keeps the like table consistent |
| Db.PatchedKeepsConsistent | src/services/comment.service.ts:192-199 | a comment update keeps every comment's id issued, its author existing and ids unique |
| Db.WithoutKeepsConsistent | src/services/comment.service.ts:241-245 | a comment delete keeps the comment table consistent |
| Db.FoundCommentIssued | src/services/like.service.ts:36-43 | a comment the lookup finds has an id issued to a comment |
| Records.ApplyPostPatch | src/services/post.service.ts:66-73 | a post update overwrites exactly the supplied title, content and visibility, and keeps id and owner |
| Records.ApplyCommentPatch | src/services/comment.service.ts:192-199 | a comment update overwrites exactly the supplied content and visibility, and keeps id, post and author |
| Records.UserNameOf | src/services/comment.service.ts:161-172 | the nested author select yields the author's userName exactly when the author exists |
| CommentRows.Find | src/services/comment.service.ts:139-144 | `findUnique` by id finds nothing exactly when no comment has the id; otherwise it returns a comment with that id |
| CommentRows.OfPost | src/services/comment.service.ts:46-51 | the comments of a post are exactly the table's comments with that post id, and no more rows than the table has |
| CommentRows.OfPostMultiset | src/services/comment.service.ts:28-32 | the comments of a post hold each comment of that post as often as the table does, and no other comment |
| CommentRows.OfPostAppend | src/services/comment.service.ts:46-51 | a comment appended to the table comes last in its post's list and leaves every other post's list as it was, so the listing keeps table order |
| CommentRows.Patched | src/services/comment.service.ts:192-199 | a comment update patches the row with the id and leaves every other row and the order unchanged |
| CommentRows.Without | src/services/comment.service.ts:241-245 | a comment delete keeps exactly the comments with another id |
| CommentRows.WithoutAppend | src/services/comment.service.ts:241-245 | a comment at the end of the table is dropped by the delete exactly when it has the id and otherwise stays last, so the other comments keep their table order and multiplicity |
| CommentRows.WithoutKeepsUniqueIds | src/services/comment.service.ts:241-245 | deleting a comment keeps comment ids unique |
| CommentRows.PatchedKeepsIdentity | src/services/comment.service.ts:192-199 | an update keeps every comment's id, post and author, and keeps ids unique |
| CommentRows.FindPatched | src/services/comment.service.ts:216-227 | after an update, looking the comment up finds the patched row |
| CommentRows.OfPostNone | src/services/comment.service.ts:28-32 | a post that no comment points at has an empty comment list |
| Decimal.IsDigits | src/services/comment.service.ts:34-35 | the test `/^0{0}[0-9]*$/` accepts a string exactly when every character of it is a decimal digit, the empty string included |
| Decimal.Value | src/services/comment.service.ts:38-39 | `parseInt` of a digit string is a natural number below 10 to the power of its length |
| Decimal.ValueOfSpelling | src/services/comment.service.ts:38-39 | a digit string that spells some number reads back as that number |
| Decimal.Show | src/services/comment.service.ts:34-36 | the decimal spelling of a number is a non-empty string that the digit test accepts |
| Decimal.ValueOfShow | src/services/comment.service.ts:38-39 | `parseInt` of a number's decimal spelling gives the number back |
| Decimal.ValueIgnoresLeadingZero | src/services/comment.service.ts:38-39 | a leading zero changes neither the digit test nor the value |
| Pagination.CeilDiv | src/services/comment.service.ts:41 | `Math.ceil(n / d)` is the fewest pages of `d` items that hold `n` items, and it is zero only for no items |
| Pagination.Paginate | src/services/comment.service.ts:41-75 | a page number past the last page fails with 'Pages limit exceeded'; otherwise the result is a full page: its items are the min(take, count − take·(page−1)) items read in order from offset take·(page−1), at least one, with totals, page size and current page, and with next/previous absent exactly at the last/first page |
| Pagination.PageSliceWithin | src/services/comment.service.ts:46-48 | a skip that starts inside the list selects a full page: min(take, count − skip) items, at least one, read in order from the skip offset |
| Pagination.PageSliceIsWindow | src/services/comment.service.ts:46-48 | `findMany({ skip, take })` (`Pagination.PageSlice`) returns nothing when the skip is past the end, and otherwise the min(take, count − skip) rows from the skip offset on, in order |
| Pagination.SkipBeforeEnd | src/services/comment.service.ts:41-48 | any page up to the last one starts inside the list |
| Pagination.NavigationStaysInRange | src/services/comment.service.ts:63-64 | the announced next and previous pages are pages that succeed |
| Pagination.EmptyListRejectsEveryPage | src/services/comment.service.ts:41-44 | a list with no items rejects every page |
| Pagination.PagesUpToIsPrefix | src/services/comment.service.ts:46-48 | pages 1 to q, read one after another, are the list's first q·take items |
| Pagination.PagesCoverList | src/services/comment.service.ts:41-48 | reading every page from the first to the last returns every item exactly once, in order |
| CommentService.GetComments | src/services/comment.service.ts:12-80 | a missing post is 'Post does not exist', checked before the parameters; a non-digit parameter is "Page or take aren't numbers"; it succeeds exactly when the default-or-decimal page is at most ceil(count/take), and fails otherwise with 'Pages limit exceeded'; on success it returns the totals, next and previous pages (absent exactly at the last and first page, otherwise one page away) and the entries of the post's comments on that page |
| CommentService.ParamValue | src/services/comment.service.ts:38-39 | an empty parameter stands for its default; a non-empty one for a number below 10 to the power of its length, and a number's own spelling for that number |
| CommentService.ItemOf | src/services/comment.service.ts:52-61 | the select of one comment keeps its id, content and visibility, and has its author's userName exactly when the author exists |
| CommentService.Items | src/services/comment.service.ts:52-61 | the select of the page keeps one entry per comment, in order, each with that comment's id, content and visibility |
| CommentService.PaginateItems | src/services/comment.service.ts:46-62 | selecting a page of entries and projecting a page of comments to entries agree |
| CommentService.GetCommentsDefaults | src/services/comment.service.ts:38-39 | empty parameters mean page 1 of 10 comments |
| CommentService.GetCommentsDecimal | src/services/comment.service.ts:34-48 | page and size given in decimal select that page of the post's comments |
| CommentService.GetCommentsCoverPost | src/services/comment.service.ts:41-75 | every page from 1 up to the last succeeds, and together the pages list every comment of the post once, in order |
| CommentService.GetCommentsOfUncommentedPost | src/services/comment.service.ts:41-44 | a post without comments rejects every page with 'Pages limit exceeded' |
| CommentService.GetCommentsOnFifteenComments | src/services/comment.service.spec.ts:79-122 | with 15 comments, size 5 pages 1 to 3 succeed and page 3 is last and full; size 10 page 3 fails; "a"/"b" and "0"/"a" are not numbers; an unknown post is NotFound, with page "0" too |
| CommentService.GetComment | src/services/comment.service.ts:137-185 | a missing comment is 'Comment does not exist'; otherwise the comment with that id, its type-"C" like=true and like=false counts, and its author's userName |
| CommentService.CommentWhereMatches | src/services/comment.service.ts:146-159 | the clause behind the comment counters matches exactly the type-"C" rows on the comment with the given flag |
| CommentService.GetCommentCountsPartition | src/services/comment.service.ts:146-159 | the two counters together count every type-"C" reaction on the comment once |
| CommentService.Create | src/services/comment.service.ts:82-135 | a missing user or post is "User or post doesn't exist" and changes nothing; otherwise one comment is appended with a fresh id, and both counters run the like=true query and are 0 |
| CommentService.Update | src/services/comment.service.ts:187-237 | a missing comment is 'Comment not found' and changes nothing; otherwise the comment is patched in place and the result has the patched row, its like/dislike counts and author name |
| CommentService.UpdateReadsBack | src/services/comment.service.ts:201-233 | what the update returns is what reading the comment afterwards returns |
| CommentService.Delete | src/services/comment.service.ts:239-256 | a missing comment is 'Comment not found' and changes nothing; otherwise the comment goes, every type-"C" like on it goes, other likes stay, and the result is true |
| LikeService.CreateUpdateLike | src/services/like.service.ts:8-75 | type "P" needs the post, any other type the comment, else 'Post not found'/'Comment not found' with likes unchanged; inserting for a missing user fails with the foreign-key error and likes unchanged; otherwise the upsert, after which the key has exactly one row carrying the flag |
| LikeService.TargetExists | src/services/like.service.ts:24-44 | the target check passes for type "P" exactly when the post exists, and for any other type exactly when some comment has the id |
| LikeService.MissingTarget | src/services/like.service.ts:84-102 | a failed target check is NotFound, 'Post not found' for type "P" and 'Comment not found' otherwise |
| LikeService.ExistingTargetIssued | src/services/like.service.ts:24-44 | a target that passes the check was issued as a post id (type "P") or a comment id (any other type) |
| LikeService.UpsertAllowed | src/services/like.service.ts:46-66 | an upsert the storage accepts keeps the like table consistent and leaves one row under the key, carrying the flag |
| LikeService.DeleteLike | src/services/like.service.ts:77-111 | a missing target is 'Post not found'/'Comment not found' with likes unchanged; otherwise every row of the key goes and no other row changes, even when there was none |
| PostService.Create | src/services/post.service.ts:12-28 | an unknown user is "user doesn't exist" and changes nothing; otherwise one post owned by the user, with the given fields and a fresh id, is inserted and returned |
| PostService.Get | src/services/post.service.ts:30-59 | a missing post is "Post doesn't exist"; otherwise the post, countLike = the like=true rows on its id of any type, and countDislike equal to countLike as the queries are written |
| PostService.LikedWhere | src/services/post.service.ts:39-50 | the clause behind both post counters matches exactly the rows on the post id whose flag is true, whatever their type |
| PostService.GetCountsOnlyPostLikes | src/services/post.service.ts:39-44 | in a consistent store the missing type filter is harmless: countLike is the number of type-"P" likes of the post |
| PostService.GetIgnoresDislikes | src/services/post.service.ts:45-50 | a post disliked once reads zero dislikes |
| PostService.Update | src/services/post.service.ts:61-88 | a missing post is 'Post not found' and changes nothing; otherwise the supplied fields overwrite and the patched post is returned |
| PostService.Delete | src/services/post.service.ts:89-106 | a missing post is 'Post not found' and changes nothing; otherwise the post goes, every type-"P" like on it goes, comments stay, and the result is true |
| PostService.CreateUpdateLike | src/services/post.service.ts:108-163 | a missing post is 'Post not found'; inserting for a missing user fails with the foreign-key error; otherwise the ("P", post, user) upsert leaves exactly one row carrying the flag |
| PostService.DeleteLike | src/services/post.service.ts:165-194 | a missing post is 'Post not found'; otherwise every ("P", post, user) row goes, a no-op when there is none |
| Db.EmailTaken | src/services/user.service.ts:22-30 | the email lookup finds a user exactly when the email is among the emails of the stored users |
| UserService.NewUser | src/services/user.service.ts:32-38 | the stored user has the input's name, userName and email, the hashed password and role "U" |
| UserService.InsertKeepsUniqueEmails | src/services/user.service.ts:22-38 | adding a user whose email nobody has keeps emails unique |
| UserService.Create | src/services/user.service.ts:18-60 | a registered email is UnprocessableEntity 'email already taken' and changes nothing; otherwise one user with a fresh id and one token for it are inserted, and the result is the access token of that token's id |
| UserService.RegisterTwice | src/services/user.service.spec.ts:16-28 | registering the same email twice fails the second time and leaves one account with one token |

## Left out

- Prisma, Express, passport, the controllers and the routes are not part of this model. `auth.service.ts` is not part of this model: its token insert appears as one map update, and JWT signing is the `accessToken` parameter.
- `hashSync` (bcrypt) is the `hash` parameter. The confirmation email (SendGrid) is not modelled. Its failure is caught and logged, so it never affects the result or the tables.
- The `exp` field of the returned token needs the wall clock, so it is not modelled. Neither are the `createdAt`/`updatedAt` timestamps or the uuid format of ids.
- `getProfile` only logs a row to the console; it is not modelled.
- CommentService.GetComments: requires, only when the post exists and both parameters are digit strings, that a non-empty `page` or `take` denotes at least 1. Past those two checks, page 0 gives Prisma a negative skip and size 0 divides by zero in floating point; both leave integer arithmetic. A missing post or a non-digit parameter is modelled for every spelling, "0" included.
- CommentService.GetComments: reads digit strings as exact unbounded integers. `parseInt` loses precision beyond 2^53.
- Only sequential calls are modelled. The read-then-write race in the like upsert, which could insert two rows for one key, is outside the model.
- Schema-level behaviour the services do not show (database cascades, unique indexes other than the email lookup) is not modelled. The comment listing's order is the table's insertion order.
- Foreign-key failures of the ORM appear only where the code can meet them:
  - a post for a missing user
  - a comment for a missing user or post
  - a like insert for a missing user
- PostService.Delete: the storage's referential action for the post's comments (refusing the delete, or cascading it to the comments) is part of the database schema, which is not part of this model. The model keeps the comments in place, and the comment's post is not part of the store invariant, so such comments stay readable and likeable after the delete.
- The `NotFound('User not found')` branches in the catch blocks of `PostService.createUpdateLike` and `deleteLike` react to a record-not-found error that none of their queries raises. They are unreachable, so the model does not have them.
- The comment controllers are empty stubs, except the two like controllers; they are not part of this model.
