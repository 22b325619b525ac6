/** The comment table, in insertion order (the order a `findMany` without
    `orderBy` is taken to return), and the row operations the comment
    service performs on it. */
module CommentRows {
  import opened Records

  ghost predicate UniqueIds(cs: seq<Comment>) {
    forall i, j :: 0 <= i < j < |cs| ==> cs[i].id != cs[j].id
  }

  /** `prisma.comment.findUnique({ where: { id } })`. */
  function Find(cs: seq<Comment>, id: Id): (r: Option<Comment>)
    ensures r.None? <==> forall c :: c in cs ==> c.id != id
    ensures r.Some? ==> r.value in cs && r.value.id == id
  {
    if cs == [] then None
    else if cs[0].id == id then Some(cs[0])
    else Find(cs[1..], id)
  }

  /** `where: { postId }`: the comments of one post, in table order. */
  function OfPost(cs: seq<Comment>, postId: Id): (r: seq<Comment>)
    ensures forall c :: c in r <==> c in cs && c.postId == postId
    ensures |r| <= |cs|
  {
    if cs == [] then []
    else if cs[0].postId == postId then [cs[0]] + OfPost(cs[1..], postId)
    else OfPost(cs[1..], postId)
  }

  /** Each comment of the post is listed as often as it is in the table,
      and no other comment is: the listing holds exactly the rows that
      `count({ where: { postId } })` counts. */
  lemma {:induction false} OfPostMultiset(cs: seq<Comment>, postId: Id)
    ensures forall c :: multiset(OfPost(cs, postId))[c] == if c.postId == postId then multiset(cs)[c] else 0
  {
    if cs != [] {
      OfPostMultiset(cs[1..], postId);
      assert cs == [cs[0]] + cs[1..];
      assert multiset(cs) == multiset([cs[0]]) + multiset(cs[1..]);
    }
  }

  /** A comment added at the end of the table comes last in its post's
      listing, after the post's earlier comments in their table order. */
  lemma {:induction false} OfPostAppend(cs: seq<Comment>, c: Comment, postId: Id)
    ensures OfPost(cs + [c], postId) == OfPost(cs, postId) + (if c.postId == postId then [c] else [])
  {
    if cs == [] {
      assert cs + [c] == [c];
      assert [c][1..] == [];
    } else {
      assert (cs + [c])[1..] == cs[1..] + [c];
      OfPostAppend(cs[1..], c, postId);
    }
  }

  /** `prisma.comment.update({ where: { id }, data })`. */
  function Patched(cs: seq<Comment>, id: Id, patch: CommentPatch): (r: seq<Comment>)
    ensures |r| == |cs|
    ensures forall i :: 0 <= i < |cs| ==>
      r[i] == if cs[i].id == id then ApplyCommentPatch(cs[i], patch) else cs[i]
  {
    if cs == [] then []
    else [if cs[0].id == id then ApplyCommentPatch(cs[0], patch) else cs[0]] + Patched(cs[1..], id, patch)
  }

  /** `prisma.comment.delete({ where: { id } })`. */
  function Without(cs: seq<Comment>, id: Id): (r: seq<Comment>)
    ensures forall c :: c in r <==> c in cs && c.id != id
  {
    if cs == [] then []
    else if cs[0].id == id then Without(cs[1..], id)
    else [cs[0]] + Without(cs[1..], id)
  }

  /** The delete keeps the other comments in table order: a comment at the
      end of the table stays at the end unless it is the one deleted. */
  lemma {:induction false} WithoutAppend(cs: seq<Comment>, c: Comment, id: Id)
    ensures Without(cs + [c], id) == Without(cs, id) + (if c.id == id then [] else [c])
  {
    if cs == [] {
      assert cs + [c] == [c];
      assert [c][1..] == [];
    } else {
      assert (cs + [c])[1..] == cs[1..] + [c];
      WithoutAppend(cs[1..], c, id);
    }
  }

  /** Removing rows keeps the ids distinct. */
  lemma {:induction false} WithoutKeepsUniqueIds(cs: seq<Comment>, id: Id)
    requires UniqueIds(cs)
    ensures UniqueIds(Without(cs, id))
  {
    if cs != [] {
      var tail := cs[1..];
      assert UniqueIds(tail) by {
        forall i, j | 0 <= i < j < |tail| ensures tail[i].id != tail[j].id {
          assert tail[i] == cs[i + 1] && tail[j] == cs[j + 1];
        }
      }
      WithoutKeepsUniqueIds(tail, id);
      if cs[0].id != id {
        var rest := Without(tail, id);
        var r := [cs[0]] + rest;
        forall i, j | 0 <= i < j < |r| ensures r[i].id != r[j].id {
          if i == 0 {
            assert r[j] == rest[j - 1] && rest[j - 1] in rest;
            var m :| 0 <= m < |tail| && tail[m] == r[j];
            assert cs[m + 1] == r[j];
          } else {
            assert r[i] == rest[i - 1] && r[j] == rest[j - 1];
          }
        }
      }
    }
  }

  /** An update keeps every row's id, post and author. */
  lemma PatchedKeepsIdentity(cs: seq<Comment>, id: Id, patch: CommentPatch)
    ensures forall x :: x in Patched(cs, id, patch) ==>
      exists c :: c in cs && c.id == x.id && c.postId == x.postId && c.userId == x.userId
    ensures UniqueIds(cs) ==> UniqueIds(Patched(cs, id, patch))
  {
    var r := Patched(cs, id, patch);
    forall x | x in r ensures exists c :: c in cs && c.id == x.id && c.postId == x.postId && c.userId == x.userId {
      var i :| 0 <= i < |r| && r[i] == x;
      assert cs[i] in cs;
    }
    if UniqueIds(cs) {
      forall i, j | 0 <= i < j < |r| ensures r[i].id != r[j].id {
        assert r[i].id == cs[i].id && r[j].id == cs[j].id;
      }
    }
  }

  /** After an update, looking the comment up finds the updated row. */
  lemma {:induction false} FindPatched(cs: seq<Comment>, id: Id, patch: CommentPatch)
    requires Find(cs, id).Some?
    ensures Find(Patched(cs, id, patch), id) == Some(ApplyCommentPatch(Find(cs, id).value, patch))
  {
    if cs[0].id != id {
      assert Patched(cs, id, patch)[1..] == Patched(cs[1..], id, patch);
      FindPatched(cs[1..], id, patch);
    }
  }

  lemma {:induction false} OfPostNone(cs: seq<Comment>, postId: Id)
    requires forall c :: c in cs ==> c.postId != postId
    ensures OfPost(cs, postId) == []
  {
    if cs != [] {
      assert cs[0] in cs;
      assert forall c :: c in cs[1..] ==> c in cs;
      OfPostNone(cs[1..], postId);
    }
  }
}
