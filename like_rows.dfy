/** The like table and the four Prisma queries the services run on it
    (`count`, `findFirst`, `updateMany`, `deleteMany`), each filtered by a
    where-clause, together with the upsert that `createUpdateLike` builds
    from them and the facts about them the services rely on. */
module LikeRows {
  import opened Records

  /** A where-clause on the like table. `likeItemId` is always given; the
      other columns filter only when present. */
  datatype Where = Where(likeType: Option<string>, likeItemId: Id, userId: Option<Id>, like: Option<bool>)

  /** The identity of a like: one reaction per (type, likeItemId, userId). */
  datatype LikeKey = LikeKey(likeType: string, likeItemId: Id, userId: Id)

  function Key(l: Like): LikeKey {
    LikeKey(l.likeType, l.likeItemId, l.userId)
  }

  predicate Matches(l: Like, w: Where) {
    && (w.likeType.None? || l.likeType == w.likeType.value)
    && l.likeItemId == w.likeItemId
    && (w.userId.None? || l.userId == w.userId.value)
    && (w.like.None? || l.like == w.like.value)
  }

  /** `where: { type, likeItemId, userId }`, the clause of the upsert and of `deleteLike`. */
  function KeyWhere(k: LikeKey): (w: Where)
    ensures forall l :: Matches(l, w) <==> Key(l) == k
  {
    Where(Some(k.likeType), k.likeItemId, Some(k.userId), None)
  }

  /** `where: { likeItemId, type }`, the clause of the cascade on post and comment delete. */
  function ItemWhere(likeType: string, item: Id): (w: Where)
    ensures forall l :: Matches(l, w) <==> l.likeType == likeType && l.likeItemId == item
  {
    Where(Some(likeType), item, None, None)
  }

  /** `prisma.like.count({ where })`. */
  function Count(rows: seq<Like>, w: Where): (n: nat)
    ensures n <= |rows|
    ensures n == 0 <==> forall l :: l in rows ==> !Matches(l, w)
  {
    if rows == [] then 0
    else (if Matches(rows[0], w) then 1 else 0) + Count(rows[1..], w)
  }

  /** `prisma.like.findFirst({ where })`: the first matching row in table order. */
  function FindFirst(rows: seq<Like>, w: Where): (r: Option<Like>)
    ensures r.None? <==> forall l :: l in rows ==> !Matches(l, w)
    ensures r.Some? ==> r.value in rows && Matches(r.value, w)
  {
    if rows == [] then None
    else if Matches(rows[0], w) then Some(rows[0])
    else FindFirst(rows[1..], w)
  }

  /** `prisma.like.updateMany({ where, data: { like } })`: every matching row
      gets the new flag, in place; the rest stay as they are. */
  function UpdateMany(rows: seq<Like>, w: Where, flag: bool): (r: seq<Like>)
    ensures |r| == |rows|
    ensures forall i :: 0 <= i < |rows| ==>
      r[i] == if Matches(rows[i], w) then rows[i].(like := flag) else rows[i]
  {
    if rows == [] then []
    else
      [if Matches(rows[0], w) then rows[0].(like := flag) else rows[0]] + UpdateMany(rows[1..], w, flag)
  }

  /** `prisma.like.deleteMany({ where })`: exactly the matching rows go, the
      rest keep their order (`DeleteManyAppend`). */
  function DeleteMany(rows: seq<Like>, w: Where): (r: seq<Like>)
    ensures forall l :: l in r <==> l in rows && !Matches(l, w)
    ensures |r| == |rows| - Count(rows, w)
  {
    if rows == [] then []
    else if Matches(rows[0], w) then DeleteMany(rows[1..], w)
    else [rows[0]] + DeleteMany(rows[1..], w)
  }

  /** One reaction per (type, likeItemId, userId): at most one like row
      under each key. */
  ghost predicate AtMostOnePerKey(rows: seq<Like>) {
    forall i, j :: 0 <= i < j < |rows| ==> Key(rows[i]) != Key(rows[j])
  }

  /** What `createUpdateLike` does to the table once its target exists and
      the insert is allowed: insert a row when none matches the key,
      otherwise overwrite the flag of every matching row. */
  function Upsert(rows: seq<Like>, k: LikeKey, flag: bool): (r: seq<Like>)
    ensures |r| == |rows| + (if FindFirst(rows, KeyWhere(k)).None? then 1 else 0)
    ensures Like(k.likeType, k.likeItemId, k.userId, flag) in r
  {
    if FindFirst(rows, KeyWhere(k)).None? then rows + [Like(k.likeType, k.likeItemId, k.userId, flag)]
    else UpdateMany(rows, KeyWhere(k), flag)
  }

  lemma {:induction false} CountAppend(rows: seq<Like>, x: Like, w: Where)
    ensures Count(rows + [x], w) == Count(rows, w) + (if Matches(x, w) then 1 else 0)
  {
    if rows == [] {
      assert rows + [x] == [x];
    } else {
      assert (rows + [x])[1..] == rows[1..] + [x];
      CountAppend(rows[1..], x, w);
    }
  }

  /** Under the uniqueness invariant, a key matches at most one row. */
  lemma {:induction false} CountKeyAtMostOne(rows: seq<Like>, k: LikeKey)
    requires AtMostOnePerKey(rows)
    ensures Count(rows, KeyWhere(k)) <= 1
  {
    if rows != [] {
      assert AtMostOnePerKey(rows[1..]) by {
        forall i, j | 0 <= i < j < |rows[1..]|
          ensures Key(rows[1..][i]) != Key(rows[1..][j])
        {
          assert rows[1..][i] == rows[i + 1] && rows[1..][j] == rows[j + 1];
        }
      }
      CountKeyAtMostOne(rows[1..], k);
      if Key(rows[0]) == k {
        forall l | l in rows[1..] ensures !Matches(l, KeyWhere(k)) {
          var j :| 0 <= j < |rows[1..]| && rows[1..][j] == l;
          assert rows[j + 1] == l;
        }
      }
    }
  }

  /** Rewriting flags keeps every row's key, so a matching row keeps matching. */
  lemma {:induction false} CountUpdateMany(rows: seq<Like>, k: LikeKey, flag: bool)
    ensures Count(UpdateMany(rows, KeyWhere(k), flag), KeyWhere(k)) == Count(rows, KeyWhere(k))
    ensures Count(UpdateMany(rows, KeyWhere(k), flag), KeyWhere(k).(like := Some(flag))) == Count(rows, KeyWhere(k))
  {
    if rows != [] {
      var r := UpdateMany(rows, KeyWhere(k), flag);
      assert r[1..] == UpdateMany(rows[1..], KeyWhere(k), flag);
      CountUpdateMany(rows[1..], k, flag);
    }
  }

  /** The key has exactly one row, and that row carries the flag. */
  predicate HoldsReaction(rows: seq<Like>, k: LikeKey, flag: bool) {
    && Count(rows, KeyWhere(k)) == 1
    && Count(rows, KeyWhere(k).(like := Some(flag))) == 1
  }

  /** After an upsert the key has exactly one row, and that row carries the
      requested flag. */
  lemma UpsertExactlyOne(rows: seq<Like>, k: LikeKey, flag: bool)
    requires AtMostOnePerKey(rows)
    ensures HoldsReaction(Upsert(rows, k, flag), k, flag)
  {
    var x := Like(k.likeType, k.likeItemId, k.userId, flag);
    if FindFirst(rows, KeyWhere(k)).None? {
      CountAppend(rows, x, KeyWhere(k));
      CountAppend(rows, x, KeyWhere(k).(like := Some(flag)));
      assert Count(rows, KeyWhere(k).(like := Some(flag))) == 0;
    } else {
      CountKeyAtMostOne(rows, k);
      CountUpdateMany(rows, k, flag);
    }
  }

  /** The upsert never creates a second row for a key. */
  lemma UpsertKeepsAtMostOne(rows: seq<Like>, k: LikeKey, flag: bool)
    requires AtMostOnePerKey(rows)
    ensures AtMostOnePerKey(Upsert(rows, k, flag))
  {
    var r := Upsert(rows, k, flag);
    if FindFirst(rows, KeyWhere(k)).None? {
      forall i, j | 0 <= i < j < |r| ensures Key(r[i]) != Key(r[j]) {
        if j == |rows| {
          assert r[i] == rows[i] && rows[i] in rows;
        } else {
          assert r[i] == rows[i] && r[j] == rows[j];
        }
      }
    } else {
      forall i, j | 0 <= i < j < |r| ensures Key(r[i]) != Key(r[j]) {
        assert Key(r[i]) == Key(rows[i]) && Key(r[j]) == Key(rows[j]);
      }
    }
  }

  /** Rows under any other key are neither added, removed nor changed. */
  lemma UpsertKeepsOtherKeys(rows: seq<Like>, k: LikeKey, flag: bool, l: Like)
    requires Key(l) != k
    ensures l in Upsert(rows, k, flag) <==> l in rows
  {
    var r := Upsert(rows, k, flag);
    if FindFirst(rows, KeyWhere(k)).Some? {
      if l in rows {
        var i :| 0 <= i < |rows| && rows[i] == l;
        assert r[i] == l;
      }
      if l in r {
        var i :| 0 <= i < |r| && r[i] == l;
        assert rows[i] == l;
      }
    }
  }

  lemma {:induction false} UpdateManyTwice(rows: seq<Like>, w: Where, a: bool, b: bool)
    requires w.like.None?
    ensures UpdateMany(UpdateMany(rows, w, a), w, b) == UpdateMany(rows, w, b)
  {
    var once := UpdateMany(rows, w, a);
    var twice := UpdateMany(once, w, b);
    var direct := UpdateMany(rows, w, b);
    assert |twice| == |direct|;
    forall i | 0 <= i < |rows| ensures twice[i] == direct[i] {
      assert Matches(once[i], w) == Matches(rows[i], w);
    }
  }

  /** A second reaction by the same user to the same target leaves the table
      as if only the second had happened: the latest flag wins and no row is
      duplicated. */
  lemma UpsertLastWins(rows: seq<Like>, k: LikeKey, a: bool, b: bool)
    ensures Upsert(Upsert(rows, k, a), k, b) == Upsert(rows, k, b)
  {
    var x := Like(k.likeType, k.likeItemId, k.userId, a);
    var once := Upsert(rows, k, a);
    assert FindFirst(once, KeyWhere(k)).Some? by {
      if FindFirst(rows, KeyWhere(k)).None? {
        assert x in once && Matches(x, KeyWhere(k));
      } else {
        var y := FindFirst(rows, KeyWhere(k)).value;
        var i :| 0 <= i < |rows| && rows[i] == y;
        assert Matches(once[i], KeyWhere(k));
        assert once[i] in once;
      }
    }
    var twice := UpdateMany(once, KeyWhere(k), b);
    if FindFirst(rows, KeyWhere(k)).None? {
      var direct := rows + [Like(k.likeType, k.likeItemId, k.userId, b)];
      assert |twice| == |direct|;
      forall i | 0 <= i < |twice| ensures twice[i] == direct[i] {
        if i < |rows| {
          assert rows[i] in rows;
        }
      }
    } else {
      UpdateManyTwice(rows, KeyWhere(k), a, b);
    }
  }

  lemma {:induction false} DeleteManyAfterUpdateMany(rows: seq<Like>, k: LikeKey, flag: bool)
    ensures DeleteMany(UpdateMany(rows, KeyWhere(k), flag), KeyWhere(k)) == DeleteMany(rows, KeyWhere(k))
  {
    if rows != [] {
      var r := UpdateMany(rows, KeyWhere(k), flag);
      assert r[1..] == UpdateMany(rows[1..], KeyWhere(k), flag);
      DeleteManyAfterUpdateMany(rows[1..], k, flag);
    }
  }

  /** The delete keeps the remaining rows in table order: a row at the end
      of the table stays at the end unless it matches. */
  lemma {:induction false} DeleteManyAppend(rows: seq<Like>, x: Like, w: Where)
    ensures DeleteMany(rows + [x], w) == DeleteMany(rows, w) + (if Matches(x, w) then [] else [x])
  {
    if rows == [] {
      assert rows + [x] == [x];
      assert [x][1..] == [];
    } else {
      var t, tail := rows + [x], if Matches(x, w) then [] else [x];
      assert t[0] == rows[0] && t[1..] == rows[1..] + [x];
      DeleteManyAppend(rows[1..], x, w);
      var rest := DeleteMany(rows[1..], w);
      if !Matches(rows[0], w) {
        assert [rows[0]] + (rest + tail) == ([rows[0]] + rest) + tail;
      }
    }
  }

  /** Deleting a reaction undoes any upsert of it. */
  lemma DeleteUndoesUpsert(rows: seq<Like>, k: LikeKey, flag: bool)
    ensures DeleteMany(Upsert(rows, k, flag), KeyWhere(k)) == DeleteMany(rows, KeyWhere(k))
  {
    if FindFirst(rows, KeyWhere(k)).None? {
      DeleteManyAppend(rows, Like(k.likeType, k.likeItemId, k.userId, flag), KeyWhere(k));
    } else {
      DeleteManyAfterUpdateMany(rows, k, flag);
    }
  }

  /** A delete whose clause matches nothing leaves the table as it is. */
  lemma {:induction false} DeleteManyNoMatch(rows: seq<Like>, w: Where)
    requires forall l :: l in rows ==> !Matches(l, w)
    ensures DeleteMany(rows, w) == rows
  {
    if rows != [] {
      assert rows[0] in rows;
      assert forall l :: l in rows[1..] ==> l in rows;
      DeleteManyNoMatch(rows[1..], w);
      assert rows == [rows[0]] + rows[1..];
    }
  }

  /** Deleting rows never breaks the uniqueness invariant. */
  lemma {:induction false} DeleteManyKeepsAtMostOne(rows: seq<Like>, w: Where)
    requires AtMostOnePerKey(rows)
    ensures AtMostOnePerKey(DeleteMany(rows, w))
  {
    if rows != [] {
      var tail := rows[1..];
      assert AtMostOnePerKey(tail) by {
        forall i, j | 0 <= i < j < |tail| ensures Key(tail[i]) != Key(tail[j]) {
          assert tail[i] == rows[i + 1] && tail[j] == rows[j + 1];
        }
      }
      DeleteManyKeepsAtMostOne(tail, w);
      if !Matches(rows[0], w) {
        var rest := DeleteMany(tail, w);
        var r := [rows[0]] + rest;
        forall i, j | 0 <= i < j < |r| ensures Key(r[i]) != Key(r[j]) {
          if i == 0 {
            assert r[j] == rest[j - 1] && rest[j - 1] in rest;
            var m :| 0 <= m < |tail| && tail[m] == r[j];
            assert rows[m + 1] == r[j];
          } else {
            assert r[i] == rest[i - 1] && r[j] == rest[j - 1];
          }
        }
      }
    }
  }

  /** A delete leaves the count of any clause disjoint from its own unchanged:
      the cascade on one target does not touch the counters of another. */
  lemma {:induction false} DeleteManyKeepsDisjointCount(rows: seq<Like>, w: Where, v: Where)
    requires forall l :: !(Matches(l, w) && Matches(l, v))
    ensures Count(DeleteMany(rows, w), v) == Count(rows, v)
  {
    if rows != [] {
      DeleteManyKeepsDisjointCount(rows[1..], w, v);
      if !Matches(rows[0], w) {
        assert ([rows[0]] + DeleteMany(rows[1..], w))[1..] == DeleteMany(rows[1..], w);
      }
    }
  }

  /** Leaving the type filter out changes nothing when every row on the item
      has the same type. */
  lemma {:induction false} CountIgnoresType(rows: seq<Like>, w: Where, t: string)
    requires w.likeType.None?
    requires forall l :: l in rows && l.likeItemId == w.likeItemId ==> l.likeType == t
    ensures Count(rows, w) == Count(rows, w.(likeType := Some(t)))
  {
    if rows != [] {
      assert rows[0] in rows;
      assert forall l :: l in rows[1..] ==> l in rows;
      CountIgnoresType(rows[1..], w, t);
    }
  }

  /** Adding a type filter can only lower a count. */
  lemma {:induction false} CountTypedAtMostUntyped(rows: seq<Like>, w: Where, t: string)
    ensures Count(rows, w.(likeType := Some(t))) <= Count(rows, w.(likeType := None))
  {
    if rows != [] {
      CountTypedAtMostUntyped(rows[1..], w, t);
    }
  }

  /** Rewriting flags keeps the rows' keys: every row after an update has
      the key of a row before it. */
  lemma UpdateManyKeepsKeys(rows: seq<Like>, w: Where, flag: bool)
    ensures forall l :: l in UpdateMany(rows, w, flag) ==> exists m :: m in rows && Key(m) == Key(l)
  {
    var r := UpdateMany(rows, w, flag);
    forall l | l in r ensures exists m :: m in rows && Key(m) == Key(l) {
      var i :| 0 <= i < |r| && r[i] == l;
      assert rows[i] in rows && Key(rows[i]) == Key(l);
    }
  }

  /** Every row a clause without a flag filter matches is either a like or
      a dislike: the two flag counts add up to the unfiltered count. */
  lemma {:induction false} CountSplitsByFlag(rows: seq<Like>, w: Where)
    requires w.like.None?
    ensures Count(rows, w.(like := Some(true))) + Count(rows, w.(like := Some(false))) == Count(rows, w)
  {
    if rows != [] {
      CountSplitsByFlag(rows[1..], w);
    }
  }
}
