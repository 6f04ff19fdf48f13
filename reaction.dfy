/** polite_back/routes/reaction.py: like and hate toggles on comments, one row per
    (comment, user, type), and the per-comment status the routes report. Liking and
    hating are independent: toggling one never touches the other. */
module Reactions {
  import opened Wrappers
  import opened Seqs
  import opened Model
  import opened Comments

  /** The answer of every reaction route (ReactionStatusResponse). */
  datatype Status = Status(commentId: int, likeCount: int, hateCount: int, likedByMe: bool, hatedByMe: bool)

  /** The row `_toggle_same_type` looks for. */
  function Matches(commentId: int, userId: string, t: ReactionType): Reaction -> bool {
    (r: Reaction) => ReactionKey(r) == (commentId, userId, t)
  }

  /** The rows `_counts` counts for one type. */
  function OfType(commentId: int, t: ReactionType): Reaction -> bool {
    (r: Reaction) => r.commentId == commentId && r.reactionType == t
  }

  /** The (comment, user, type) triples present: what the unique constraint is about. */
  ghost function Entries(rows: seq<Reaction>): set<(int, string, ReactionType)> {
    set i | 0 <= i < |rows| :: ReactionKey(rows[i])
  }

  /** The users who gave the comment a reaction of type t. */
  ghost function Reacting(rows: seq<Reaction>, commentId: int, t: ReactionType): set<string> {
    set i | 0 <= i < |rows| && OfType(commentId, t)(rows[i]) :: rows[i].userId
  }

  lemma EntriesConcat(a: seq<Reaction>, b: seq<Reaction>)
    ensures Entries(a + b) == Entries(a) + Entries(b)
  {
    var ab := a + b;
    forall e | e in Entries(ab) ensures e in Entries(a) + Entries(b) {
      var j :| 0 <= j < |ab| && ReactionKey(ab[j]) == e;
      if j < |a| { assert ab[j] == a[j]; } else { assert ab[j] == b[j - |a|]; }
    }
    forall e | e in Entries(a) ensures e in Entries(ab) {
      var j :| 0 <= j < |a| && ReactionKey(a[j]) == e;
      assert ab[j] == a[j];
    }
    forall e | e in Entries(b) ensures e in Entries(ab) {
      var j :| 0 <= j < |b| && ReactionKey(b[j]) == e;
      assert ab[j + |a|] == b[j];
    }
  }

  lemma ReactingConcat(a: seq<Reaction>, b: seq<Reaction>, commentId: int, t: ReactionType)
    ensures Reacting(a + b, commentId, t) == Reacting(a, commentId, t) + Reacting(b, commentId, t)
  {
    var ab := a + b;
    var p := OfType(commentId, t);
    forall u | u in Reacting(ab, commentId, t) ensures u in Reacting(a, commentId, t) + Reacting(b, commentId, t) {
      var j :| 0 <= j < |ab| && p(ab[j]) && ab[j].userId == u;
      if j < |a| { assert ab[j] == a[j]; } else { assert ab[j] == b[j - |a|]; }
    }
    forall u | u in Reacting(a, commentId, t) ensures u in Reacting(ab, commentId, t) {
      var j :| 0 <= j < |a| && p(a[j]) && a[j].userId == u;
      assert ab[j] == a[j];
    }
    forall u | u in Reacting(b, commentId, t) ensures u in Reacting(ab, commentId, t) {
      var j :| 0 <= j < |b| && p(b[j]) && b[j].userId == u;
      assert ab[j + |a|] == b[j];
    }
  }

  lemma UniqueTail(rows: seq<Reaction>)
    requires rows != [] && ReactionsUnique(rows)
    ensures ReactionsUnique(rows[1..])
    ensures forall j :: 0 <= j < |rows[1..]| ==> ReactionKey(rows[1..][j]) != ReactionKey(rows[0])
  {
    var rest := rows[1..];
    forall i, j | 0 <= i < j < |rest| ensures ReactionKey(rest[i]) != ReactionKey(rest[j]) {
      assert rest[i] == rows[i + 1] && rest[j] == rows[j + 1];
    }
    forall j | 0 <= j < |rest| ensures ReactionKey(rest[j]) != ReactionKey(rows[0]) {
      assert rest[j] == rows[j + 1];
    }
  }

  lemma OneRow(r: Reaction, commentId: int, t: ReactionType)
    ensures Entries([r]) == {ReactionKey(r)}
    ensures Reacting([r], commentId, t) == if OfType(commentId, t)(r) then {r.userId} else {}
    ensures Filter([r], OfType(commentId, t)) == if OfType(commentId, t)(r) then [r] else []
  {
    assert [r][0] == r;
    assert [r][1..] == [];
  }

  /** Under the unique constraint the first reacting row's user reacts nowhere else. */
  lemma HeadReactsOnce(rows: seq<Reaction>, commentId: int, t: ReactionType)
    requires rows != [] && ReactionsUnique(rows) && OfType(commentId, t)(rows[0])
    ensures rows[0].userId !in Reacting(rows[1..], commentId, t)
  {
    UniqueTail(rows);
    var rest := rows[1..];
    forall j | 0 <= j < |rest| && OfType(commentId, t)(rest[j]) ensures rest[j].userId != rows[0].userId {
      assert ReactionKey(rest[j]) != ReactionKey(rows[0]);
    }
  }

  /** Splitting off the first row splits both the count and the reacting users. */
  lemma SplitHead(rows: seq<Reaction>, commentId: int, t: ReactionType)
    requires rows != []
    ensures var p := OfType(commentId, t);
      Count(rows, p) == Count(rows[1..], p) + (if p(rows[0]) then 1 else 0)
    ensures Reacting(rows, commentId, t) ==
      (if OfType(commentId, t)(rows[0]) then {rows[0].userId} else {}) + Reacting(rows[1..], commentId, t)
  {
    assert rows == [rows[0]] + rows[1..];
    ReactingConcat([rows[0]], rows[1..], commentId, t);
    FilterConcat([rows[0]], rows[1..], OfType(commentId, t));
    OneRow(rows[0], commentId, t);
  }

  /** Under the unique constraint a count is the number of distinct users reacting. */
  lemma {:induction false} CountIsUsers(rows: seq<Reaction>, commentId: int, t: ReactionType)
    requires ReactionsUnique(rows)
    ensures Count(rows, OfType(commentId, t)) == |Reacting(rows, commentId, t)|
  {
    if rows != [] {
      var rest := rows[1..];
      UniqueTail(rows);
      CountIsUsers(rest, commentId, t);
      SplitHead(rows, commentId, t);
      if OfType(commentId, t)(rows[0]) {
        HeadReactsOnce(rows, commentId, t);
        AddFresh(rows[0].userId, Reacting(rest, commentId, t));
      } else {
        assert {} + Reacting(rest, commentId, t) == Reacting(rest, commentId, t);
      }
    }
  }

  lemma AddFresh(u: string, s: set<string>)
    requires u !in s
    ensures |{u} + s| == |s| + 1
  {
    assert {u} + s == s + {u};
  }

  /** `_counts` and `_flags`: the two counts and whether the user has each reaction. */
  function StatusOf(rows: seq<Reaction>, commentId: int, userId: string): Status {
    Status(commentId,
      Count(rows, OfType(commentId, Like)),
      Count(rows, OfType(commentId, Hate)),
      IndexWhere(rows, Matches(commentId, userId, Like)).Some?,
      IndexWhere(rows, Matches(commentId, userId, Hate)).Some?)
  }

  /** A flag says whether the triple is present. */
  lemma FlagIsEntry(rows: seq<Reaction>, commentId: int, userId: string, t: ReactionType)
    ensures IndexWhere(rows, Matches(commentId, userId, t)).Some? <==> (commentId, userId, t) in Entries(rows)
  {
    var found := IndexWhere(rows, Matches(commentId, userId, t));
    if found.Some? {
      assert ReactionKey(rows[found.value]) in Entries(rows);
    }
  }

  /** The rows after `_toggle_same_type`: the matching row is deleted if there is one,
      otherwise a new row with id `id` is added at `now`. */
  function Toggled(rows: seq<Reaction>, commentId: int, userId: string, t: ReactionType, id: int, now: int)
    : seq<Reaction>
  {
    match IndexWhere(rows, Matches(commentId, userId, t))
    case Some(i) => rows[..i] + rows[i + 1..]
    case None => rows + [Reaction(id, commentId, userId, t, now, Some(now))]
  }

  /** The keys of a sequence with one row taken out, under the unique constraint. */
  lemma EntriesRemove(rows: seq<Reaction>, i: nat)
    requires i < |rows| && ReactionsUnique(rows)
    ensures Entries(rows[..i] + rows[i + 1..]) == Entries(rows) - {ReactionKey(rows[i])}
  {
    var pre, post := rows[..i], rows[i + 1..];
    assert rows == pre + [rows[i]] + post;
    EntriesConcat(pre + [rows[i]], post);
    EntriesConcat(pre, [rows[i]]);
    EntriesConcat(pre, post);
    OneRow(rows[i], rows[i].commentId, rows[i].reactionType);
    assert ReactionKey(rows[i]) !in Entries(pre);
    assert ReactionKey(rows[i]) !in Entries(post);
  }

  /** A toggle adds the triple when it is absent and removes it when present; no other
      triple changes. */
  lemma ToggledEntries(rows: seq<Reaction>, commentId: int, userId: string, t: ReactionType, id: int, now: int)
    requires ReactionsUnique(rows)
    ensures var key := (commentId, userId, t);
      Entries(Toggled(rows, commentId, userId, t, id, now)) ==
        if key in Entries(rows) then Entries(rows) - {key} else Entries(rows) + {key}
  {
    FlagIsEntry(rows, commentId, userId, t);
    match IndexWhere(rows, Matches(commentId, userId, t))
    case Some(i) =>
      EntriesRemove(rows, i);
    case None =>
      var r := Reaction(id, commentId, userId, t, now, Some(now));
      EntriesConcat(rows, [r]);
      OneRow(r, commentId, t);
  }

  /** A toggle keeps the unique constraint. */
  lemma ToggledUnique(rows: seq<Reaction>, commentId: int, userId: string, t: ReactionType, id: int, now: int)
    requires ReactionsUnique(rows)
    ensures ReactionsUnique(Toggled(rows, commentId, userId, t, id, now))
  {
    var after := Toggled(rows, commentId, userId, t, id, now);
    match IndexWhere(rows, Matches(commentId, userId, t))
    case Some(i) =>
      forall a, b | 0 <= a < b < |after| ensures ReactionKey(after[a]) != ReactionKey(after[b]) {
        var a' := if a < i then a else a + 1;
        var b' := if b < i then b else b + 1;
        assert after[a] == rows[a'] && after[b] == rows[b'];
      }
    case None =>
      forall a, b | 0 <= a < b < |after| ensures ReactionKey(after[a]) != ReactionKey(after[b]) {
        if b == |rows| {
          assert !Matches(commentId, userId, t)(rows[a]);
        }
      }
  }

  /** A toggle keeps every id below the next one, counting the id it consumes. */
  lemma ToggledIds(rows: seq<Reaction>, commentId: int, userId: string, t: ReactionType, nextId: int, now: int)
    requires nextId >= 1
    requires forall k :: 0 <= k < |rows| ==> 1 <= rows[k].id < nextId
    ensures var after := Toggled(rows, commentId, userId, t, nextId, now);
      forall k :: 0 <= k < |after| ==> 1 <= after[k].id < nextId + 1
    ensures IndexWhere(rows, Matches(commentId, userId, t)).Some? ==>
      var after := Toggled(rows, commentId, userId, t, nextId, now);
      forall k :: 0 <= k < |after| ==> 1 <= after[k].id < nextId
  {
    var after := Toggled(rows, commentId, userId, t, nextId, now);
    match IndexWhere(rows, Matches(commentId, userId, t))
    case Some(i) =>
      forall k | 0 <= k < |after| ensures 1 <= after[k].id < nextId {
        assert after[k] == if k < i then rows[k] else rows[k + 1];
      }
    case None =>
  }

  /** Toggling the same reaction twice restores the triples present. */
  lemma ToggleTwice(rows: seq<Reaction>, commentId: int, userId: string, t: ReactionType,
                    id1: int, id2: int, t1: int, t2: int)
    requires ReactionsUnique(rows)
    ensures var once := Toggled(rows, commentId, userId, t, id1, t1);
      Entries(Toggled(once, commentId, userId, t, id2, t2)) == Entries(rows)
  {
    var once := Toggled(rows, commentId, userId, t, id1, t1);
    ToggledEntries(rows, commentId, userId, t, id1, t1);
    ToggledUnique(rows, commentId, userId, t, id1, t1);
    ToggledEntries(once, commentId, userId, t, id2, t2);
  }

  /** After a toggle the user's flag of that type is flipped; the other type's flag, and
      every other comment's and user's flags, are unchanged. */
  lemma ToggleFlipsFlag(rows: seq<Reaction>, commentId: int, userId: string, t: ReactionType, id: int, now: int,
                        c: int, u: string, s: ReactionType)
    requires ReactionsUnique(rows)
    ensures var after := Toggled(rows, commentId, userId, t, id, now);
      IndexWhere(after, Matches(c, u, s)).Some? ==
        if (c, u, s) == (commentId, userId, t) then IndexWhere(rows, Matches(c, u, s)).None?
        else IndexWhere(rows, Matches(c, u, s)).Some?
  {
    ToggledEntries(rows, commentId, userId, t, id, now);
    FlagIsEntry(rows, c, u, s);
    FlagIsEntry(Toggled(rows, commentId, userId, t, id, now), c, u, s);
  }

  /** A toggle moves its own count by one (down when the reaction was there, up when it
      was not) and leaves every other count alone. */
  lemma ToggleMovesCount(rows: seq<Reaction>, commentId: int, userId: string, t: ReactionType, id: int, now: int,
                         c: int, s: ReactionType)
    ensures var had := IndexWhere(rows, Matches(commentId, userId, t)).Some?;
      Count(Toggled(rows, commentId, userId, t, id, now), OfType(c, s)) ==
        if (c, s) != (commentId, t) then Count(rows, OfType(c, s))
        else if had then Count(rows, OfType(c, s)) - 1
        else Count(rows, OfType(c, s)) + 1
  {
    match IndexWhere(rows, Matches(commentId, userId, t))
    case Some(i) => CountRemove(rows, i, OfType(c, s));
    case None => CountAppend(rows, Reaction(id, commentId, userId, t, now, Some(now)), OfType(c, s));
  }

  /** The comment exists, whatever its state (deleted and blocked rows count). */
  function CommentExists(comments: seq<Comment>): int -> bool {
    (cid: int) => IndexWhere(comments, CommentHasId(cid)).Some?
  }

  /** The reactions table. */
  class ReactionTable {
    var rows: seq<Reaction>
    /** The next autoincrement id. */
    var nextId: nat

    ghost predicate Valid()
      reads this
    {
      && nextId >= 1
      && ReactionsUnique(rows)
      && (forall i :: 0 <= i < |rows| ==> 1 <= rows[i].id < nextId)
    }

    constructor ()
      ensures Valid() && rows == [] && nextId == 1
    {
      rows := [];
      nextId := 1;
    }

    /** `toggle_like` and `toggle_hate`: 404 for an unknown comment and nothing written;
        otherwise the toggle, then the status read back. */
    method Toggle(comments: seq<Comment>, commentId: int, userId: string, t: ReactionType, now: int)
      returns (r: Result<Status>)
      requires Valid()
      modifies this
      ensures Valid()
      ensures !CommentExists(comments)(commentId) ==>
        r == Failure(NotFound) && rows == old(rows) && nextId == old(nextId)
      ensures CommentExists(comments)(commentId) ==>
        && rows == Toggled(old(rows), commentId, userId, t, old(nextId), now)
        && nextId == old(nextId) + (if IndexWhere(old(rows), Matches(commentId, userId, t)).Some? then 0 else 1)
        && r == Success(StatusOf(rows, commentId, userId))
    {
      if !CommentExists(comments)(commentId) {
        return Failure(NotFound);
      }
      ToggledUnique(rows, commentId, userId, t, nextId, now);
      ToggledIds(rows, commentId, userId, t, nextId, now);
      var found := IndexWhere(rows, Matches(commentId, userId, t));
      if found.Some? {
        var i := found.value;
        rows := rows[..i] + rows[i + 1..];
      } else {
        rows := rows + [Reaction(nextId, commentId, userId, t, now, Some(now))];
        nextId := nextId + 1;
      }
      r := Success(StatusOf(rows, commentId, userId));
    }

    method ToggleLike(comments: seq<Comment>, commentId: int, userId: string, now: int) returns (r: Result<Status>)
      requires Valid()
      modifies this
      ensures Valid()
      ensures !CommentExists(comments)(commentId) ==>
        r == Failure(NotFound) && rows == old(rows) && nextId == old(nextId)
      ensures CommentExists(comments)(commentId) ==>
        && rows == Toggled(old(rows), commentId, userId, Like, old(nextId), now)
        && r == Success(StatusOf(rows, commentId, userId))
    {
      r := Toggle(comments, commentId, userId, Like, now);
    }

    method ToggleHate(comments: seq<Comment>, commentId: int, userId: string, now: int) returns (r: Result<Status>)
      requires Valid()
      modifies this
      ensures Valid()
      ensures !CommentExists(comments)(commentId) ==>
        r == Failure(NotFound) && rows == old(rows) && nextId == old(nextId)
      ensures CommentExists(comments)(commentId) ==>
        && rows == Toggled(old(rows), commentId, userId, Hate, old(nextId), now)
        && r == Success(StatusOf(rows, commentId, userId))
    {
      r := Toggle(comments, commentId, userId, Hate, now);
    }

    /** `get_reaction_status`: 404 for an unknown comment; otherwise the counts are the
        numbers of distinct users reacting and the flags say whether this user is one. */
    function GetReactionStatus(comments: seq<Comment>, commentId: int, userId: string): (r: Result<Status>)
      requires Valid()
      reads this
      ensures r.Failure? <==> !CommentExists(comments)(commentId)
      ensures r.Failure? ==> r.error == NotFound
      ensures r.Success? ==>
        && r.value.commentId == commentId
        && r.value.likeCount == |Reacting(rows, commentId, Like)|
        && r.value.hateCount == |Reacting(rows, commentId, Hate)|
        && (r.value.likedByMe <==> userId in Reacting(rows, commentId, Like))
        && (r.value.hatedByMe <==> userId in Reacting(rows, commentId, Hate))
    {
      if !CommentExists(comments)(commentId) then Failure(NotFound)
      else
        CountIsUsers(rows, commentId, Like);
        CountIsUsers(rows, commentId, Hate);
        FlagIsEntry(rows, commentId, userId, Like);
        FlagIsEntry(rows, commentId, userId, Hate);
        assert userId in Reacting(rows, commentId, Like) <==> (commentId, userId, Like) in Entries(rows) by {
          if userId in Reacting(rows, commentId, Like) {
            var i :| 0 <= i < |rows| && OfType(commentId, Like)(rows[i]) && rows[i].userId == userId;
            assert ReactionKey(rows[i]) in Entries(rows);
          }
        }
        assert userId in Reacting(rows, commentId, Hate) <==> (commentId, userId, Hate) in Entries(rows) by {
          if userId in Reacting(rows, commentId, Hate) {
            var i :| 0 <= i < |rows| && OfType(commentId, Hate)(rows[i]) && rows[i].userId == userId;
            assert ReactionKey(rows[i]) in Entries(rows);
          }
        }
        Success(StatusOf(rows, commentId, userId))
    }

    /** `get_batch_reaction_status`: one status per requested id that exists, in request
        order, repeats kept; unknown ids are skipped rather than failing. */
    method GetBatchReactionStatus(comments: seq<Comment>, userId: string, commentIds: seq<int>)
      returns (res: seq<Status>)
      ensures var shown := Filter(commentIds, CommentExists(comments));
        && |res| == |shown|
        && forall i :: 0 <= i < |res| ==> res[i] == StatusOf(rows, shown[i], userId)
    {
      res := [];
      for i := 0 to |commentIds|
        invariant var shown := Filter(commentIds[..i], CommentExists(comments));
          && |res| == |shown|
          && forall k :: 0 <= k < |res| ==> res[k] == StatusOf(rows, shown[k], userId)
      {
        var cid := commentIds[i];
        assert commentIds[..i + 1] == commentIds[..i] + [cid];
        FilterSnoc(commentIds[..i], cid, CommentExists(comments));
        if CommentExists(comments)(cid) {
          res := res + [StatusOf(rows, cid, userId)];
        }
      }
      assert commentIds[..|commentIds|] == commentIds;
    }
  }
}
