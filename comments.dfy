/** The storage side of polite_back/routes/comment.py: the guards that run before a
    submission, the comment table that `add_comment` appends to and
    `soft_delete_comment` updates in place, and the listing query. The decision of
    what to store is Policy.Decide. */
module Comments {
  import opened Wrappers
  import opened Seqs
  import opened Model
  import opened Schemas
  import opened Policy

  function PostHasId(id: int): Post -> bool {
    (p: Post) => p.id == id
  }

  function CommentHasId(id: int): Comment -> bool {
    (c: Comment) => c.id == id
  }

  function SubPostAt(postId: int, section: int): SubPost -> bool {
    (sp: SubPost) => sp.postId == postId && sp.ord == section
  }

  function ByUser(userId: int): Comment -> bool {
    (c: Comment) => c.userId == userId
  }

  /** `_load_post`: the post with that id, or 404. */
  function LoadPost(posts: seq<Post>, postId: int): (r: Result<Post>)
    ensures r.Success? ==> r.value in posts && r.value.id == postId
    ensures r.Failure? ==> r.error == NotFound
    ensures r.Failure? <==> forall i :: 0 <= i < |posts| ==> posts[i].id != postId
  {
    match IndexWhere(posts, PostHasId(postId))
    case None => Failure(NotFound)
    case Some(i) => Success(posts[i])
  }

  /** `_require_subpost`: the section `section` of post `postId`, or 400. */
  function RequireSubpost(subposts: seq<SubPost>, postId: int, section: int): (r: Result<SubPost>)
    ensures r.Success? ==> r.value in subposts && r.value.postId == postId && r.value.ord == section
    ensures r.Failure? ==> r.error == BadRequest
    ensures r.Failure? <==> forall i :: 0 <= i < |subposts| ==> !(subposts[i].postId == postId && subposts[i].ord == section)
  {
    match IndexWhere(subposts, SubPostAt(postId, section))
    case None => Failure(BadRequest)
    case Some(i) => Success(subposts[i])
  }

  /** The post of some comment of the user (`SELECT post_id ... LIMIT 1`); deleted and
      blocked comments count too. */
  function LockedPost(rows: seq<Comment>, userId: int): (r: Option<int>)
    ensures r.None? <==> forall i :: 0 <= i < |rows| ==> rows[i].userId != userId
    ensures r.Some? ==> exists i :: 0 <= i < |rows| && rows[i].userId == userId && rows[i].postId == r.value
  {
    match IndexWhere(rows, ByUser(userId))
    case None => None
    case Some(i) => Some(rows[i].postId)
  }

  /** All of a user's comments are on one post. */
  ghost predicate OnePostPerUser(rows: seq<Comment>) {
    forall i, j :: 0 <= i < |rows| && 0 <= j < |rows| && rows[i].userId == rows[j].userId
      ==> rows[i].postId == rows[j].postId
  }

  /** A row that passes the lock check keeps every user on one post. */
  lemma AppendKeepsOnePostPerUser(rows: seq<Comment>, c: Comment)
    requires OnePostPerUser(rows)
    requires LockedPost(rows, c.userId) == None || LockedPost(rows, c.userId) == Some(c.postId)
    ensures OnePostPerUser(rows + [c])
  {
    var all := rows + [c];
    forall i, j | 0 <= i < |all| && 0 <= j < |all| && all[i].userId == all[j].userId
      ensures all[i].postId == all[j].postId
    {
      if i < |rows| && j == |rows| {
        var k :| 0 <= k < |rows| && rows[k].userId == c.userId && rows[k].postId == LockedPost(rows, c.userId).value;
      } else if j < |rows| && i == |rows| {
        var k :| 0 <= k < |rows| && rows[k].userId == c.userId && rows[k].postId == LockedPost(rows, c.userId).value;
      }
    }
  }

  /** The row `soft_delete_comment` leaves: the comment with that id marked deleted at
      `now`, unless it already was. */
  function SoftDeleted(rows: seq<Comment>, commentId: int, now: int): seq<Comment> {
    match IndexWhere(rows, CommentHasId(commentId))
    case None => rows
    case Some(i) =>
      if rows[i].isDeleted then rows
      else rows[i := rows[i].(isDeleted := true, deletedAt := Some(now))]
  }

  /** Deleting twice is deleting once: the second call finds the same row, already marked
      deleted (so it answers `already`), and keeps the first deletion time. */
  lemma SoftDeleteIdempotent(rows: seq<Comment>, commentId: int, t1: int, t2: int)
    ensures SoftDeleted(SoftDeleted(rows, commentId, t1), commentId, t2) == SoftDeleted(rows, commentId, t1)
    ensures IndexWhere(SoftDeleted(rows, commentId, t1), CommentHasId(commentId)) == IndexWhere(rows, CommentHasId(commentId))
    ensures match IndexWhere(rows, CommentHasId(commentId))
      case None => true
      case Some(i) => SoftDeleted(rows, commentId, t1)[i].isDeleted
  {
    var p := CommentHasId(commentId);
    match IndexWhere(rows, p)
    case None =>
    case Some(i) =>
      if !rows[i].isDeleted {
        var once := rows[i := rows[i].(isDeleted := true, deletedAt := Some(t1))];
        var k := IndexWhere(once, p);
        assert p(once[i]);
        assert forall j :: 0 <= j < i ==> once[j] == rows[j];
        assert k == Some(i);
      }
  }

  /** Soft deletion changes no row but the deleted one, and only its deletion columns. */
  lemma SoftDeleteTouchesOneRow(rows: seq<Comment>, commentId: int, now: int)
    ensures var after := SoftDeleted(rows, commentId, now);
      && |after| == |rows|
      && forall i :: 0 <= i < |rows| ==>
           && after[i] == rows[i].(isDeleted := after[i].isDeleted, deletedAt := after[i].deletedAt)
           && (rows[i].isDeleted ==> after[i] == rows[i])
           && (after[i] != rows[i] ==> rows[i].id == commentId && after[i].isDeleted && after[i].deletedAt == Some(now))
  {
  }

  /** What the listing shows of a section: accepted comments, and deleted ones only on request. */
  function Visible(subPostId: int, includeDeleted: bool): Comment -> bool {
    (c: Comment) => c.subPostId == Some(subPostId) && (includeDeleted || !c.isDeleted) && c.outcome.submitSuccess
  }

  /** The query bounds of the listing route: a positive post id and a section from 1 to 3.
      FastAPI answers 422 before the route runs when they fail. */
  predicate ValidListQuery(postId: int, section: int) {
    postId > 0 && 1 <= section <= 3
  }

  /** ORDER BY created_at ASC, id ASC. */
  function CreatedOrder(c: Comment): (int, int) {
    (c.createdAt, c.id)
  }

  /** `suggest`: only the post is looked up; neither the section nor the user lock is checked. */
  function SuggestRoute(posts: seq<Post>, req: SuggestReq, classify: ClassifyOracle, rewrite: Rewriter): (r: Result<Preview>)
    requires ValidSuggestReq(req)
    ensures r.Failure? <==> LoadPost(posts, req.postId).Failure?
    ensures r.Failure? ==> r.error == NotFound
    ensures r.Success? ==> var post := LoadPost(posts, req.postId).value;
      r.value == Suggest(post.policyMode, post.threshold, classify, rewrite, req.text)
  {
    match LoadPost(posts, req.postId)
    case Failure(e) => Failure(e)
    case Success(post) => Success(Suggest(post.policyMode, post.threshold, classify, rewrite, req.text))
  }

  /** The comment table's invariant: ids below the counter and increasing, every user on
      one post, every outcome consistent, every row in a section. */
  ghost predicate TableValid(rows: seq<Comment>, nextId: int) {
    && nextId >= 1
    && (forall i :: 0 <= i < |rows| ==> 1 <= rows[i].id < nextId)
    && (forall i, j :: 0 <= i < j < |rows| ==> rows[i].id < rows[j].id)
    && OnePostPerUser(rows)
    && (forall i :: 0 <= i < |rows| ==> Consistent(rows[i].outcome))
    && (forall i :: 0 <= i < |rows| ==> rows[i].articleOrd.Some? && IsSection(rows[i].articleOrd.value))
  }

  /** Appending a consistent row in a section, with the counter as its id, past the lock
      check, keeps the invariant. */
  lemma AppendKeepsValid(rows: seq<Comment>, nextId: int, c: Comment)
    requires TableValid(rows, nextId)
    requires c.id == nextId && Consistent(c.outcome)
    requires c.articleOrd.Some? && IsSection(c.articleOrd.value)
    requires forall i :: 0 <= i < |rows| && rows[i].userId == c.userId ==> rows[i].postId == c.postId
    ensures TableValid(rows + [c], nextId + 1)
  {
    var all := rows + [c];
    assert LockedPost(rows, c.userId) == None || LockedPost(rows, c.userId) == Some(c.postId);
    AppendKeepsOnePostPerUser(rows, c);
    assert forall i :: 0 <= i < |rows| ==> all[i] == rows[i];
    assert all[|rows|] == c;
  }

  /** The answer of `soft_delete_comment`. */
  datatype DeleteRes = DeleteRes(deleted: bool, already: bool, commentId: int)

  /** The comments table. */
  class CommentTable {
    var rows: seq<Comment>
    /** The next autoincrement id. */
    var nextId: nat

    ghost predicate Valid()
      reads this
    {
      TableValid(rows, nextId)
    }

    constructor ()
      ensures Valid() && rows == [] && nextId == 1
    {
      rows := [];
      nextId := 1;
    }

    /** The guards of `add_comment`, in order: 404 without the post, 400 without the
        section, 403 when the user already commented on another post. A request that
        passes all three is admitted with the post and section the guards found. */
    function Admit(posts: seq<Post>, subposts: seq<SubPost>, req: SaveReq): (r: Result<(Post, SubPost)>)
      requires Valid()
      reads this
      ensures LoadPost(posts, req.postId).Failure? ==> r == Failure(NotFound)
      ensures LoadPost(posts, req.postId).Success? && RequireSubpost(subposts, req.postId, req.section).Failure?
        ==> r == Failure(BadRequest)
      ensures r.Failure? ==> r.error == NotFound || r.error == BadRequest || r.error == Forbidden
      ensures r.Failure? && r.error == Forbidden <==>
        && LoadPost(posts, req.postId).Success? && RequireSubpost(subposts, req.postId, req.section).Success?
        && exists i :: 0 <= i < |rows| && rows[i].userId == req.userId && rows[i].postId != req.postId
      ensures r.Success? <==>
        && LoadPost(posts, req.postId).Success? && RequireSubpost(subposts, req.postId, req.section).Success?
        && forall i :: 0 <= i < |rows| && rows[i].userId == req.userId ==> rows[i].postId == req.postId
      ensures r.Success? ==>
        r.value == (LoadPost(posts, req.postId).value, RequireSubpost(subposts, req.postId, req.section).value)
      ensures r.Success? ==>
        && r.value.0 in posts && r.value.0.id == req.postId
        && r.value.1 in subposts && r.value.1.postId == req.postId && r.value.1.ord == req.section
        && forall i :: 0 <= i < |rows| && rows[i].userId == req.userId ==> rows[i].postId == req.postId
    {
      match LoadPost(posts, req.postId)
      case Failure(e) => Failure(e)
      case Success(post) =>
        match RequireSubpost(subposts, req.postId, req.section)
        case Failure(e) => Failure(e)
        case Success(sp) =>
          match LockedPost(rows, req.userId)
          case Some(p) =>
            if p != req.postId then Failure(Forbidden) else Success((post, sp))
          case None => Success((post, sp))
    }

    /** `add_comment`: after the guards, one row with the engine's decision is appended,
        blocked submissions included; nothing is written when a guard fails. */
    method AddComment(req: SaveReq, posts: seq<Post>, subposts: seq<SubPost>,
                      classify: ClassifyOracle, rewrite: Rewriter, now: int)
      returns (res: Result<SaveRes>, ghost calls: seq<OracleCall>)
      requires Valid() && ValidSaveReq(req)
      modifies this
      ensures Valid()
      ensures old(Admit(posts, subposts, req)).Failure? ==>
        && res == Failure(old(Admit(posts, subposts, req)).error)
        && rows == old(rows) && nextId == old(nextId) && calls == []
      ensures old(Admit(posts, subposts, req)).Success? ==>
        var (post, sp) := old(Admit(posts, subposts, req)).value;
        var run := Decide(post.policyMode, post.threshold, classify, rewrite,
                          req.textOriginal, req.textUserEdit, req.generatedPoliteText);
        && rows == old(rows) + [NewComment(old(nextId), req.userId, req.postId, Some(sp.id), Some(req.section),
                                           req.parentCommentId, run.outcome, now)]
        && nextId == old(nextId) + 1
        && res == Success(SaveRes(run.outcome.submitSuccess, run.outcome.finalSource, Some(old(nextId))))
        && calls == run.calls
    {
      var admitted := Admit(posts, subposts, req);
      if admitted.Failure? {
        res, calls := Failure(admitted.error), [];
        return;
      }
      var (post, sp) := admitted.value;
      var run := Decide(post.policyMode, post.threshold, classify, rewrite,
                        req.textOriginal, req.textUserEdit, req.generatedPoliteText);
      var c := NewComment(nextId, req.userId, req.postId, Some(sp.id), Some(req.section),
                          req.parentCommentId, run.outcome, now);
      AppendKeepsValid(rows, nextId, c);
      rows := rows + [c];
      res := Success(SaveRes(run.outcome.submitSuccess, run.outcome.finalSource, Some(nextId)));
      nextId := nextId + 1;
      calls := run.calls;
    }

    /** `get_comments_by_post`: the section's visible comments, oldest first; never a blocked one. */
    function ListComments(subposts: seq<SubPost>, postId: int, section: int, includeDeleted: bool)
      : (r: Result<seq<Comment>>)
      requires Valid() && ValidListQuery(postId, section)
      reads this
      ensures RequireSubpost(subposts, postId, section).Failure? <==> r.Failure?
      ensures r.Failure? ==> r.error == BadRequest
      ensures r.Success? ==>
        var sp := RequireSubpost(subposts, postId, section).value;
        && SortedBy(r.value, CreatedOrder)
        && multiset(r.value) == multiset(Filter(rows, Visible(sp.id, includeDeleted)))
        && forall i :: 0 <= i < |r.value| ==>
             && r.value[i] in rows && r.value[i].subPostId == Some(sp.id)
             && r.value[i].outcome.submitSuccess && r.value[i].outcome.finalSource != Blocked
             && (!includeDeleted ==> !r.value[i].isDeleted)
    {
      match RequireSubpost(subposts, postId, section)
      case Failure(e) => Failure(e)
      case Success(sp) =>
        var shown := Filter(rows, Visible(sp.id, includeDeleted));
        var sorted := SortBy(shown, CreatedOrder);
        assert forall i :: 0 <= i < |sorted| ==> sorted[i] in shown by {
          forall i | 0 <= i < |sorted| ensures sorted[i] in shown {
            assert sorted[i] in multiset(sorted);
          }
        }
        Success(sorted)
    }

    /** `soft_delete_comment`: 404 for an unknown id; a deleted comment is reported as
        `already` and left as it is; otherwise it is marked deleted at `now`. */
    method SoftDelete(commentId: int, now: int) returns (r: Result<DeleteRes>)
      requires Valid()
      modifies this
      ensures Valid() && nextId == old(nextId)
      ensures rows == SoftDeleted(old(rows), commentId, now)
      ensures r == match IndexWhere(old(rows), CommentHasId(commentId))
        case None => Failure(NotFound)
        case Some(i) => Success(DeleteRes(true, old(rows)[i].isDeleted, commentId))
    {
      var found := IndexWhere(rows, CommentHasId(commentId));
      if found.None? {
        return Failure(NotFound);
      }
      var i := found.value;
      if rows[i].isDeleted {
        return Success(DeleteRes(true, true, commentId));
      }
      SoftDeleteTouchesOneRow(rows, commentId, now);
      rows := rows[i := rows[i].(isDeleted := true, deletedAt := Some(now))];
      r := Success(DeleteRes(true, false, commentId));
    }
  }
}
