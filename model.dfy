/** The tables of polite_back/model.py: the enums, the rows, and the unique and
    check constraints the routes must keep. Timestamps are integers supplied by the
    caller; nullable columns are `Option`s. */
module Model {
  import opened Wrappers
  import opened Seqs

  // ---------------------------------------------------------------- enums

  /** A post's moderation policy (Postgres enum `policy_mode`). */
  datatype PolicyMode = Block | PoliteOneEdit | NoFilter

  /** Which text variant became a comment's stored text (Postgres enum `final_source`). */
  datatype FinalSource = Original | Polite | UserEdit | Blocked | NoFilterSource

  datatype ReactionType = Like | Hate

  function PolicyModeTag(m: PolicyMode): string {
    match m
    case Block => "block"
    case PoliteOneEdit => "polite_one_edit"
    case NoFilter => "nofilter"
  }

  /** Reading a stored or submitted tag back into a policy mode. */
  function ParsePolicyMode(s: string): (r: Option<PolicyMode>)
    ensures r.Some? ==> PolicyModeTag(r.value) == s
  {
    if s == "block" then Some(Block)
    else if s == "polite_one_edit" then Some(PoliteOneEdit)
    else if s == "nofilter" then Some(NoFilter)
    else None
  }

  lemma PolicyModeRoundTrip(m: PolicyMode, s: string)
    ensures ParsePolicyMode(PolicyModeTag(m)) == Some(m)
    ensures ParsePolicyMode(s) == Some(m) <==> PolicyModeTag(m) == s
  {
  }

  function FinalSourceTag(f: FinalSource): string {
    match f
    case Original => "original"
    case Polite => "polite"
    case UserEdit => "user_edit"
    case Blocked => "blocked"
    case NoFilterSource => "nofilter"
  }

  function ParseFinalSource(s: string): (r: Option<FinalSource>)
    ensures r.Some? ==> FinalSourceTag(r.value) == s
  {
    if s == "original" then Some(Original)
    else if s == "polite" then Some(Polite)
    else if s == "user_edit" then Some(UserEdit)
    else if s == "blocked" then Some(Blocked)
    else if s == "nofilter" then Some(NoFilterSource)
    else None
  }

  lemma FinalSourceRoundTrip(f: FinalSource, s: string)
    ensures ParseFinalSource(FinalSourceTag(f)) == Some(f)
    ensures ParseFinalSource(s) == Some(f) <==> FinalSourceTag(f) == s
  {
  }

  function ReactionTypeTag(t: ReactionType): string {
    match t
    case Like => "like"
    case Hate => "hate"
  }

  const POLICY_MODES: set<PolicyMode> := {Block, PoliteOneEdit, NoFilter}
  const FINAL_SOURCES: set<FinalSource> := {Original, Polite, UserEdit, Blocked, NoFilterSource}

  /** The three policy modes and five final sources are all there is, and their tags are distinct. */
  lemma EnumsAreExhaustive()
    ensures forall m: PolicyMode :: m in POLICY_MODES
    ensures forall f: FinalSource :: f in FINAL_SOURCES
    ensures |POLICY_MODES| == 3 && |FINAL_SOURCES| == 5
    ensures forall a: FinalSource, b: FinalSource :: FinalSourceTag(a) == FinalSourceTag(b) ==> a == b
    ensures forall a: PolicyMode, b: PolicyMode :: PolicyModeTag(a) == PolicyModeTag(b) ==> a == b
  {
    forall m: PolicyMode ensures m in POLICY_MODES {
      match m
      case Block =>
      case PoliteOneEdit =>
      case NoFilter =>
    }
    forall f: FinalSource ensures f in FINAL_SOURCES {
      match f
      case Original =>
      case Polite =>
      case UserEdit =>
      case Blocked =>
      case NoFilterSource =>
    }
    assert |{Block, PoliteOneEdit} + {NoFilter}| == 3;
    assert |{Original, Polite, UserEdit, Blocked} + {NoFilterSource}| == 5 by {
      assert |{Original, Polite} + {UserEdit}| == 3;
      assert |{Original, Polite, UserEdit} + {Blocked}| == 4;
    }
  }

  // ---------------------------------------------------------------- rows

  datatype User = User(id: int, username: string, createdAt: int)

  datatype Post = Post(
    id: int,
    title: string,
    content: Option<string>,
    passwordHash: Option<string>,
    policyMode: PolicyMode,
    threshold: real,
    createdAt: int)

  datatype SubPost = SubPost(id: int, postId: int, ord: int, templateKey: string, createdAt: int)

  /** The moderation columns of a comment row: what the submission engine decides. */
  datatype Outcome = Outcome(
    textOriginal: Option<string>,
    textGeneratedPolite: Option<string>,
    textUserEdit: Option<string>,
    textFinal: Option<string>,
    finalSource: FinalSource,
    wasEdited: bool,
    originalLogit: Option<real>,
    editLogit: Option<real>,
    finalLogit: Option<real>,
    thresholdApplied: Option<real>,
    attemptsCount: int,
    submitSuccess: bool)

  datatype Comment = Comment(
    id: int,
    userId: int,
    postId: int,
    subPostId: Option<int>,
    articleOrd: Option<int>,
    parentCommentId: Option<int>,
    outcome: Outcome,
    createdAt: int,
    updatedAt: Option<int>,
    isDeleted: bool,
    deletedAt: Option<int>)

  /** A new comment row: the columns the caller does not give take their defaults
      (`is_deleted = False`, `deleted_at` and `updated_at` null). */
  function NewComment(id: int, userId: int, postId: int, subPostId: Option<int>, articleOrd: Option<int>,
                      parentCommentId: Option<int>, outcome: Outcome, createdAt: int): (c: Comment)
    ensures !c.isDeleted && c.deletedAt.None? && c.updatedAt.None?
    ensures c.id == id && c.userId == userId && c.postId == postId && c.outcome == outcome
  {
    Comment(id, userId, postId, subPostId, articleOrd, parentCommentId, outcome, createdAt, None, false, None)
  }

  datatype Reaction = Reaction(
    id: int,
    commentId: int,
    userId: string,
    reactionType: ReactionType,
    createdAt: int,
    updatedAt: Option<int>)

  datatype RewardClaim = RewardClaim(id: int, userId: int, postId: int, claimedAt: int, status: string)

  datatype DecisionRule = NoRule | ForcedAcceptOneEdit
  datatype FinalChoiceHint = Unknown | PoliteHint | UserEditHint | OriginalHint

  datatype InterventionEvent = InterventionEvent(
    id: int,
    userId: int,
    postId: int,
    articleOrd: int,
    tempUuid: string,
    attemptNo: int,
    originalLogit: real,
    thresholdApplied: real,
    actionApplied: string,
    decisionRuleApplied: DecisionRule,
    finalChoiceHint: FinalChoiceHint)

  // ---------------------------------------------------------------- constraints

  predicate IsSection(k: int) {
    k == 1 || k == 2 || k == 3
  }

  /** chk_ie_article_ord and chk_ie_attempt_no. */
  predicate ValidEvent(e: InterventionEvent) {
    IsSection(e.articleOrd) && e.attemptNo > 0
  }

  /** An event built with the column defaults (attempt 1, no action, no rule, unknown choice). */
  function NewEvent(id: int, userId: int, postId: int, articleOrd: int, tempUuid: string,
                    originalLogit: real, thresholdApplied: real): (e: InterventionEvent)
    ensures ValidEvent(e) <==> IsSection(articleOrd)
    ensures e.attemptNo == 1 && e.actionApplied == "none"
    ensures e.decisionRuleApplied == NoRule && e.finalChoiceHint == Unknown
  {
    InterventionEvent(id, userId, postId, articleOrd, tempUuid, 1, originalLogit, thresholdApplied,
                      "none", NoRule, Unknown)
  }

  /** chk_sub_posts_ord and uk_sub_posts_post_ord. */
  ghost predicate SubPostsValid(subposts: seq<SubPost>) {
    && (forall i :: 0 <= i < |subposts| ==> IsSection(subposts[i].ord))
    && (forall i, j :: 0 <= i < j < |subposts| && subposts[i].postId == subposts[j].postId
          ==> subposts[i].ord != subposts[j].ord)
  }

  /** The columns of uq_reactions_one_type_per_user. */
  function ReactionKey(r: Reaction): (int, string, ReactionType) {
    (r.commentId, r.userId, r.reactionType)
  }

  /** uq_reactions_one_type_per_user. */
  ghost predicate ReactionsUnique(rows: seq<Reaction>) {
    forall i, j :: 0 <= i < j < |rows| ==> ReactionKey(rows[i]) != ReactionKey(rows[j])
  }

  /** uq_reward_claims_user: one claim per user, whatever the post. */
  ghost predicate ClaimsUnique(claims: seq<RewardClaim>) {
    forall i, j :: 0 <= i < j < |claims| ==> claims[i].userId != claims[j].userId
  }

  /** users.username is unique. */
  ghost predicate UsernamesUnique(users: seq<User>) {
    forall i, j :: 0 <= i < j < |users| ==> users[i].username != users[j].username
  }

  function SubPostsOf(subposts: seq<SubPost>, postId: int): seq<SubPost> {
    Filter(subposts, (sp: SubPost) => sp.postId == postId)
  }

  /** Under the sub-post constraints a post has at most three sections. */
  lemma AtMostThreeSections(subposts: seq<SubPost>, postId: int)
    requires SubPostsValid(subposts)
    ensures |SubPostsOf(subposts, postId)| <= 3
  {
    var mine := SubPostsOf(subposts, postId);
    OrdsOfOnePostDistinct(subposts, postId);
    var ords := set i | 0 <= i < |mine| :: mine[i].ord;
    assert ords <= {1, 2, 3};
    DistinctImageSize(mine);
    SubsetSize(ords, {1, 2, 3});
  }

  lemma {:induction false} OrdsOfOnePostDistinct(subposts: seq<SubPost>, postId: int)
    requires SubPostsValid(subposts)
    ensures var mine := SubPostsOf(subposts, postId);
      && (forall i :: 0 <= i < |mine| ==> IsSection(mine[i].ord))
      && (forall i, j :: 0 <= i < j < |mine| ==> mine[i].ord != mine[j].ord)
  {
    var p := (sp: SubPost) => sp.postId == postId;
    if subposts != [] {
      var rest := subposts[1..];
      assert SubPostsValid(rest) by {
        forall i, j | 0 <= i < j < |rest| && rest[i].postId == rest[j].postId
          ensures rest[i].ord != rest[j].ord
        {
          assert rest[i] == subposts[i + 1] && rest[j] == subposts[j + 1];
        }
      }
      OrdsOfOnePostDistinct(rest, postId);
      if p(subposts[0]) {
        var mine := SubPostsOf(subposts, postId);
        assert mine == [subposts[0]] + SubPostsOf(rest, postId);
        forall j | 0 < j < |mine| ensures mine[0].ord != mine[j].ord {
          assert mine[j] in SubPostsOf(rest, postId);
          var k :| 0 <= k < |rest| && rest[k] == mine[j];
          assert subposts[k + 1] == mine[j];
        }
      }
    }
  }

  lemma {:induction false} DistinctImageSize(mine: seq<SubPost>)
    requires forall i, j :: 0 <= i < j < |mine| ==> mine[i].ord != mine[j].ord
    ensures |set i | 0 <= i < |mine| :: mine[i].ord| == |mine|
  {
    if mine != [] {
      var n := |mine| - 1;
      var front := mine[..n];
      DistinctImageSize(front);
      var s := set i | 0 <= i < |front| :: front[i].ord;
      var t := set i | 0 <= i < |mine| :: mine[i].ord;
      assert t == s + {mine[n].ord} by {
        forall x | x in t ensures x in s + {mine[n].ord} {
          var i :| 0 <= i < |mine| && mine[i].ord == x;
          if i < n { assert front[i] == mine[i]; }
        }
        forall x | x in s ensures x in t {
          var i :| 0 <= i < |front| && front[i].ord == x;
          assert mine[i] == front[i];
        }
      }
      assert mine[n].ord !in s by {
        forall i | 0 <= i < |front| ensures front[i].ord != mine[n].ord {
          assert front[i] == mine[i];
        }
      }
    }
  }

  lemma SubsetSize(a: set<int>, b: set<int>)
    requires a <= b
    ensures |a| <= |b|
  {
    assert b == a + (b - a);
  }
}
