/** polite_back/routes/post.py: the post listing and the password gate that opens a
    post with its sections. */
module Posts {
  import opened Wrappers
  import opened Seqs
  import opened Model
  import opened Comments

  /** The fields of a post the routes show; the password hash is never among them. */
  datatype PostSummary = PostSummary(id: int, title: string, content: Option<string>,
                                     policyMode: PolicyMode, threshold: real)

  datatype SubPostSummary = SubPostSummary(id: int, ord: int, templateKey: string)

  function Summary(p: Post): PostSummary {
    PostSummary(p.id, p.title, p.content, p.policyMode, p.threshold)
  }

  function SubSummary(sp: SubPost): SubPostSummary {
    SubPostSummary(sp.id, sp.ord, sp.templateKey)
  }

  /** `get_all_posts`: every post, in table order, without its password. */
  function GetAllPosts(posts: seq<Post>): (r: seq<PostSummary>)
    ensures |r| == |posts|
    ensures forall i :: 0 <= i < |posts| ==>
      r[i].id == posts[i].id && r[i].title == posts[i].title && r[i].content == posts[i].content
      && r[i].policyMode == posts[i].policyMode && r[i].threshold == posts[i].threshold
  {
    seq(|posts|, i requires 0 <= i < |posts| => Summary(posts[i]))
  }

  /** ORDER BY ord, with the id breaking ties the unique constraint rules out anyway. */
  function ByOrd(sp: SubPost): (int, int) {
    (sp.ord, sp.id)
  }

  datatype PasswordRes = Invalid | Opened(post: PostSummary, subPosts: seq<SubPostSummary>)

  /** `verify_post_password`: invalid when the post is missing or the stored hash is not
      exactly the password sent (a post without one opens only when none is sent);
      otherwise the post and its sections in ord order. */
  function VerifyPostPassword(posts: seq<Post>, subposts: seq<SubPost>, postId: int, password: Option<string>)
    : (r: PasswordRes)
    ensures r.Opened? <==> LoadPost(posts, postId).Success? && LoadPost(posts, postId).value.passwordHash == password
    ensures r.Opened? ==>
      var mine := SubPostsOf(subposts, postId);
      && r.post == Summary(LoadPost(posts, postId).value)
      && |r.subPosts| == |mine|
      && (forall i, j :: 0 <= i < j < |r.subPosts| ==> r.subPosts[i].ord <= r.subPosts[j].ord)
      && (forall i :: 0 <= i < |r.subPosts| ==> exists k :: 0 <= k < |mine| && r.subPosts[i] == SubSummary(mine[k]))
      && (forall k :: 0 <= k < |mine| ==> SubSummary(mine[k]) in r.subPosts)
      && multiset(r.subPosts) == multiset(Summaries(mine))
  {
    match LoadPost(posts, postId)
    case Failure(_) => Invalid
    case Success(post) =>
      if post.passwordHash != password then Invalid
      else
        var mine := SubPostsOf(subposts, postId);
        var sorted := SortBy(mine, ByOrd);
        SummariesOfSorted(mine, sorted);
        SummariesMultiset(sorted, mine);
        Opened(Summary(post), Summaries(sorted))
  }

  /** The section summaries of `s`, in the order of `s`. */
  function Summaries(s: seq<SubPost>): (r: seq<SubPostSummary>)
    ensures |r| == |s|
    ensures forall i :: 0 <= i < |s| ==> r[i] == SubSummary(s[i])
  {
    if s == [] then [] else [SubSummary(s[0])] + Summaries(s[1..])
  }

  lemma SummariesConcat(a: seq<SubPost>, b: seq<SubPost>)
    ensures Summaries(a + b) == Summaries(a) + Summaries(b)
  {
  }

  /** A sequence is its prefix, the element at `k` and its suffix. */
  lemma SplitAt(b: seq<SubPost>, k: int)
    requires 0 <= k < |b|
    ensures b == b[..k] + [b[k]] + b[k+1..]
  {
  }

  /** Taking `x` out of `b` at `k` leaves a permutation of the rest of `x + tail`. */
  lemma PermutationRemove(a: seq<SubPost>, b: seq<SubPost>, k: int)
    requires multiset(a) == multiset(b) && |a| > 0 && 0 <= k < |b| && b[k] == a[0]
    ensures multiset(a[1..]) == multiset(b[..k] + b[k+1..])
  {
    var x, rest := a[0], b[..k] + b[k+1..];
    SplitAt(b, k);
    assert a == [x] + a[1..];
    calc {
      multiset(a[1..]);
      multiset(a[1..]) + multiset{x} - multiset{x};
      multiset(b) - multiset{x};
      multiset(rest) + multiset{x} - multiset{x};
      multiset(rest);
    }
  }

  /** Taking one section out of the middle takes its summary out of the summaries. */
  lemma SummariesSplit(pre: seq<SubPost>, x: SubPost, post: seq<SubPost>)
    ensures multiset(Summaries(pre + [x] + post)) == multiset(Summaries(pre + post)) + multiset{SubSummary(x)}
  {
    SummariesConcat(pre + [x], post);
    SummariesConcat(pre, [x]);
    SummariesConcat(pre, post);
  }

  /** Summarising a permutation of the sections gives a permutation of their summaries. */
  lemma {:induction false} SummariesMultiset(a: seq<SubPost>, b: seq<SubPost>)
    requires multiset(a) == multiset(b)
    ensures multiset(Summaries(a)) == multiset(Summaries(b))
    decreases |a|
  {
    if a == [] {
      assert |b| == |multiset(b)| == 0;
    } else {
      assert a[0] in multiset(b);
      var k :| 0 <= k < |b| && b[k] == a[0];
      SplitAt(b, k);
      PermutationRemove(a, b, k);
      SummariesMultiset(a[1..], b[..k] + b[k+1..]);
      SummariesSplit(b[..k], a[0], b[k+1..]);
      assert Summaries(a) == [SubSummary(a[0])] + Summaries(a[1..]);
    }
  }

  lemma SummariesOfSorted(mine: seq<SubPost>, sorted: seq<SubPost>)
    requires multiset(sorted) == multiset(mine) && SortedBy(sorted, ByOrd)
    ensures var out := Summaries(sorted);
      && (forall i, j :: 0 <= i < j < |out| ==> out[i].ord <= out[j].ord)
      && (forall i :: 0 <= i < |out| ==> exists k :: 0 <= k < |mine| && out[i] == SubSummary(mine[k]))
      && (forall k :: 0 <= k < |mine| ==> SubSummary(mine[k]) in out)
  {
    var out := Summaries(sorted);
    forall i, j | 0 <= i < j < |out| ensures out[i].ord <= out[j].ord {
      assert KeyLe(ByOrd(sorted[i]), ByOrd(sorted[j]));
    }
    forall i | 0 <= i < |out| ensures exists k :: 0 <= k < |mine| && out[i] == SubSummary(mine[k]) {
      assert sorted[i] in multiset(mine);
      var k :| 0 <= k < |mine| && mine[k] == sorted[i];
    }
    forall k | 0 <= k < |mine| ensures SubSummary(mine[k]) in out {
      assert mine[k] in multiset(sorted);
      var i :| 0 <= i < |sorted| && sorted[i] == mine[k];
      assert out[i] == SubSummary(mine[k]);
    }
  }

  /** A post opened by password shows at most its three sections. */
  lemma OpenedShowsAtMostThree(posts: seq<Post>, subposts: seq<SubPost>, postId: int, password: Option<string>)
    requires SubPostsValid(subposts)
    requires VerifyPostPassword(posts, subposts, postId, password).Opened?
    ensures |VerifyPostPassword(posts, subposts, postId, password).subPosts| <= 3
  {
    AtMostThreeSections(subposts, postId);
  }

  /** A post without a password opens only for a request without one; a post with a
      password never opens for a request without one. */
  lemma PasswordlessPosts(posts: seq<Post>, subposts: seq<SubPost>, postId: int, password: Option<string>)
    requires LoadPost(posts, postId).Success?
    ensures LoadPost(posts, postId).value.passwordHash.None? ==>
      (VerifyPostPassword(posts, subposts, postId, password).Opened? <==> password.None?)
    ensures LoadPost(posts, postId).value.passwordHash.Some? && password.None? ==>
      VerifyPostPassword(posts, subposts, postId, password) == Invalid
  {
  }
}
