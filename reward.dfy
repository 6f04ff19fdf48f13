/** polite_back/routes/reward.py: per-section comment counts, the 3-3-3 eligibility
    rule, and the one-claim-per-user reward table. */
module Reward {
  import opened Wrappers
  import opened Seqs
  import opened Model
  import opened Comments

  /** The WHERE clause of `_counts_by_section`: the user's accepted, undeleted comments on the post. */
  function Qualifies(userId: int, postId: int): Comment -> bool {
    (c: Comment) => c.userId == userId && c.postId == postId && c.outcome.submitSuccess && !c.isDeleted
  }

  /** The `article_ord` column of some rows. */
  function Ords(cs: seq<Comment>): seq<Option<int>> {
    seq(|cs|, i requires 0 <= i < |cs| => cs[i].articleOrd)
  }

  /** The `article_ord` values `_counts_by_section` groups. */
  function CountedOrds(cs: seq<Comment>, userId: int, postId: int): seq<Option<int>> {
    Ords(Filter(cs, Qualifies(userId, postId)))
  }

  /** How many of the user's counted comments on the post are in section k. */
  function SectionCount(cs: seq<Comment>, userId: int, postId: int, k: int): nat {
    multiset(CountedOrds(cs, userId, postId))[Some(k)]
  }

  /** The dictionary `_counts_by_section` should return: sections 1 to 3, each with its count. */
  function SectionCounts(cs: seq<Comment>, userId: int, postId: int): (r: map<int, int>)
    ensures r.Keys == {1, 2, 3}
  {
    map k | k in {1, 2, 3} :: SectionCount(cs, userId, postId, k)
  }

  /** Two dictionaries over sections 1 to 3 that agree on each section are equal. */
  lemma SameSectionMaps(a: map<int, int>, b: map<int, int>)
    requires a.Keys == {1, 2, 3} && b.Keys == {1, 2, 3}
    requires forall k :: k in a ==> a[k] == b[k]
    ensures a == b
  {
  }

  /** A counted comment adds one to its own section and nothing to the others; any other row changes nothing. */
  lemma SectionCountAppend(cs: seq<Comment>, c: Comment, userId: int, postId: int, k: int)
    ensures SectionCount(cs + [c], userId, postId, k) ==
      SectionCount(cs, userId, postId, k) + (if Qualifies(userId, postId)(c) && c.articleOrd == Some(k) then 1 else 0)
  {
    var p := Qualifies(userId, postId);
    FilterConcat(cs, [c], p);
    var f := Filter(cs, p);
    if p(c) {
      assert Filter([c], p) == [c] + Filter([c][1..], p);
      assert Filter(cs + [c], p) == f + [c];
      assert Ords(f + [c]) == Ords(f) + [c.articleOrd];
      assert multiset(Ords(f + [c])) == multiset(Ords(f)) + multiset{c.articleOrd};
    } else {
      assert Filter([c], p) == [];
      assert f + [] == f;
    }
  }

  /** `groups` is what `SELECT article_ord, count(id) ... GROUP BY article_ord` can return
      for those ords, in any row order: one row per distinct ord, with its multiplicity. */
  ghost predicate IsGrouping(groups: seq<(Option<int>, int)>, ords: seq<Option<int>>) {
    && (forall i, j :: 0 <= i < j < |groups| ==> groups[i].0 != groups[j].0)
    && (forall i :: 0 <= i < |groups| ==> groups[i].1 == multiset(ords)[groups[i].0] > 0)
    && (forall o :: o in ords ==> exists i :: 0 <= i < |groups| && groups[i].0 == o)
  }

  /** The ords other than `o` after one occurrence of it at the front. */
  lemma {:induction false} DropKey(ords: seq<Option<int>>, o: Option<int>, rest: seq<Option<int>>)
    requires ords != [] && ords[0] == o
    requires rest == Filter(ords[1..], (x: Option<int>) => x != o)
    ensures forall x :: multiset(rest)[x] == if x == o then 0 else multiset(ords)[x]
    ensures forall x :: x in ords && x != o ==> x in rest
  {
    var p := (x: Option<int>) => x != o;
    assert ords == [o] + ords[1..];
    forall x ensures multiset(rest)[x] == if x == o then 0 else multiset(ords)[x] {
      FilterMultiset(ords[1..], p, x);
    }
    forall x | x in ords && x != o ensures x in rest {
      assert multiset(ords)[x] > 0;
    }
  }

  /** Putting the first ord's group in front of a grouping of the other ords groups them all. */
  lemma ConsGroup(ords: seq<Option<int>>, rest: seq<Option<int>>, tail: seq<(Option<int>, int)>)
    requires ords != []
    requires forall x :: multiset(rest)[x] == if x == ords[0] then 0 else multiset(ords)[x]
    requires forall x :: x in ords && x != ords[0] ==> x in rest
    requires IsGrouping(tail, rest)
    ensures IsGrouping([(ords[0], multiset(ords)[ords[0]])] + tail, ords)
  {
    var o := ords[0];
    forall i | 0 <= i < |tail| ensures tail[i].0 != o {
      assert multiset(rest)[tail[i].0] > 0;
    }
    var g := [(o, multiset(ords)[o])] + tail;
    forall x | x in ords ensures exists i :: 0 <= i < |g| && g[i].0 == x {
      if x == o {
        assert g[0].0 == x;
      } else {
        var i :| 0 <= i < |tail| && tail[i].0 == x;
        assert g[i + 1].0 == x;
      }
    }
  }

  /** One grouping of `ords`: distinct ords in order of first appearance. */
  function GroupBy(ords: seq<Option<int>>): (g: seq<(Option<int>, int)>)
    ensures IsGrouping(g, ords)
    decreases |ords|
  {
    if ords == [] then []
    else
      var rest := Filter(ords[1..], (x: Option<int>) => x != ords[0]);
      DropKey(ords, ords[0], rest);
      var tail := GroupBy(rest);
      ConsGroup(ords, rest, tail);
      [(ords[0], multiset(ords)[ords[0]])] + tail
  }

  /** Some group among the first `n` is section k. */
  ghost predicate HasGroup(groups: seq<(Option<int>, int)>, n: int, k: int) {
    exists j :: 0 <= j < n && j < |groups| && groups[j].0 == Some(k)
  }

  /** The loop of `_counts_by_section`: start from {1: 0, 2: 0, 3: 0} and copy the count of
      every group whose ord is a section; a null or out-of-range ord is skipped. The result
      is the same whatever order the groups come in. */
  method Tally(groups: seq<(Option<int>, int)>, ghost ords: seq<Option<int>>) returns (counts: map<int, int>)
    requires IsGrouping(groups, ords)
    ensures counts.Keys == {1, 2, 3}
    ensures forall k :: k in counts ==> counts[k] == multiset(ords)[Some(k)]
  {
    counts := map[1 := 0, 2 := 0, 3 := 0];
    for i := 0 to |groups|
      invariant counts.Keys == {1, 2, 3}
      invariant forall k :: k in counts ==>
        counts[k] == if HasGroup(groups, i, k) then multiset(ords)[Some(k)] else 0
    {
      var (ord, cnt) := groups[i];
      if ord.Some? && IsSection(ord.value) {
        counts := counts[ord.value := cnt];
      }
      forall k | k in counts
        ensures counts[k] == if HasGroup(groups, i + 1, k) then multiset(ords)[Some(k)] else 0
      {
        if groups[i].0 == Some(k) {
          assert HasGroup(groups, i + 1, k);
        } else if HasGroup(groups, i + 1, k) {
          var j :| 0 <= j < i + 1 && j < |groups| && groups[j].0 == Some(k);
          assert HasGroup(groups, i, k);
        }
      }
    }
    forall k | k in counts && !HasGroup(groups, |groups|, k)
      ensures multiset(ords)[Some(k)] == 0
    {
      assert Some(k) !in ords;
    }
  }

  /** `k` is the least element of `s`. */
  predicate IsLeast(k: int, s: set<int>) {
    k in s && forall j :: j in s ==> k <= j
  }

  lemma NonEmpty(s: set<int>)
    requires s != {}
    ensures exists k :: k in s
  {
    if forall k :: k !in s {
      assert false;
    }
  }

  /** Every non-empty set of integers has a least element. */
  lemma {:induction false} LeastExists(s: set<int>)
    requires s != {}
    ensures exists k :: IsLeast(k, s)
  {
    NonEmpty(s);
    var x :| x in s;
    if s == {x} {
      assert IsLeast(x, s);
    } else {
      var rest := s - {x};
      LeastExists(rest);
      var k :| IsLeast(k, rest);
      var m := if x < k then x else k;
      forall j | j in s ensures m <= j {
        if j != x { assert j in rest; }
      }
      assert IsLeast(m, s);
    }
  }

  /** `sum(counts.values())`, adding the values in key order. */
  function SumValues(m: map<int, int>): int
  {
    if m.Keys == {} then 0
    else
      LeastExists(m.Keys);
      var k :| IsLeast(k, m.Keys);
      m[k] + SumValues(m - {k})
  }

  /** The sum takes the least key first. */
  lemma SumValuesUnfold(m: map<int, int>, k: int)
    requires IsLeast(k, m.Keys)
    ensures SumValues(m) == m[k] + SumValues(m - {k})
  {
    assert forall a, b :: IsLeast(a, m.Keys) && IsLeast(b, m.Keys) ==> a == b;
  }

  /** The total over the keys 1, 2 and 3. */
  lemma SumOfSections(m: map<int, int>)
    requires m.Keys == {1, 2, 3}
    ensures SumValues(m) == m[1] + m[2] + m[3]
  {
    var m1 := m - {1};
    var m2 := m1 - {2};
    SumValuesUnfold(m, 1);
    assert m1.Keys == {2, 3};
    SumValuesUnfold(m1, 2);
    assert m2.Keys == {3};
    SumValuesUnfold(m2, 3);
    assert (m2 - {3}).Keys == {};
  }

  /** `dict.get(k, 0)`. */
  function GetOr0(m: map<int, int>, k: int): int {
    if k in m then m[k] else 0
  }

  /** `_is_eligible`: at least three in each section and at least nine in all. */
  function IsEligible(counts: map<int, int>): (r: (bool, int))
    ensures r.1 == SumValues(counts)
    ensures r.0 <==> GetOr0(counts, 1) >= 3 && GetOr0(counts, 2) >= 3 && GetOr0(counts, 3) >= 3 && r.1 >= 9
  {
    var total := SumValues(counts);
    (GetOr0(counts, 1) >= 3 && GetOr0(counts, 2) >= 3 && GetOr0(counts, 3) >= 3 && total >= 9, total)
  }

  /** On the three-section dictionary the total is the sum of the three counts, and the
      nine-in-all condition adds nothing: eligible exactly when every section has three. */
  lemma EligibleIffThreeEach(counts: map<int, int>)
    requires counts.Keys == {1, 2, 3}
    ensures IsEligible(counts).1 == counts[1] + counts[2] + counts[3]
    ensures IsEligible(counts).0 <==> counts[1] >= 3 && counts[2] >= 3 && counts[3] >= 3
  {
    SumOfSections(counts);
  }

  /** Three in each section is enough; nine in all is not. */
  lemma EligibilityExamples()
    ensures IsEligible(map[1 := 3, 2 := 3, 3 := 3]) == (true, 9)
    ensures IsEligible(map[1 := 2, 2 := 5, 3 := 5]) == (false, 12)
  {
    EligibleIffThreeEach(map[1 := 3, 2 := 3, 3 := 3]);
    EligibleIffThreeEach(map[1 := 2, 2 := 5, 3 := 5]);
  }

  /** `REWARD_URL or None`: an unset (empty) setting is reported as null. */
  function OrNone(s: string): (r: Option<string>)
    ensures r.None? <==> s == ""
    ensures r.Some? ==> r.value == s
  {
    if s == "" then None else Some(s)
  }

  /** `_counts_by_section`: the grouping query, then its loop over the groups. It reads
      only the comment rows it is given, so it stands outside the claim table. */
  method CountsBySection(cs: seq<Comment>, userId: int, postId: int) returns (counts: map<int, int>)
    ensures counts == SectionCounts(cs, userId, postId)
  {
    var ords := CountedOrds(cs, userId, postId);
    counts := Tally(GroupBy(ords), ords);
    ghost var expected := SectionCounts(cs, userId, postId);
    assert expected.Keys == {1, 2, 3};
    assert forall k :: k in counts ==> counts[k] == expected[k] by {
      forall k | k in counts ensures counts[k] == expected[k] {
        assert expected[k] == SectionCount(cs, userId, postId, k);
      }
    }
    SameSectionMaps(counts, expected);
  }

  datatype EligibilityReq = EligibilityReq(userId: int, postId: int)

  datatype EligibilityRes = EligibilityRes(
    eligible: bool,
    alreadyClaimed: bool,
    perSectionCounts: map<int, int>,
    totalCount: int)

  datatype GrantRes = GrantRes(
    granted: bool,
    alreadyClaimed: bool,
    openchatUrl: Option<string>,
    openchatPw: Option<string>)

  function ClaimOf(userId: int): RewardClaim -> bool {
    (c: RewardClaim) => c.userId == userId
  }

  /** The claim table's invariant: one claim per user, ids below the counter. */
  ghost predicate ClaimsValid(claims: seq<RewardClaim>, nextId: int) {
    && nextId >= 1
    && ClaimsUnique(claims)
    && (forall i :: 0 <= i < |claims| ==> 1 <= claims[i].id < nextId)
  }

  /** Recording a claim for a user without one keeps the invariant, and the user then has one. */
  lemma AppendClaimKeepsValid(claims: seq<RewardClaim>, nextId: int, c: RewardClaim)
    requires ClaimsValid(claims, nextId)
    requires IndexWhere(claims, ClaimOf(c.userId)).None? && c.id == nextId
    ensures ClaimsValid(claims + [c], nextId + 1)
    ensures IndexWhere(claims + [c], ClaimOf(c.userId)).Some?
  {
    var all := claims + [c];
    assert forall i :: 0 <= i < |claims| ==> all[i] == claims[i];
    assert all[|claims|] == c && ClaimOf(c.userId)(all[|claims|]);
  }

  /** The reward_claims table. */
  class ClaimTable {
    var claims: seq<RewardClaim>
    /** The next autoincrement id. */
    var nextId: nat

    ghost predicate Valid()
      reads this
    {
      ClaimsValid(claims, nextId)
    }

    constructor ()
      ensures Valid() && claims == [] && nextId == 1
    {
      claims := [];
      nextId := 1;
    }

    /** Some claim of the user exists, for whatever post. */
    predicate HasClaimed(userId: int)
      reads this
    {
      IndexWhere(claims, ClaimOf(userId)).Some?
    }

    /** `check_eligibility`: 404 without the post; otherwise the counts, the verdict, and
        whether the user already holds a claim. Nothing is written. */
    method CheckEligibility(posts: seq<Post>, cs: seq<Comment>, req: EligibilityReq)
      returns (r: Result<EligibilityRes>)
      ensures LoadPost(posts, req.postId).Failure? <==> r.Failure?
      ensures r.Failure? ==> r.error == NotFound
      ensures r.Success? ==>
        var counts := SectionCounts(cs, req.userId, req.postId);
        && r.value.perSectionCounts == counts
        && counts.Keys == {1, 2, 3}
        && r.value.totalCount == counts[1] + counts[2] + counts[3]
        && (r.value.eligible <==> counts[1] >= 3 && counts[2] >= 3 && counts[3] >= 3)
        && (r.value.alreadyClaimed <==> exists i :: 0 <= i < |claims| && claims[i].userId == req.userId)
    {
      if LoadPost(posts, req.postId).Failure? {
        return Failure(NotFound);
      }
      var counts := CountsBySection(cs, req.userId, req.postId);
      EligibleIffThreeEach(counts);
      var (ok, total) := IsEligible(counts);
      r := Success(EligibilityRes(ok, HasClaimed(req.userId), counts, total));
    }

    /** `claim_reward`: 404 without the post; a user who already holds a claim gets the
        link again and nothing is written; an ineligible user gets nothing; otherwise one
        "granted" claim is recorded and the link is returned. */
    method ClaimReward(posts: seq<Post>, cs: seq<Comment>, req: EligibilityReq, url: string, pw: string, now: int)
      returns (r: Result<GrantRes>)
      requires Valid()
      modifies this
      ensures Valid()
      ensures LoadPost(posts, req.postId).Failure? ==>
        r == Failure(NotFound) && claims == old(claims) && nextId == old(nextId)
      ensures LoadPost(posts, req.postId).Success? && old(HasClaimed(req.userId)) ==>
        r == Success(GrantRes(false, true, OrNone(url), OrNone(pw))) && claims == old(claims) && nextId == old(nextId)
      ensures LoadPost(posts, req.postId).Success? && !old(HasClaimed(req.userId)) ==>
        var counts := SectionCounts(cs, req.userId, req.postId);
        if counts[1] >= 3 && counts[2] >= 3 && counts[3] >= 3 then
          && claims == old(claims) + [RewardClaim(old(nextId), req.userId, req.postId, now, "granted")]
          && nextId == old(nextId) + 1
          && r == Success(GrantRes(true, false, OrNone(url), OrNone(pw)))
        else
          r == Success(GrantRes(false, false, None, None)) && claims == old(claims) && nextId == old(nextId)
      ensures HasClaimed(req.userId) <==> old(HasClaimed(req.userId)) || (r.Success? && r.value.granted)
    {
      if LoadPost(posts, req.postId).Failure? {
        return Failure(NotFound);
      }
      if HasClaimed(req.userId) {
        return Success(GrantRes(false, true, OrNone(url), OrNone(pw)));
      }
      var counts := CountsBySection(cs, req.userId, req.postId);
      EligibleIffThreeEach(counts);
      var (ok, _) := IsEligible(counts);
      if !ok {
        return Success(GrantRes(false, false, None, None));
      }
      var c := RewardClaim(nextId, req.userId, req.postId, now, "granted");
      AppendClaimKeepsValid(claims, nextId, c);
      claims := claims + [c];
      nextId := nextId + 1;
      r := Success(GrantRes(true, false, OrNone(url), OrNone(pw)));
    }
  }
}
