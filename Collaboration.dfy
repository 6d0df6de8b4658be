/**
 * The collaboration score (`calculate_collaboration_score`): five counts, each
 * divided by a saturation cap and capped at 1, weighted so that the weights
 * add up to 1, scaled to 100 and capped at 100.
 *
 * Arithmetic is exact (`real`); the source computes in binary floating point.
 */
module Collaboration {
  import opened Wrappers
  import opened Records
  import opened Histogram
  import opened Involvement

  /** A pull request counts as merged when its merge timestamp is present and not empty. */
  predicate IsMerged(pr: PullRequest)
  {
    pr.mergedAt.Some? && pr.mergedAt.value != ""
  }

  /** The number of merged pull requests. */
  function MergedCount(prs: seq<PullRequest>): (n: nat)
    ensures n <= |prs|
  {
    if prs == [] then 0
    else MergedCount(prs[..|prs| - 1]) + (if IsMerged(prs[|prs| - 1]) then 1 else 0)
  }

  /** Every pull request is merged exactly when all of them count, and none is when none count. */
  lemma {:induction false} MergedCountExtremes(prs: seq<PullRequest>)
    ensures MergedCount(prs) == |prs| <==> forall i :: 0 <= i < |prs| ==> IsMerged(prs[i])
    ensures MergedCount(prs) == 0 <==> forall i :: 0 <= i < |prs| ==> !IsMerged(prs[i])
  {
    if prs != [] {
      var init := prs[..|prs| - 1];
      MergedCountExtremes(init);
      assert forall i :: 0 <= i < |init| ==> init[i] == prs[i];
    }
  }

  /** The number of comments of a pull request, 0 when the field is absent. */
  function CommentsOf(pr: PullRequest): nat
  {
    match pr.comments
    case None => 0
    case Some(cs) => |cs|
  }

  /** The comment counts of all pull requests added up. */
  function CommentCount(prs: seq<PullRequest>): nat
  {
    if prs == [] then 0 else CommentCount(prs[..|prs| - 1]) + CommentsOf(prs[|prs| - 1])
  }

  /** The comment count of a concatenation is the sum of the comment counts of its parts. */
  lemma {:induction false} CommentCountConcat(a: seq<PullRequest>, b: seq<PullRequest>)
    ensures CommentCount(a + b) == CommentCount(a) + CommentCount(b)
  {
    if b == [] {
      assert a + b == a;
    } else {
      var ab := a + b;
      assert ab[..|ab| - 1] == a + b[..|b| - 1];
      CommentCountConcat(a, b[..|b| - 1]);
    }
  }

  /** There are no comments at all exactly when no pull request has a comment. */
  lemma {:induction false} CommentCountZero(prs: seq<PullRequest>)
    ensures CommentCount(prs) == 0 <==> forall i :: 0 <= i < |prs| ==> CommentsOf(prs[i]) == 0
  {
    if prs != [] {
      var init := prs[..|prs| - 1];
      CommentCountZero(init);
      assert forall i :: 0 <= i < |init| ==> init[i] == prs[i];
    }
  }

  /** The number of distinct author names among the commits. */
  function UniqueContributors(commits: seq<Commit>): nat
  {
    |set c | c in commits :: c.authorName|
  }

  /** The author names of the commits, as a set, are the elements of `AuthorNames`. */
  lemma AuthorNameSet(commits: seq<Commit>)
    ensures (set c | c in commits :: c.authorName) == (set x | x in AuthorNames(commits))
  {
    var names := AuthorNames(commits);
    forall x | x in names ensures x in (set c | c in commits :: c.authorName) {
      var i :| 0 <= i < |names| && names[i] == x;
      assert commits[i] in commits;
    }
    forall c | c in commits ensures c.authorName in names {
      var i :| 0 <= i < |commits| && commits[i] == c;
      assert names[i] == c.authorName;
    }
  }

  /** The distinct contributors are exactly the labels of the involvement histogram. */
  lemma ContributorsAreInvolvementLabels(commits: seq<Commit>)
    ensures UniqueContributors(commits) == |UserInvolvement(commits).labels|
  {
    LabelsAreDistinctKeys(AuthorNames(commits));
    AuthorNameSet(commits);
  }

  /** Saturation caps: the count at which a sub-metric reaches 1. */
  const CommitsCap: nat := 100
  const MergedCap: nat := 50
  const IssuesCap: nat := 50
  const CommentsCap: nat := 200
  const ContributorsCap: nat := 20

  /** Weights of the five sub-metrics. */
  const CommitsWeight: real := 0.2
  const MergedWeight: real := 0.3
  const IssuesWeight: real := 0.2
  const CommentsWeight: real := 0.2
  const ContributorsWeight: real := 0.1

  /** The ratio of a count to its cap, capped at 1, times the weight. */
  function Term(count: nat, cap: nat, weight: real): real
    requires cap > 0
  {
    var ratio := count as real / cap as real;
    (if 1.0 < ratio then 1.0 else ratio) * weight
  }

  /** A positive weight bounds its term, reached exactly at saturation; the term is 0 exactly for a zero count. */
  lemma TermBounds(count: nat, cap: nat, weight: real)
    requires cap > 0 && weight > 0.0
    ensures 0.0 <= Term(count, cap, weight) <= weight
    ensures Term(count, cap, weight) == weight <==> count >= cap
    ensures Term(count, cap, weight) == 0.0 <==> count == 0
  {
  }

  /** A term does not decrease when its count grows. */
  lemma TermMonotone(count: nat, count': nat, cap: nat, weight: real)
    requires cap > 0 && weight > 0.0 && count <= count'
    ensures Term(count, cap, weight) <= Term(count', cap, weight)
  {
    var c := cap as real;
    var r, r' := count as real / c, count' as real / c;
    assert r * c == count as real && r' * c == count' as real;
    assert r <= r';
    var m := if 1.0 < r then 1.0 else r;
    var m' := if 1.0 < r' then 1.0 else r';
    assert m <= m';
    assert m * weight <= m' * weight;
  }

  /** The weighted sum scaled to 100, before the final cap. */
  function RawScore(commits: nat, merged: nat, issues: nat, comments: nat, contributors: nat): real
  {
    (Term(commits, CommitsCap, CommitsWeight)
     + Term(merged, MergedCap, MergedWeight)
     + Term(issues, IssuesCap, IssuesWeight)
     + Term(comments, CommentsCap, CommentsWeight)
     + Term(contributors, ContributorsCap, ContributorsWeight)) * 100.0
  }

  /**
   * The raw score is in [0, 100], since every term is at most its weight and
   * the weights add up to 1; it is 100 exactly when every count reaches its
   * cap, and 0 exactly when every count is 0.
   */
  lemma RawScoreBounds(commits: nat, merged: nat, issues: nat, comments: nat, contributors: nat)
    ensures 0.0 <= RawScore(commits, merged, issues, comments, contributors) <= 100.0
    ensures RawScore(commits, merged, issues, comments, contributors) == 100.0
        <==> commits >= CommitsCap && merged >= MergedCap && issues >= IssuesCap
             && comments >= CommentsCap && contributors >= ContributorsCap
    ensures RawScore(commits, merged, issues, comments, contributors) == 0.0
        <==> commits == 0 && merged == 0 && issues == 0 && comments == 0 && contributors == 0
  {
  }

  /** The score from the five counts: the raw score, capped at 100. */
  function ScoreOf(commits: nat, merged: nat, issues: nat, comments: nat, contributors: nat): (s: real)
    ensures 0.0 <= s <= 100.0
    ensures s == 100.0 <==> commits >= CommitsCap && merged >= MergedCap && issues >= IssuesCap
                            && comments >= CommentsCap && contributors >= ContributorsCap
    ensures s == 0.0 <==> commits == 0 && merged == 0 && issues == 0 && comments == 0 && contributors == 0
  {
    RawScoreBounds(commits, merged, issues, comments, contributors);
    var raw := RawScore(commits, merged, issues, comments, contributors);
    if 100.0 < raw then 100.0 else raw
  }

  /** The score does not decrease when any of the five counts grows. */
  lemma ScoreMonotone(commits: nat, merged: nat, issues: nat, comments: nat, contributors: nat,
                      commits': nat, merged': nat, issues': nat, comments': nat, contributors': nat)
    requires commits <= commits' && merged <= merged' && issues <= issues'
    requires comments <= comments' && contributors <= contributors'
    ensures ScoreOf(commits, merged, issues, comments, contributors)
         <= ScoreOf(commits', merged', issues', comments', contributors')
  {
  }

  /** `calculate_collaboration_score` over the three fetched arrays. */
  function CollaborationScore(commits: seq<Commit>, issues: seq<Issue>, prs: seq<PullRequest>): (s: real)
    ensures 0.0 <= s <= 100.0
    ensures commits == [] && issues == [] && prs == [] ==> s == 0.0
    ensures s == 100.0 <==> |commits| >= CommitsCap && MergedCount(prs) >= MergedCap && |issues| >= IssuesCap
                            && CommentCount(prs) >= CommentsCap
                            && |UserInvolvement(commits).labels| >= ContributorsCap
  {
    ContributorsAreInvolvementLabels(commits);
    assert commits == [] ==> UniqueContributors(commits) == 0 by {
      if commits == [] { assert (set c | c in commits :: c.authorName) == {}; }
    }
    ScoreOf(|commits|, MergedCount(prs), |issues|, CommentCount(prs), UniqueContributors(commits))
  }
}
