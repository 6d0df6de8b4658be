/**
 * The two key/count histograms of the report: commits per author name
 * (`get_user_involvement`) and issues per assignee login
 * (`get_issue_responses`), both read out of a `Counter`.
 */
module Involvement {
  import opened Wrappers
  import opened Records
  import opened Histogram

  /** The author name of each commit, in order. */
  function AuthorNames(commits: seq<Commit>): (names: seq<string>)
    ensures |names| == |commits|
    ensures forall i :: 0 <= i < |commits| ==> names[i] == commits[i].authorName
  {
    seq(|commits|, i requires 0 <= i < |commits| => commits[i].authorName)
  }

  /**
   * `get_user_involvement`: each distinct author name once, in order of its
   * first commit, with the number of commits carrying that name.
   */
  function UserInvolvement(commits: seq<Commit>): (h: LabelCounts<string>)
    ensures |h.labels| == |h.data|
    ensures forall i, j :: 0 <= i < j < |h.labels| ==> h.labels[i] != h.labels[j]
    ensures forall i :: 0 <= i < |commits| ==> commits[i].authorName in h.labels
    ensures forall name :: name in h.labels ==> name in AuthorNames(commits)
    ensures FirstOccurrenceOrder(h.labels, AuthorNames(commits))
    ensures forall i :: 0 <= i < |h.labels| ==> h.data[i] == multiset(AuthorNames(commits))[h.labels[i]]
    ensures Sum(h.data) == |commits|
    ensures commits == [] ==> h.labels == [] && h.data == []
  {
    var names := AuthorNames(commits);
    assert forall i :: 0 <= i < |commits| ==> names[i] in names;
    HistogramOf(names)
  }

  /** The sentinel key of issues that have no assignee. */
  const Unassigned: string := "Unassigned"

  /** The bucket of an issue: its assignee's login, or the sentinel when nobody is assigned. */
  function AssigneeKey(issue: Issue): string
  {
    match issue.assignee
    case Some(a) => a.login
    case None => Unassigned
  }

  function AssigneeKeys(issues: seq<Issue>): (keys: seq<string>)
    ensures |keys| == |issues|
    ensures forall i :: 0 <= i < |issues| ==> keys[i] == AssigneeKey(issues[i])
  {
    seq(|issues|, i requires 0 <= i < |issues| => AssigneeKey(issues[i]))
  }

  /** The logins of the assigned issues, in order. */
  function Logins(issues: seq<Issue>): seq<string>
  {
    if issues == [] then []
    else
      var last := issues[|issues| - 1];
      Logins(issues[..|issues| - 1]) + (if last.assignee.Some? then [last.assignee.value.login] else [])
  }

  /** The number of issues without an assignee. */
  function UnassignedCount(issues: seq<Issue>): (n: nat)
    ensures n <= |issues|
  {
    if issues == [] then 0
    else UnassignedCount(issues[..|issues| - 1]) + (if issues[|issues| - 1].assignee.None? then 1 else 0)
  }

  /**
   * An issue is counted under its assignee's login, or under the sentinel
   * when it has none (a user whose login is the sentinel shares its bucket).
   */
  lemma {:induction false} AssigneeKeyCounts(issues: seq<Issue>, key: string)
    ensures multiset(AssigneeKeys(issues))[key]
         == multiset(Logins(issues))[key] + (if key == Unassigned then UnassignedCount(issues) else 0)
  {
    if issues != [] {
      var init := issues[..|issues| - 1];
      AssigneeKeyCounts(init, key);
      assert AssigneeKeys(issues) == AssigneeKeys(init) + [AssigneeKey(issues[|issues| - 1])];
    }
  }

  /** Each key's count among the assignee keys, split into logins and unassigned issues. */
  lemma IssueCountsByLogin(issues: seq<Issue>, keys: seq<string>)
    ensures forall i :: 0 <= i < |keys| ==>
              multiset(AssigneeKeys(issues))[keys[i]]
              == multiset(Logins(issues))[keys[i]] + (if keys[i] == Unassigned then UnassignedCount(issues) else 0)
  {
    forall i | 0 <= i < |keys|
      ensures multiset(AssigneeKeys(issues))[keys[i]]
              == multiset(Logins(issues))[keys[i]] + (if keys[i] == Unassigned then UnassignedCount(issues) else 0)
    {
      AssigneeKeyCounts(issues, keys[i]);
    }
  }

  /**
   * `get_issue_responses`: each distinct assignee login (or the sentinel)
   * once, in order of first occurrence, with the number of issues under it.
   */
  function IssueResponses(issues: seq<Issue>): (h: LabelCounts<string>)
    ensures |h.labels| == |h.data|
    ensures forall i, j :: 0 <= i < j < |h.labels| ==> h.labels[i] != h.labels[j]
    ensures forall i :: 0 <= i < |issues| && issues[i].assignee.None? ==> Unassigned in h.labels
    ensures forall i :: 0 <= i < |issues| && issues[i].assignee.Some? ==> issues[i].assignee.value.login in h.labels
    ensures forall key :: key in h.labels ==> key in AssigneeKeys(issues)
    ensures FirstOccurrenceOrder(h.labels, AssigneeKeys(issues))
    ensures forall i :: 0 <= i < |h.labels| ==>
              h.data[i] == multiset(Logins(issues))[h.labels[i]]
                           + (if h.labels[i] == Unassigned then UnassignedCount(issues) else 0)
    ensures Sum(h.data) == |issues|
  {
    var keys := AssigneeKeys(issues);
    assert forall i :: 0 <= i < |issues| ==> keys[i] in keys;
    var h := HistogramOf(keys);
    IssueCountsByLogin(issues, h.labels);
    h
  }
}
