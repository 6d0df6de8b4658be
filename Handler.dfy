/**
 * The `/analyze` request handler, without its web framework: fetch the three
 * arrays for the repository named by the URL, run the four metrics and
 * assemble the report.
 *
 * The three HTTP GETs are parameters (`getCommits`, `getIssues`, `getPulls`):
 * each maps the requested endpoint to the response received.
 */
module Handler {
  import opened Wrappers
  import opened Records
  import opened RepoUrl
  import opened Sentiment
  import opened Histogram
  import opened Involvement
  import opened Collaboration

  /**
   * `fetch_commits_from_github` and its two siblings: GET the resource's
   * endpoint for the extracted repository; the decoded array on status 200,
   * an empty array on any other status. `None` stands for the IndexError
   * raised when the URL has no owner segment.
   */
  function Fetch<T>(url: string, resource: string, get: string -> Response<T>): (r: Option<seq<T>>)
    ensures r.Some? <==> Slash in RStrip(url, Slash)
    ensures r.Some? ==> var response := get(EndpointFor(url, resource).value);
                        && (response.status == 200 ==> r.value == response.body)
                        && (response.status != 200 ==> r.value == [])
  {
    match EndpointFor(url, resource)
    case None => None
    case Some(endpoint) =>
      var response := get(endpoint);
      Some(if response.status == 200 then response.body else [])
  }

  /** The placeholder tone series of every report. */
  const Tone: seq<int> := [40, 60, 20, 50, 30]

  /** The report returned to the caller. */
  datatype Analysis = Analysis(
    sentiment: Percentages,
    involvement: LabelCounts<string>,
    issueResponses: LabelCounts<string>,
    tone: seq<int>,
    collaborationScore: real)

  /**
   * `analyze_repo` after the request body is decoded. `None` stands for the
   * unhandled IndexError of a URL without an owner segment, which aborts the
   * request before any metric is computed.
   */
  method AnalyzeRepo(url: string,
                     getCommits: string -> Response<Commit>,
                     getIssues: string -> Response<Issue>,
                     getPulls: string -> Response<PullRequest>,
                     polarity: string -> real)
    returns (result: Option<Analysis>)
    ensures result.None? <==> Slash !in RStrip(url, Slash)
    ensures result.Some? ==>
              var commits := Fetch(url, CommitsResource, getCommits).value;
              var issues := Fetch(url, IssuesResource, getIssues).value;
              var prs := Fetch(url, PullsResource, getPulls).value;
              && result.value.sentiment
                 == ToPercentages(CountIn(commits, polarity, Positive), CountIn(commits, polarity, Neutral),
                                  CountIn(commits, polarity, Negative), |commits|)
              && result.value.involvement == UserInvolvement(commits)
              && result.value.issueResponses == IssueResponses(issues)
              && result.value.tone == Tone
              && result.value.collaborationScore == CollaborationScore(commits, issues, prs)
              && 0.0 <= result.value.collaborationScore <= 100.0
  {
    var fetchedCommits := Fetch(url, CommitsResource, getCommits);
    if fetchedCommits.None? {
      return None;
    }
    var commits := fetchedCommits.value;
    var issues := Fetch(url, IssuesResource, getIssues).value;
    var prs := Fetch(url, PullsResource, getPulls).value;
    var sentiments := AnalyzeSentiments(commits, polarity);
    var involvement := UserInvolvement(commits);
    var score := CollaborationScore(commits, issues, prs);
    result := Some(Analysis(sentiments, involvement, IssueResponses(issues), Tone, score));
  }

  /** When the three requests for this repository fail, the report degrades to zero counts and a zero score. */
  lemma AllRequestsFailed(url: string,
                          getCommits: string -> Response<Commit>,
                          getIssues: string -> Response<Issue>,
                          getPulls: string -> Response<PullRequest>)
    requires Slash in RStrip(url, Slash)
    requires getCommits(EndpointFor(url, CommitsResource).value).status != 200
    requires getIssues(EndpointFor(url, IssuesResource).value).status != 200
    requires getPulls(EndpointFor(url, PullsResource).value).status != 200
    ensures var commits := Fetch(url, CommitsResource, getCommits).value;
            var issues := Fetch(url, IssuesResource, getIssues).value;
            var prs := Fetch(url, PullsResource, getPulls).value;
            && commits == [] && issues == [] && prs == []
            && UserInvolvement(commits) == LabelCounts([], [])
            && IssueResponses(issues) == LabelCounts([], [])
            && CollaborationScore(commits, issues, prs) == 0.0
  {
  }
}
