# Repository analysis report — a Dafny model

The modelled program is a small web service. Given the URL of a GitHub
repository, it fetches the repository's commits, issues and pull requests
from the GitHub REST API. From them it computes a report:

- the share of commits whose message has positive, neutral or negative
  sentiment polarity;
- a histogram of commits per author name (`involvement`);
- a histogram of issues per assignee login, with the sentinel `"Unassigned"`
  for issues nobody is assigned to (`issueResponses`);
- a placeholder `tone` series;
- a weighted "collaboration score" between 0 and 100.

This project models that computation in Dafny and proves what it promises.
It has one module per component:

- `Records` holds the typed commit, issue, pull-request and response records.
- `RepoUrl` extracts `(owner, repo)` from the URL and builds the three endpoint
  strings. It also models Python's `rstrip('/')`, `split('/')` and `join`.
- `Sentiment` is the bucketing loop and the percentage conversion.
- `Histogram` models Python's insertion-ordered `Counter` and reads labels and
  counts out of it.
- `Involvement` holds the two histograms of the report.
- `Collaboration` is the saturating, weighted collaboration score.
- `Handler` is the request handler: fetch three times, compute, assemble.
- `Wrappers` is an `Option` type.

`analyze_sentiments` updates local counters in a loop, so it is a method with
loop invariants. Everything else in the source is expressions,
comprehensions and `Counter` builds, so it is modelled as functions and
lemmas.

Inputs that come from outside the program are parameters:

- the three HTTP GETs are functions from endpoint string to `Response`;
- the lexicon-based polarity scorer is a function from message to `real`.

A URL with no `/` left after stripping makes the source raise an IndexError
at `parts[-2]`. The model returns `None` for it, and the handler aborts the
request with no report.

Three details of the handler shape the model:

- The owner is the second-to-last segment after stripping trailing `/`. It
  may be empty: `https://github.com//widget` gives owner `""`.
- A pull request's `comments` field is read as `len(pr.get('comments', []))`.
  The model takes it to be an optional sequence, whose length is counted (0
  when absent).
- An assignee whose login is literally `Unassigned` shares the sentinel's
  bucket. The model states this in `Involvement.AssigneeKeyCounts`.

## Model

| member | source | states |
|---|---|---|
| `RepoUrl.RStrip` | app.py:41 | `rstrip('/')` returns a prefix of the URL that does not end in `/`, and every character it removed is `/` |
| `RepoUrl.Split` | app.py:41 | `split('/')` returns at least one segment, and exactly one when the string has no `/` |
| `RepoUrl.SplitSegmentsFree` | app.py:41 | no segment returned by `split('/')` contains `/` |
| `RepoUrl.JoinSplit` | app.py:41 | joining the segments with `/` gives the string back |
| `RepoUrl.SplitJoin` | app.py:41 | the other half of the round trip: splitting a `/`-join of `/`-free segments returns those segments |
| `RepoUrl.SplitConcat` | app.py:41 | splitting `a + "/" + b` gives the segments of `a` followed by those of `b` |
| `RepoUrl.ExtractRepo` | app.py:41-42 | extraction succeeds exactly when a `/` remains after stripping; otherwise `parts[-2]` raises. On success, `owner` and `repo` are the last two segments of the stripped URL, neither contains `/`, and `repo` is non-empty |
| `RepoUrl.LastTwoSegmentsUnique` | app.py:42 | a string has at most one pair of last two segments |
| `RepoUrl.ExtractRepoCharacterized` | app.py:41-42 | `ExtractRepo(url) == Some(owner, repo)` exactly when `owner`/`repo` are the last two segments of the stripped URL (both directions) |
| `RepoUrl.RStripTrailing` | app.py:41 | appending any number of `/` does not change the stripped URL |
| `RepoUrl.TrailingSlashesIgnored` | app.py:41-42 | appending any number of `/` does not change the extracted pair |
| `RepoUrl.ExtractRepoUrlOf` | app.py:41-42 | for a `/`-free owner and a non-empty `/`-free repo, a github.com URL with any number of trailing `/` extracts back to that pair |
| `RepoUrl.GithubExamples` | app.py:41-42 | `https://github.com/acme/widget` and `https://github.com/acme/widget/` both give `("acme", "widget")` |
| `RepoUrl.EndpointSegments` | app.py:44 | the endpoint `https://api.github.com/repos/{owner}/{repo}/{resource}` splits into exactly the segments `https:`, empty, `api.github.com`, `repos`, owner, repo, resource |
| `RepoUrl.EndpointInjective` | app.py:44 | for `/`-free parts, two endpoints are equal exactly when the repositories and the resources are |
| `RepoUrl.EndpointFor` | app.py:53-56 | an endpoint exists exactly when extraction succeeds. Its segments carry the extracted owner and repo and the resource. Lines 41-44 and 65-68 repeat the same code with the resources `commits` and `pulls?state=all` |
| `Handler.Fetch` | app.py:52-62 | the GET goes to the resource endpoint of the extracted repository. A 200 response yields its body, any other status an empty array. The fetch fails exactly when extraction does. Lines 40-50 and 64-74 are the same |
| `Sentiment.Classify` | app.py:81-86 | a polarity is positive when > 0, neutral when = 0, negative when < 0; the three cases are exclusive |
| `Sentiment.CountsPartition` | app.py:78-86 | every commit is counted in exactly one bucket: the three counts add up to the number of commits |
| `Sentiment.ShareIsPercentage` | app.py:91-93 | a part of a positive total, as a percentage, lies in [0, 100] |
| `Sentiment.PercentagesOfPartition` | app.py:87-94 | with zero commits all three percentages are 0. Otherwise each lies in [0, 100] and they add up to exactly 100 |
| `Sentiment.AnalyzeSentiments` | app.py:76-94 | the loop's counters are the bucket counts of the commits. The result is their percentages (all 0 for no commits). Each lies in [0, 100] and, for a non-empty list, they sum to 100 |
| `Histogram.CounterOf` | app.py:98 | `Counter(xs)` lists each key once, lists exactly the keys of `xs`, and maps each key to its number of occurrences in `xs` |
| `Histogram.CounterOfOrder` | app.py:98-99 | the keys of `Counter(xs)` are in order of first occurrence in `xs` |
| `Histogram.CounterOfSum` | app.py:98-100 | the values of `Counter(xs)` add up to `len(xs)` |
| `Histogram.HistogramOf` | app.py:98-100 | `labels` has no duplicates and contains exactly the keys of the input, in first-occurrence order. `labels` and `data` have equal length. `data[i]` is the number of occurrences of `labels[i]`. `sum(data) == len(input)`. An empty input gives empty `labels` and `data` |
| `Histogram.LabelsAreDistinctKeys` | app.py:99 | the number of labels is the number of distinct keys |
| `Involvement.UserInvolvement` | app.py:96-104 | each commit's author name is a label. Every label is an author name. Labels are distinct and in first-commit order. Each count is that author's number of commits. The counts sum to `len(commits)`. No commits gives empty `labels` and `data` |
| `Involvement.AssigneeKeyCounts` | app.py:107 | issues are bucketed by assignee login, or under `"Unassigned"` when the assignee is absent. The count under a key is the number of issues assigned to that login, plus the unassigned issues when the key is the sentinel |
| `Involvement.IssueResponses` | app.py:106-114 | an issue without an assignee puts `"Unassigned"` among the labels, and an assigned issue puts its login there. Labels are distinct and in first-occurrence order. Each count splits into logins and unassigned issues as above. The counts sum to `len(issues)` |
| `Collaboration.MergedCount` | app.py:118 | the number of pull requests with a present, non-empty `merged_at` is at most `len(pull_requests)` |
| `Collaboration.MergedCountExtremes` | app.py:118 | the merged count equals the number of pull requests exactly when all are merged, and is 0 exactly when none is |
| `Collaboration.CommentCountConcat` | app.py:120 | the comment total of two lists of pull requests joined together is the sum of their totals |
| `Collaboration.CommentCountZero` | app.py:120 | the comment total is 0 exactly when no pull request has a comment, counting an absent field as no comments |
| `Collaboration.ContributorsAreInvolvementLabels` | app.py:121 | the number of distinct author names equals the number of labels of the involvement histogram |
| `Collaboration.TermBounds` | app.py:133-137 | each capped, weighted term lies between 0 and its weight. It equals its weight exactly when the count reaches the cap, and is 0 exactly when the count is 0 |
| `Collaboration.TermMonotone` | app.py:133-137 | a term does not decrease as its count grows |
| `Collaboration.RawScoreBounds` | app.py:124-140 | with weights 0.2+0.3+0.2+0.2+0.1 = 1, the uncapped score lies in [0, 100]. It is 100 exactly when every count reaches its cap (100, 50, 50, 200, 20), and 0 exactly when every count is 0 |
| `Collaboration.ScoreOf` | app.py:139-142 | the capped score lies in [0, 100], is 100 exactly at saturation and is 0 exactly for all-zero counts |
| `Collaboration.ScoreMonotone` | app.py:133-142 | the score does not decrease as any of the five counts grows |
| `Collaboration.CollaborationScore` | app.py:116-142 | the score of the fetched arrays lies in [0, 100] and is 0 when all three are empty. It is 100 exactly when there are ≥ 100 commits, ≥ 50 merged pull requests, ≥ 50 issues, ≥ 200 comments and ≥ 20 distinct contributors |
| `Handler.AnalyzeRepo` | app.py:17-29 | the request fails exactly when the URL has no owner segment. Otherwise the report holds the sentiment percentages of the fetched commits, their involvement histogram, the issue histogram, the placeholder tone `[40, 60, 20, 50, 30]`, and the collaboration score of the three fetched arrays, which lies in [0, 100] |
| `Handler.AllRequestsFailed` | app.py:47-50 | when the three requests for the repository's endpoints return a non-200 status, all three arrays are empty, both histograms are empty and the score is 0 |

## Left out

- The web framework is not modelled: the Flask app, CORS, `request.get_json`, `jsonify` and `app.run` are plumbing with nothing to verify. `repoUrl` is taken to be a string, so a missing `repoUrl` (`None`, which raises in the source) is not represented.
- `requests.get` is not modelled. Each GET is a parameter returning a status and an already decoded array. Network faults (which the source does not catch), pagination and a body that is not an array are not modelled.
- The polarity scorer (TextBlob) is not modelled; it is a parameter. Polarity is a `real`, so a NaN polarity (which falls into the source's "negative" branch) cannot occur.
- Floating point is not modelled: percentages and the score are exact reals. In IEEE doubles, adding the weights in the source's order rounds to just below 1. So the source's saturated score is expected to be just below 100, where the model's is exactly 100. The final `min(..., 100)` therefore never clips in the model.
- The empty-commit case returns the integers `0` in the source and floats otherwise. The model uses `0.0` throughout.
- Malformed records are not modelled: missing fields (KeyError), an assignee given as an empty object (falsy, so counted as unassigned), and a numeric `comments` field (on which `len` raises a TypeError). The records are typed, so these cannot occur.
- The unused `GITHUB_API_URL` constant produces no behaviour and is not modelled.
