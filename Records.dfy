/**
 * The typed records the reporting handler reads out of the fetched JSON arrays.
 * Only the fields the handler actually reads are kept.
 */
module Records {
  import opened Wrappers

  /** One element of the commits array: `commit.message` and `commit.author.name`. */
  datatype Commit = Commit(message: string, authorName: string)

  /** The `assignee` object of an issue; only its `login` is read. */
  datatype Assignee = Assignee(login: string)

  /** One element of the issues array; `assignee` is null when nobody is assigned. */
  datatype Issue = Issue(assignee: Option<Assignee>)

  /** A comment attached to a pull request; its content is never inspected. */
  type Comment = string

  /**
   * One element of the pull-requests array. `mergedAt` is the `merged_at`
   * timestamp (null for an unmerged pull request); `comments` is the
   * `comments` field when present.
   */
  datatype PullRequest = PullRequest(mergedAt: Option<string>, comments: Option<seq<Comment>>)

  /** An HTTP response: its status code and the decoded JSON array. */
  datatype Response<T> = Response(status: int, body: seq<T>)
}
