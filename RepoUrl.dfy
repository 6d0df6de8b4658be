/**
 * Extraction of the (owner, repository) pair from a repository URL, and the
 * three GitHub REST endpoints built from that pair.
 *
 * The handler strips every trailing `/` from the URL (Python's `rstrip('/')`),
 * splits the rest on `/` (Python's `split('/')`) and takes the last two
 * segments. With fewer than two segments `parts[-2]` raises an IndexError,
 * which is modelled here as `None`.
 */
module RepoUrl {
  import opened Wrappers

  const Slash: char := '/'

  /** `k` copies of the character `c`. */
  function Repeat(c: char, k: nat): (r: string)
    ensures |r| == k
    ensures forall j :: 0 <= j < k ==> r[j] == c
  {
    if k == 0 then [] else Repeat(c, k - 1) + [c]
  }

  /** Python's `s.rstrip(c)` for a single character `c`. */
  function RStrip(s: string, c: char): (r: string)
    ensures r <= s
    ensures r == [] || r[|r| - 1] != c
    ensures forall k :: |r| <= k < |s| ==> s[k] == c
    decreases |s|
  {
    if |s| > 0 && s[|s| - 1] == c then RStrip(s[..|s| - 1], c) else s
  }

  /** The position of the last occurrence of `c` in `s`. */
  function LastIndexOf(s: string, c: char): (i: nat)
    requires c in s
    ensures i < |s| && s[i] == c
    ensures forall k :: i < k < |s| ==> s[k] != c
    decreases |s|
  {
    if s[|s| - 1] == c then |s| - 1
    else
      assert c in s[..|s| - 1] by {
        var j :| 0 <= j < |s| && s[j] == c;
        assert s[..|s| - 1][j] == c;
      }
      LastIndexOf(s[..|s| - 1], c)
  }

  /** Python's `sep.join(parts)`: the inverse of `Split`. */
  function Join(parts: seq<string>, sep: char): string
    requires |parts| >= 1
  {
    if |parts| == 1 then parts[0]
    else Join(parts[..|parts| - 1], sep) + [sep] + parts[|parts| - 1]
  }

  /** Appending a segment appends a separator and that segment. */
  lemma JoinSnoc(init: seq<string>, x: string, sep: char)
    requires |init| >= 1
    ensures Join(init + [x], sep) == Join(init, sep) + [sep] + x
  {
    assert (init + [x])[..|init|] == init;
  }

  /**
   * Python's `s.split(sep)` for a single-character separator: the segments
   * between separators, empty ones included, so that a string with n
   * separators has n + 1 segments.
   */
  function Split(s: string, sep: char): (parts: seq<string>)
    ensures |parts| >= 1
    ensures |parts| == 1 <==> sep !in s
    decreases |s|
  {
    if sep !in s then [s]
    else
      var i := LastIndexOf(s, sep);
      Split(s[..i], sep) + [s[i + 1..]]
  }

  /** No segment contains the separator. */
  lemma {:induction false} SplitSegmentsFree(s: string, sep: char)
    ensures forall k :: 0 <= k < |Split(s, sep)| ==> sep !in Split(s, sep)[k]
    decreases |s|
  {
    if sep in s {
      var i := LastIndexOf(s, sep);
      SplitSegmentsFree(s[..i], sep);
    }
  }

  /** A string is its part before position `i`, the character at `i`, and its part after. */
  lemma SliceAround(s: string, i: nat)
    requires i < |s|
    ensures s == s[..i] + [s[i]] + s[i + 1..]
  {
  }

  /** Joining the segments with the separator gives the string back. */
  lemma {:induction false} JoinSplit(s: string, sep: char)
    ensures Join(Split(s, sep), sep) == s
    decreases |s|
  {
    if sep in s {
      var i := LastIndexOf(s, sep);
      var init := Split(s[..i], sep);
      assert Split(s, sep) == init + [s[i + 1..]] by {
        SplitAtLast(s, sep);
      }
      assert Join(init, sep) == s[..i] by {
        JoinSplit(s[..i], sep);
      }
      JoinSnoc(init, s[i + 1..], sep);
      SliceAround(s, i);
    }
  }

  /**
   * The last segment of `s` is its suffix after the last separator (all of
   * `s` when there is none), and it holds no separator.
   */
  lemma SplitLast(s: string, sep: char)
    ensures var parts := Split(s, sep);
            var last := parts[|parts| - 1];
            && sep !in last
            && |last| <= |s| && s[|s| - |last|..] == last
            && (|parts| > 1 ==> |last| < |s| && s[|s| - |last| - 1] == sep)
  {
    if sep in s {
      var i := LastIndexOf(s, sep);
      var last := s[i + 1..];
      assert Split(s, sep)[|Split(s, sep)| - 1] == last;
      assert |s| - |last| - 1 == i;
      forall k | 0 <= k < |last| ensures last[k] != sep {
        assert last[k] == s[i + 1 + k];
      }
    }
  }

  /** One step of `Split` on a string that holds a separator. */
  lemma SplitAtLast(s: string, sep: char)
    requires sep in s
    ensures Split(s, sep) == Split(s[..LastIndexOf(s, sep)], sep) + [s[LastIndexOf(s, sep) + 1..]]
  {
    var i := LastIndexOf(s, sep);
    assert Split(s, sep) == if sep !in s then [s] else Split(s[..i], sep) + [s[i + 1..]];
  }

  /** A string without a separator is its own only segment. */
  lemma SplitNoSeparator(s: string, sep: char)
    requires sep !in s
    ensures Split(s, sep) == [s]
  {
  }

  /** The last separator of `a + [sep] + b` is the last one of `b`, or the one in the middle. */
  lemma LastIndexOfConcat(a: string, b: string, sep: char)
    ensures sep in a + [sep] + b
    ensures sep !in b ==> LastIndexOf(a + [sep] + b, sep) == |a|
    ensures sep in b ==> LastIndexOf(a + [sep] + b, sep) == |a| + 1 + LastIndexOf(b, sep)
  {
    var w := a + [sep] + b;
    assert w[|a|] == sep;
    forall k | |a| < k < |w| ensures w[k] == b[k - |a| - 1] {
    }
    if sep in b {
      assert w[|a| + 1 + LastIndexOf(b, sep)] == sep;
    }
  }

  /** Appending to the second of two sequences appends to their concatenation. */
  lemma SnocAssoc<T>(x: seq<T>, y: seq<T>, z: T)
    ensures x + (y + [z]) == (x + y) + [z]
  {
  }

  /** Splitting at a separator splits the two sides independently. */
  lemma {:induction false} SplitConcat(a: string, b: string, sep: char)
    ensures Split(a + [sep] + b, sep) == Split(a, sep) + Split(b, sep)
    decreases |b|
  {
    var w := a + [sep] + b;
    LastIndexOfConcat(a, b, sep);
    SplitAtLast(w, sep);
    var L := LastIndexOf(w, sep);
    if sep !in b {
      assert w[..L] == a;
      assert w[L + 1..] == b;
      SplitNoSeparator(b, sep);
    } else {
      var j := LastIndexOf(b, sep);
      assert Split(w[..L], sep) == Split(a, sep) + Split(b[..j], sep) by {
        assert w[..L] == a + [sep] + b[..j];
        SplitConcat(a, b[..j], sep);
      }
      assert w[L + 1..] == b[j + 1..];
      SplitAtLast(b, sep);
      SnocAssoc(Split(a, sep), Split(b[..j], sep), b[j + 1..]);
    }
  }

  /** Splitting a join of separator-free segments gives the segments back. */
  lemma {:induction false} SplitJoin(parts: seq<string>, sep: char)
    requires |parts| >= 1
    requires forall k :: 0 <= k < |parts| ==> sep !in parts[k]
    ensures Split(Join(parts, sep), sep) == parts
  {
    if |parts| == 1 {
      SplitNoSeparator(parts[0], sep);
    } else {
      var init, last := parts[..|parts| - 1], parts[|parts| - 1];
      assert parts == init + [last];
      JoinSnoc(init, last, sep);
      SplitJoin(init, sep);
      SplitConcat(Join(init, sep), last, sep);
      SplitNoSeparator(last, sep);
      assert Split(Join(parts, sep), sep) == Split(Join(init, sep), sep) + Split(last, sep);
    }
  }

  /** The owner/repository pair taken from a repository URL. */
  datatype RepoRef = RepoRef(owner: string, repo: string)

  /**
   * `owner` and `repo` are the last two `/`-separated segments of `s`:
   * `s` ends with `owner/repo`, neither contains `/`, and what comes before
   * `owner` is empty or ends with `/`.
   */
  ghost predicate LastTwoSegments(s: string, owner: string, repo: string)
  {
    && Slash !in owner && Slash !in repo
    && |owner| + |repo| < |s|
    && var prefix := s[..|s| - |owner| - |repo| - 1];
       && s == prefix + owner + [Slash] + repo
       && (prefix == [] || prefix[|prefix| - 1] == Slash)
  }

  /** The segment after the last separator is determined by `s`. */
  lemma LastSegmentUnique(s: string, a: string, b: string)
    requires Slash !in a && Slash !in b
    requires |a| <= |s| && s[|s| - |a|..] == a && (|a| == |s| || s[|s| - |a| - 1] == Slash)
    requires |b| <= |s| && s[|s| - |b|..] == b && (|b| == |s| || s[|s| - |b| - 1] == Slash)
    ensures a == b
  {
    SuffixFree(s, a);
    SuffixFree(s, b);
  }

  /** No position inside a `/`-free suffix holds a `/`. */
  lemma SuffixFree(s: string, a: string)
    requires Slash !in a
    requires |a| <= |s| && s[|s| - |a|..] == a
    ensures forall k :: |s| - |a| <= k < |s| ==> s[k] != Slash
  {
    forall k | |s| - |a| <= k < |s| ensures s[k] != Slash {
      assert s[k] == a[k - (|s| - |a|)];
    }
  }

  /** At most one owner/repository pair are the last two segments of `s`. */
  lemma LastTwoSegmentsUnique(s: string, o1: string, r1: string, o2: string, r2: string)
    requires LastTwoSegments(s, o1, r1) && LastTwoSegments(s, o2, r2)
    ensures o1 == o2 && r1 == r2
  {
    LastSegmentUnique(s, r1, r2);
    var t := s[..|s| - |r1| - 1];
    assert t == s[..|s| - |o1| - |r1| - 1] + o1;
    assert t == s[..|s| - |o2| - |r2| - 1] + o2;
    LastSegmentUnique(t, o1, o2);
  }

  /** A separator-free owner before the last `/` makes the last two segments. */
  lemma LastTwoSegmentsIntro(s: string, i: nat, owner: string, repo: string)
    requires i < |s| && s[i] == Slash && repo == s[i + 1..]
    requires forall k :: i < k < |s| ==> s[k] != Slash
    requires Slash !in owner && |owner| <= i && s[..i][i - |owner|..] == owner
    requires |owner| < i ==> s[i - |owner| - 1] == Slash
    ensures LastTwoSegments(s, owner, repo)
  {
    assert forall k :: 0 <= k < |repo| ==> repo[k] == s[i + 1 + k];
    var prefix := s[..i - |owner|];
    assert s[..|s| - |owner| - |repo| - 1] == prefix;
    assert s[..i] == prefix + owner;
    assert s == s[..i] + [Slash] + repo;
  }

  /** The last two segments of a stripped URL; `None` when it has only one. */
  function LastTwo(s: string): (r: Option<RepoRef>)
    ensures r.Some? <==> Slash in s
    ensures r.Some? ==> LastTwoSegments(s, r.value.owner, r.value.repo)
  {
    var parts := Split(s, Slash);
    if |parts| < 2 then None
    else
      var i := LastIndexOf(s, Slash);
      var init := Split(s[..i], Slash);
      var owner, repo := parts[|parts| - 2], parts[|parts| - 1];
      assert owner == init[|init| - 1] && repo == s[i + 1..] by {
        SplitAtLast(s, Slash);
      }
      SplitLast(s[..i], Slash);
      LastTwoSegmentsIntro(s, i, owner, repo);
      Some(RepoRef(owner, repo))
  }

  /**
   * Lines 41-42 of the handler: strip trailing `/`, split on `/`, take
   * `parts[-2]` and `parts[-1]`. `None` stands for the IndexError raised when
   * no `/` is left after stripping.
   */
  function ExtractRepo(url: string): (r: Option<RepoRef>)
    ensures r.Some? <==> Slash in RStrip(url, Slash)
    ensures r.Some? ==> LastTwoSegments(RStrip(url, Slash), r.value.owner, r.value.repo)
    ensures r.Some? ==> r.value.repo != []
  {
    LastTwo(RStrip(url, Slash))
  }

  /** The extracted pair is exactly the last two segments, in both directions. */
  lemma ExtractRepoCharacterized(url: string, owner: string, repo: string)
    ensures ExtractRepo(url) == Some(RepoRef(owner, repo)) <==> LastTwoSegments(RStrip(url, Slash), owner, repo)
  {
    var s := RStrip(url, Slash);
    if LastTwoSegments(s, owner, repo) {
      assert s[|s| - |repo| - 1] == Slash;
      var r := ExtractRepo(url);
      LastTwoSegmentsUnique(s, r.value.owner, r.value.repo, owner, repo);
    }
  }

  /** `rstrip` removes any number of trailing `/`. */
  lemma {:induction false} RStripTrailing(url: string, k: nat)
    ensures RStrip(url + Repeat(Slash, k), Slash) == RStrip(url, Slash)
  {
    if k > 0 {
      RStripTrailing(url, k - 1);
      var w := url + Repeat(Slash, k);
      assert w == (url + Repeat(Slash, k - 1)) + [Slash];
      assert w[..|w| - 1] == url + Repeat(Slash, k - 1);
    } else {
      assert url + Repeat(Slash, k) == url;
    }
  }

  /** Any number of trailing `/` is ignored. */
  lemma TrailingSlashesIgnored(url: string, k: nat)
    ensures ExtractRepo(url + Repeat(Slash, k)) == ExtractRepo(url)
  {
    RStripTrailing(url, k);
  }

  /** `prefix + owner/repo` has `owner` and `repo` as its last two segments. */
  lemma LastTwoSegmentsOfConcat(prefix: string, owner: string, repo: string)
    requires prefix == [] || prefix[|prefix| - 1] == Slash
    requires Slash !in owner && Slash !in repo
    ensures LastTwoSegments(prefix + owner + [Slash] + repo, owner, repo)
  {
    var s := prefix + owner + [Slash] + repo;
    assert s[..|s| - |owner| - |repo| - 1] == prefix;
  }

  /** The browser URL of a repository on github.com. */
  function RepoUrlOf(r: RepoRef): string
  {
    GithubPrefix + r.owner + [Slash] + r.repo
  }

  const GithubPrefix: string := "https://github.com/"

  /** Extraction recovers the pair a github.com URL was made from, whatever trailing `/` follow. */
  lemma ExtractRepoUrlOf(r: RepoRef, k: nat)
    requires Slash !in r.owner && Slash !in r.repo && r.repo != []
    ensures ExtractRepo(RepoUrlOf(r) + Repeat(Slash, k)) == Some(r)
  {
    var s := RepoUrlOf(r);
    assert RStrip(s, Slash) == s by {
      assert s[|s| - 1] == r.repo[|r.repo| - 1];
    }
    assert LastTwoSegments(s, r.owner, r.repo) by {
      assert GithubPrefix[|GithubPrefix| - 1] == Slash;
      LastTwoSegmentsOfConcat(GithubPrefix, r.owner, r.repo);
    }
    ExtractRepoCharacterized(s, r.owner, r.repo);
    TrailingSlashesIgnored(s, k);
  }

  /** The worked examples: with and without a trailing `/`. */
  lemma GithubExamples()
    ensures ExtractRepo("https://github.com/acme/widget") == Some(RepoRef("acme", "widget"))
    ensures ExtractRepo("https://github.com/acme/widget/") == Some(RepoRef("acme", "widget"))
  {
    var r := RepoRef("acme", "widget");
    assert RepoUrlOf(r) == "https://github.com/acme/widget";
    assert Repeat(Slash, 1) == [Slash];
    assert Repeat(Slash, 0) == [];
    assert RepoUrlOf(r) + [] == RepoUrlOf(r);
    assert RepoUrlOf(r) + [Slash] == "https://github.com/acme/widget/";
    ExtractRepoUrlOf(r, 0);
    ExtractRepoUrlOf(r, 1);
  }

  /** The last path segment of each of the three endpoints (lines 44, 56 and 68). */
  const CommitsResource: string := "commits"
  const IssuesResource: string := "issues"
  const PullsResource: string := "pulls?state=all"

  /** `https://api.github.com/repos/{owner}/{repo}/{resource}`. */
  function Endpoint(r: RepoRef, resource: string): string
  {
    "https://api.github.com/repos/" + r.owner + [Slash] + r.repo + [Slash] + resource
  }

  /**
   * The endpoint carries the owner and the repository as its fifth and sixth
   * `/`-separated segments and the resource as its last one.
   */
  lemma EndpointSegments(r: RepoRef, resource: string)
    requires Slash !in r.owner && Slash !in r.repo && Slash !in resource
    ensures Split(Endpoint(r, resource), Slash)
         == ["https:", "", "api.github.com", "repos", r.owner, r.repo, resource]
  {
    var p1: seq<string> := ["https:"];
    var p2 := p1 + [""];
    var p3 := p2 + ["api.github.com"];
    var p4 := p3 + ["repos"];
    var p5 := p4 + [r.owner];
    var p6 := p5 + [r.repo];
    var parts := p6 + [resource];
    JoinSnoc(p1, "", Slash);
    JoinSnoc(p2, "api.github.com", Slash);
    JoinSnoc(p3, "repos", Slash);
    JoinSnoc(p4, r.owner, Slash);
    JoinSnoc(p5, r.repo, Slash);
    JoinSnoc(p6, resource, Slash);
    assert Join(p4, Slash) + [Slash] == "https://api.github.com/repos/";
    assert parts == ["https:", "", "api.github.com", "repos", r.owner, r.repo, resource];
    SplitJoin(parts, Slash);
  }

  lemma EndpointSegmentsWhenSlashFree(r: RepoRef, resource: string)
    requires Slash !in r.owner && Slash !in r.repo
    ensures Slash !in resource ==>
              (Split(Endpoint(r, resource), Slash)
               == ["https:", "", "api.github.com", "repos", r.owner, r.repo, resource])
  {
    if Slash !in resource { EndpointSegments(r, resource); }
  }

  /** Distinct repositories (or resources) never share an endpoint. */
  lemma EndpointInjective(r1: RepoRef, res1: string, r2: RepoRef, res2: string)
    requires Slash !in r1.owner && Slash !in r1.repo && Slash !in res1
    requires Slash !in r2.owner && Slash !in r2.repo && Slash !in res2
    ensures Endpoint(r1, res1) == Endpoint(r2, res2) <==> r1 == r2 && res1 == res2
  {
    EndpointSegments(r1, res1);
    EndpointSegments(r2, res2);
    if Endpoint(r1, res1) == Endpoint(r2, res2) {
      var p1 := Split(Endpoint(r1, res1), Slash);
      assert p1[4] == r1.owner && p1[5] == r1.repo && p1[6] == res1;
    }
  }

  /** The endpoint requested for a URL, once extraction succeeds. */
  function EndpointFor(url: string, resource: string): (e: Option<string>)
    ensures e.Some? <==> Slash in RStrip(url, Slash)
    ensures e.Some? ==> Slash !in resource ==>
              var r := ExtractRepo(url).value;
              Split(e.value, Slash) == ["https:", "", "api.github.com", "repos", r.owner, r.repo, resource]
  {
    match ExtractRepo(url)
    case None => None
    case Some(r) =>
      EndpointSegmentsWhenSlashFree(r, resource);
      Some(Endpoint(r, resource))
  }
}
