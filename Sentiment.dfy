/**
 * Sentiment bucketing of commit messages (`analyze_sentiments`).
 *
 * The polarity of a message is computed by a lexicon-based scorer that is not
 * part of this model; it is a parameter `polarity` from message to real. Each
 * commit falls in one of three buckets by the sign of its polarity, and the
 * three counts are reported as percentages of the number of commits.
 */
module Sentiment {
  import opened Records

  datatype Bucket = Positive | Neutral | Negative

  /** The bucket of a polarity value: by its sign. */
  function Classify(polarity: real): (b: Bucket)
    ensures b == Positive <==> polarity > 0.0
    ensures b == Neutral <==> polarity == 0.0
    ensures b == Negative <==> polarity < 0.0
  {
    if polarity > 0.0 then Positive
    else if polarity == 0.0 then Neutral
    else Negative
  }

  /** The number of commits whose message falls in bucket `b`. */
  function CountIn(commits: seq<Commit>, polarity: string -> real, b: Bucket): (n: nat)
    ensures n <= |commits|
  {
    if commits == [] then 0
    else
      var last := commits[|commits| - 1];
      CountIn(commits[..|commits| - 1], polarity, b) + (if Classify(polarity(last.message)) == b then 1 else 0)
  }

  /** Every commit is counted in exactly one bucket. */
  lemma {:induction false} CountsPartition(commits: seq<Commit>, polarity: string -> real)
    ensures CountIn(commits, polarity, Positive) + CountIn(commits, polarity, Neutral)
          + CountIn(commits, polarity, Negative) == |commits|
  {
    if commits != [] {
      CountsPartition(commits[..|commits| - 1], polarity);
    }
  }

  /** The reported percentages. */
  datatype Percentages = Percentages(positive: real, neutral: real, negative: real)

  /** Each count as a percentage of `total`; all three are 0 when there are no commits. */
  function ToPercentages(positive: nat, neutral: nat, negative: nat, total: nat): Percentages
  {
    if total == 0 then Percentages(0.0, 0.0, 0.0)
    else Percentages(positive as real / total as real * 100.0,
                     neutral as real / total as real * 100.0,
                     negative as real / total as real * 100.0)
  }

  /** A share of a total is a percentage between 0 and 100. */
  lemma ShareIsPercentage(part: nat, total: nat)
    requires 0 < total && part <= total
    ensures 0.0 <= part as real / total as real * 100.0 <= 100.0
  {
    var t := total as real;
    assert part as real / t <= 1.0 by {
      assert part as real / t * t == part as real;
    }
  }

  /** The shares of the parts of a whole, as percentages, add up to 100. */
  lemma SharesAddUp(a: real, b: real, c: real, t: real)
    requires t > 0.0 && a + b + c == t
    ensures a / t * 100.0 + b / t * 100.0 + c / t * 100.0 == 100.0
  {
    assert a / t + b / t + c / t == (a + b + c) / t;
  }

  /** For a partition of `total`, the percentages are in [0, 100] and add up to 100. */
  lemma PercentagesOfPartition(positive: nat, neutral: nat, negative: nat, total: nat)
    requires positive + neutral + negative == total
    ensures var p := ToPercentages(positive, neutral, negative, total);
            && (total == 0 ==> p == Percentages(0.0, 0.0, 0.0))
            && 0.0 <= p.positive <= 100.0
            && 0.0 <= p.neutral <= 100.0
            && 0.0 <= p.negative <= 100.0
            && (total > 0 ==> p.positive + p.neutral + p.negative == 100.0)
  {
    if total > 0 {
      ShareIsPercentage(positive, total);
      ShareIsPercentage(neutral, total);
      ShareIsPercentage(negative, total);
      SharesAddUp(positive as real, neutral as real, negative as real, total as real);
    }
  }

  /** `analyze_sentiments`: tally the commits by bucket, then convert to percentages. */
  method AnalyzeSentiments(commits: seq<Commit>, polarity: string -> real) returns (report: Percentages)
    ensures report == ToPercentages(CountIn(commits, polarity, Positive), CountIn(commits, polarity, Neutral),
                                    CountIn(commits, polarity, Negative), |commits|)
    ensures |commits| == 0 ==> report == Percentages(0.0, 0.0, 0.0)
    ensures 0.0 <= report.positive <= 100.0
    ensures 0.0 <= report.neutral <= 100.0
    ensures 0.0 <= report.negative <= 100.0
    ensures |commits| > 0 ==> report.positive + report.neutral + report.negative == 100.0
  {
    var positive, neutral, negative := 0, 0, 0;
    for i := 0 to |commits|
      invariant positive == CountIn(commits[..i], polarity, Positive)
      invariant neutral == CountIn(commits[..i], polarity, Neutral)
      invariant negative == CountIn(commits[..i], polarity, Negative)
    {
      assert commits[..i + 1][..i] == commits[..i];
      var p := polarity(commits[i].message);
      if p > 0.0 {
        positive := positive + 1;
      } else if p == 0.0 {
        neutral := neutral + 1;
      } else {
        negative := negative + 1;
      }
    }
    assert commits[..|commits|] == commits;
    CountsPartition(commits, polarity);
    PercentagesOfPartition(positive, neutral, negative, |commits|);
    var total := |commits|;
    if total == 0 {
      return Percentages(0.0, 0.0, 0.0);
    }
    report := Percentages(positive as real / total as real * 100.0,
                          neutral as real / total as real * 100.0,
                          negative as real / total as real * 100.0);
  }
}
