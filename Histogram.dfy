/**
 * Python's `collections.Counter` as the handler uses it: count a list of
 * keys, then read `list(count.keys())` and `list(count.values())`. A Counter
 * is a dictionary, and dictionaries keep their keys in insertion order, so the
 * labels are the distinct keys in order of first occurrence and the data are
 * their occurrence counts.
 */
module Histogram {

  /** An insertion-ordered dictionary from keys to counts. */
  datatype Counter<K> = Counter(keys: seq<K>, counts: map<K, nat>)

  /** The keys are listed once each, and exactly the keys of the map are listed. */
  ghost predicate Valid<K(!new)>(c: Counter<K>)
  {
    && (forall i, j :: 0 <= i < j < |c.keys| ==> c.keys[i] != c.keys[j])
    && (forall k :: k in c.counts <==> k in c.keys)
  }

  /** Count one more occurrence of `k`: a new key is inserted at the end with count 1. */
  function Add<K(==,!new)>(c: Counter<K>, k: K): Counter<K>
  {
    if k in c.counts then Counter(c.keys, c.counts[k := c.counts[k] + 1])
    else Counter(c.keys + [k], c.counts[k := 1])
  }

  /** `Counter(xs)`: the keys of `xs` counted from left to right. */
  function CounterOf<K(==,!new)>(xs: seq<K>): (c: Counter<K>)
    ensures Valid(c)
    ensures forall k :: k in c.keys <==> k in xs
    ensures forall k :: k in c.counts ==> c.counts[k] == multiset(xs)[k]
  {
    if xs == [] then Counter([], map[])
    else
      var init := xs[..|xs| - 1];
      assert xs == init + [xs[|xs| - 1]];
      Add(CounterOf(init), xs[|xs| - 1])
  }

  /** The count of each key, in key order. */
  function Values<K(==,!new)>(c: Counter<K>): (data: seq<nat>)
    requires forall i :: 0 <= i < |c.keys| ==> c.keys[i] in c.counts
    ensures |data| == |c.keys|
  {
    seq(|c.keys|, i requires 0 <= i < |c.keys| => c.counts[c.keys[i]])
  }

  function Sum(s: seq<nat>): nat
  {
    if s == [] then 0 else Sum(s[..|s| - 1]) + s[|s| - 1]
  }

  /** Incrementing one entry increments the sum. */
  lemma {:induction false} SumIncrement(s: seq<nat>, i: nat)
    requires i < |s|
    ensures Sum(s[i := s[i] + 1]) == Sum(s) + 1
  {
    var t := s[i := s[i] + 1];
    if i < |s| - 1 {
      assert t[..|t| - 1] == s[..|s| - 1][i := s[i] + 1];
      SumIncrement(s[..|s| - 1], i);
    } else {
      assert t[..|t| - 1] == s[..|s| - 1];
    }
  }

  /** The position of the first occurrence of `x` in `xs`. */
  function FirstIndex<K(==,!new)>(xs: seq<K>, x: K): (i: nat)
    requires x in xs
    ensures i < |xs| && xs[i] == x && x !in xs[..i]
  {
    if xs[0] == x then 0
    else
      var i := 1 + FirstIndex(xs[1..], x);
      assert xs[..i] == [xs[0]] + xs[1..][..i - 1];
      i
  }

  /** Appending an element does not move the first occurrence of an earlier one. */
  lemma FirstIndexSnoc<K(!new)>(xs: seq<K>, y: K, x: K)
    requires x in xs
    ensures FirstIndex(xs + [y], x) == FirstIndex(xs, x)
  {
    var w := xs + [y];
    var i, j := FirstIndex(w, x), FirstIndex(xs, x);
    assert w[j] == x;
    forall k | 0 <= k < j ensures w[k] != x {
      assert xs[..j][k] == w[k];
    }
  }

  /** Labels are listed in order of their first occurrence in `xs`. */
  ghost predicate FirstOccurrenceOrder<K(!new)>(labels: seq<K>, xs: seq<K>)
    requires forall i :: 0 <= i < |labels| ==> labels[i] in xs
  {
    forall i, j :: 0 <= i < j < |labels| ==> FirstIndex(xs, labels[i]) < FirstIndex(xs, labels[j])
  }

  /** The keys of `Counter(xs)` are in first-occurrence order. */
  lemma {:induction false} CounterOfOrder<K(!new)>(xs: seq<K>)
    ensures FirstOccurrenceOrder(CounterOf(xs).keys, xs)
  {
    if xs != [] {
      var init, y := xs[..|xs| - 1], xs[|xs| - 1];
      assert xs == init + [y];
      CounterOfOrder(init);
      var c := CounterOf(init);
      forall k | k in c.keys ensures FirstIndex(xs, k) == FirstIndex(init, k) {
        FirstIndexSnoc(init, y, k);
      }
      if y !in c.keys {
        assert FirstIndex(xs, y) == |init| by {
          assert xs[..|init|] == init;
        }
      }
    }
  }

  /** Counting a key already present increments its entry in the listed counts. */
  lemma ValuesAddPresent<K(!new)>(c: Counter<K>, k: K, idx: nat)
    requires Valid(c) && idx < |c.keys| && c.keys[idx] == k
    ensures Values(Add(c, k)) == Values(c)[idx := Values(c)[idx] + 1]
  {
  }

  /** Counting a new key appends a count of 1 to the listed counts. */
  lemma ValuesAddNew<K(!new)>(c: Counter<K>, k: K)
    requires Valid(c) && k !in c.counts
    ensures Values(Add(c, k)) == Values(c) + [1]
  {
  }

  /** The counts of `Counter(xs)` add up to the length of `xs`. */
  lemma {:induction false} CounterOfSum<K(!new)>(xs: seq<K>)
    ensures Sum(Values(CounterOf(xs))) == |xs|
  {
    if xs != [] {
      var init, y := xs[..|xs| - 1], xs[|xs| - 1];
      CounterOfSum(init);
      var c := CounterOf(init);
      if y in c.counts {
        var idx :| 0 <= idx < |c.keys| && c.keys[idx] == y;
        ValuesAddPresent(c, y, idx);
        SumIncrement(Values(c), idx);
      } else {
        ValuesAddNew(c, y);
        var v := Values(c) + [1];
        assert v[..|v| - 1] == Values(c);
      }
    }
  }

  /** The `{labels, data}` pair the handler returns. */
  datatype LabelCounts<K> = LabelCounts(labels: seq<K>, data: seq<nat>)

  /**
   * `Counter(xs)` read out as labels and data: the distinct keys of `xs` in
   * order of first occurrence, each with its number of occurrences.
   */
  function HistogramOf<K(==,!new)>(xs: seq<K>): (h: LabelCounts<K>)
    ensures |h.labels| == |h.data|
    ensures forall i, j :: 0 <= i < j < |h.labels| ==> h.labels[i] != h.labels[j]
    ensures forall x :: x in h.labels <==> x in xs
    ensures FirstOccurrenceOrder(h.labels, xs)
    ensures forall i :: 0 <= i < |h.labels| ==> h.data[i] == multiset(xs)[h.labels[i]]
    ensures Sum(h.data) == |xs|
    ensures xs == [] ==> h.labels == [] && h.data == []
  {
    var c := CounterOf(xs);
    CounterOfOrder(xs);
    CounterOfSum(xs);
    LabelCounts(c.keys, Values(c))
  }

  /** A sequence without repetitions has as many elements as its set. */
  lemma {:induction false} DistinctCardinality<K(!new)>(s: seq<K>)
    requires forall i, j :: 0 <= i < j < |s| ==> s[i] != s[j]
    ensures |set x | x in s| == |s|
  {
    if s != [] {
      var init, y := s[..|s| - 1], s[|s| - 1];
      DistinctCardinality(init);
      assert (set x | x in s) == (set x | x in init) + {y} by {
        assert s == init + [y];
      }
      assert y !in (set x | x in init);
    }
  }

  /** The number of labels is the number of distinct keys. */
  lemma LabelsAreDistinctKeys<K(!new)>(xs: seq<K>)
    ensures |HistogramOf(xs).labels| == |set x | x in xs|
  {
    var h := HistogramOf(xs);
    DistinctCardinality(h.labels);
    assert (set x | x in h.labels) == (set x | x in xs);
  }
}
