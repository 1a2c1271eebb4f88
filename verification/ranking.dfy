/** The ranking step of Searcher::Search: the candidate postings ordered by
    weight, highest first. The source calls `std::sort` with a strict
    "greater weight" comparison, so only the weight order is promised; the
    order among equal weights is unspecified. This model sorts by insertion,
    placing each posting before the first one of equal or lower weight. */
module Ranking {
  import opened Indexer

  /** Weights never increase along `s`. */
  ghost predicate ByWeight(s: seq<Posting>) {
    forall i, j :: 0 <= i < j < |s| ==> s[i].weight >= s[j].weight
  }

  /** No posting of `s` weighs more than `w`. */
  ghost predicate AtMost(s: seq<Posting>, w: int) {
    forall i :: 0 <= i < |s| ==> s[i].weight <= w
  }

  /** A bound on every element survives any rearrangement. */
  lemma AtMostPermutation(a: seq<Posting>, b: seq<Posting>, w: int)
    requires multiset(a) == multiset(b) && AtMost(a, w)
    ensures AtMost(b, w)
  {
    forall i | 0 <= i < |b|
      ensures b[i].weight <= w
    {
      assert b[i] in multiset(a);
      var j :| 0 <= j < |a| && a[j] == b[i];
    }
  }

  /** A posting no lighter than any of a weight-ordered list may lead it. */
  lemma ConsByWeight(p: Posting, s: seq<Posting>)
    requires ByWeight(s) && AtMost(s, p.weight)
    ensures ByWeight([p] + s)
  {
    var r := [p] + s;
    forall i, j | 0 <= i < j < |r|
      ensures r[i].weight >= r[j].weight
    {
      assert r[j] == s[j - 1];
      if i > 0 {
        assert r[i] == s[i - 1];
      }
    }
  }

  /** Places `p` into the weight-ordered `s`. */
  function Insert(p: Posting, s: seq<Posting>): (r: seq<Posting>)
    requires ByWeight(s)
    decreases |s|
    ensures ByWeight(r)
    ensures multiset(r) == multiset(s) + multiset{p}
  {
    if |s| == 0 || s[0].weight <= p.weight then
      assert AtMost(s, p.weight) by {
        forall i | 0 <= i < |s|
          ensures s[i].weight <= p.weight
        {
          assert s[0].weight >= s[i].weight;
        }
      }
      ConsByWeight(p, s);
      [p] + s
    else
      var rest := s[1..];
      var tail := Insert(p, rest);
      assert AtMost([p] + rest, s[0].weight) by {
        forall i | 0 <= i < |[p] + rest|
          ensures ([p] + rest)[i].weight <= s[0].weight
        {
          if i > 0 {
            assert ([p] + rest)[i] == s[i];
          }
        }
      }
      AtMostPermutation([p] + rest, tail, s[0].weight);
      ConsByWeight(s[0], tail);
      assert s == [s[0]] + rest;
      [s[0]] + tail
  }

  /** The candidates in weight order: a permutation of the input whose
      weights never increase. */
  function SortByWeight(s: seq<Posting>): (r: seq<Posting>)
    decreases |s|
    ensures ByWeight(r)
    ensures multiset(r) == multiset(s)
  {
    if |s| == 0 then []
    else
      assert s == [s[0]] + s[1..];
      Insert(s[0], SortByWeight(s[1..]))
  }

  /** Sorting keeps every posting: same length, and each position of the
      result holds some posting of the input. */
  lemma SortKeepsPostings(s: seq<Posting>)
    ensures |SortByWeight(s)| == |s|
    ensures forall i :: 0 <= i < |s| ==> SortByWeight(s)[i] in s
  {
    var r := SortByWeight(s);
    assert |r| == |multiset(r)| == |multiset(s)| == |s|;
    forall i | 0 <= i < |s|
      ensures r[i] in s
    {
      assert r[i] in multiset(s);
    }
  }
}
