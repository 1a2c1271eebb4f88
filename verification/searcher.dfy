/** The Searcher class of searcher/searcher.cc: a query is segmented and
    lower-cased, the posting lists of its terms are concatenated, ranked by
    weight, and each ranked posting becomes a result with the document's
    title, url and a snippet of its content around the term. */
module Searcher {
  import opened Text
  import opened Indexer
  import opened Ranking

  /** One entry of the JSON result array. */
  datatype SearchResult = SearchResult(title: Bytes, url: Bytes, desc: Bytes)

  // ---------------------------------------------------------------------------
  // GenerateDesc
  // ---------------------------------------------------------------------------

  /** The longest snippet, in bytes. */
  const DescLen: nat := 160
  /** How many bytes before the term the snippet starts. */
  const LeadIn: nat := 80
  const Ellipsis: Bytes := "..."

  /** The last three bytes of `desc` overwritten by '.'. */
  function MarkTruncated(desc: Bytes): (r: Bytes)
    requires |desc| >= 3
    ensures |r| == |desc|
    ensures r[..|desc| - 3] == desc[..|desc| - 3]
    ensures r[|desc| - 3..] == Ellipsis
  {
    desc[|desc| - 1 := '.'][|desc| - 2 := '.'][|desc| - 3 := '.']
  }

  /** Where the snippet starts when the term first occurs at `pos`: 80 bytes
      earlier, or at the start of the content when there are fewer. */
  function WindowStart(pos: nat): (r: nat)
    ensures r <= pos && pos - r <= LeadIn
    ensures r > 0 ==> pos - r == LeadIn
  {
    if pos < LeadIn then 0 else pos - LeadIn
  }

  /** The snippet of `content` for `word`: a window of at most 160 bytes
      starting 80 bytes before the first occurrence of the word (or at the
      start when the word is absent), its last three bytes replaced by "..."
      when the content continues past the window. */
  function GenerateDesc(content: Bytes, word: Bytes): (r: Bytes)
    ensures |r| <= DescLen
    ensures (forall j: nat :: !OccursAt(content, word, j)) && |content| < DescLen ==> r == content
    ensures (forall j: nat :: !OccursAt(content, word, j)) && |content| >= DescLen ==>
      && |r| == DescLen
      && r[..DescLen - |Ellipsis|] == content[..DescLen - |Ellipsis|]
      && r[DescLen - |Ellipsis|..] == Ellipsis
    ensures forall pos: nat | FirstAt(content, word, pos) ::
      && (WindowStart(pos) + DescLen >= |content| ==> r == content[WindowStart(pos)..])
      && (WindowStart(pos) + DescLen < |content| ==>
            && |r| == DescLen
            && r[..DescLen - |Ellipsis|] == content[WindowStart(pos)..WindowStart(pos) + DescLen - |Ellipsis|]
            && r[DescLen - |Ellipsis|..] == Ellipsis)
  {
    assert forall pos: nat | FirstAt(content, word, pos) :: Find(content, word) == Some(pos) by {
      forall pos: nat | FirstAt(content, word, pos)
        ensures Find(content, word) == Some(pos)
      {
        FindFirst(content, word, pos);
      }
    }
    match Find(content, word)
    case None =>
      if |content| < DescLen then content
      else MarkTruncated(content[..DescLen])
    case Some(pos) => Window(content, WindowStart(pos))
  }

  /** The snippet from `beg`: the rest of the content when it fits in 160
      bytes, otherwise 160 bytes of which the last three are dots. */
  function Window(content: Bytes, beg: nat): (r: Bytes)
    requires beg <= |content|
    ensures |r| <= DescLen
    ensures beg + DescLen >= |content| ==> r == content[beg..]
    ensures beg + DescLen < |content| ==>
      && |r| == DescLen
      && r[..DescLen - |Ellipsis|] == content[beg..beg + DescLen - |Ellipsis|]
      && r[DescLen - |Ellipsis|..] == Ellipsis
  {
    if beg + DescLen >= |content| then content[beg..]
    else MarkTruncated(content[beg..beg + DescLen])
  }

  /** When the term is found and is short enough to fit in the window after
      the lead-in, the snippet shows it, at its distance from the window start. */
  lemma SnippetShowsWord(content: Bytes, word: Bytes, pos: nat)
    requires FirstAt(content, word, pos)
    requires |word| <= DescLen - LeadIn - |Ellipsis|
    ensures OccursAt(GenerateDesc(content, word), word, pos - WindowStart(pos))
  {
    FindFirst(content, word, pos);
    var s := WindowStart(pos);
    var r := Window(content, s);
    assert GenerateDesc(content, word) == r;
    var at := pos - s;
    var kept := if s + DescLen >= |content| then |content| - s else DescLen - |Ellipsis|;
    assert r[..kept] == content[s..s + kept];
    assert at + |word| <= kept;
    forall k | 0 <= k < |word|
      ensures r[at + k] == word[k]
    {
      assert r[..kept][at + k] == content[s..s + kept][at + k];
      assert content[pos..pos + |word|][k] == content[pos + k];
    }
    assert r[at..at + |word|] == word;
  }

  // ---------------------------------------------------------------------------
  // Search
  // ---------------------------------------------------------------------------

  /** `p` is in the posting list of one of the (lower-cased) query tokens. */
  ghost predicate FromQuery(idx: Index, tokens: seq<Bytes>, p: Posting) {
    exists j :: 0 <= j < |tokens| && Lower(tokens[j]) in idx.inverted && p in idx.inverted[Lower(tokens[j])]
  }

  /** The candidate loop: for each query token in order, its lower-cased
      posting list is appended; absent terms contribute nothing. Neither the
      tokens nor the postings are de-duplicated. */
  function Candidates(idx: Index, tokens: seq<Bytes>): (r: seq<Posting>)
    decreases |tokens|
    ensures forall i :: 0 <= i < |r| ==> FromQuery(idx, tokens, r[i])
    ensures Valid(idx) ==> forall i :: 0 <= i < |r| ==> r[i].docId < |idx.forward|
    ensures Valid(idx) ==>
      (|r| == 0 <==> forall j :: 0 <= j < |tokens| ==> Lower(tokens[j]) !in idx.inverted)
  {
    if |tokens| == 0 then []
    else
      var rest := Candidates(idx, tokens[1..]);
      assert forall i :: 0 <= i < |rest| ==> FromQuery(idx, tokens, rest[i]) by {
        forall i | 0 <= i < |rest|
          ensures FromQuery(idx, tokens, rest[i])
        {
          var j :| 0 <= j < |tokens[1..]| && Lower(tokens[1..][j]) in idx.inverted
                    && rest[i] in idx.inverted[Lower(tokens[1..][j])];
          assert tokens[1..][j] == tokens[j + 1];
        }
      }
      match GetInvertedList(idx, Lower(tokens[0]))
      case None => rest
      case Some(list) => list + rest
  }

  /** The lists of `lists`, one after another. */
  function Flatten(lists: seq<seq<Posting>>): seq<Posting>
    decreases |lists|
  {
    if |lists| == 0 then [] else lists[0] + Flatten(lists[1..])
  }

  /** The posting list of each lower-cased token, empty for an absent term. */
  function ListsOf(idx: Index, tokens: seq<Bytes>): (r: seq<seq<Posting>>)
    ensures |r| == |tokens|
    ensures forall j :: 0 <= j < |tokens| ==> r[j] == ListOf(idx.inverted, Lower(tokens[j]))
  {
    seq(|tokens|, j requires 0 <= j < |tokens| => ListOf(idx.inverted, Lower(tokens[j])))
  }

  /** The candidates are the whole posting lists of the query's tokens, in
      token order, each as often as its token occurs. */
  lemma {:induction false} CandidatesFlatten(idx: Index, tokens: seq<Bytes>)
    ensures Candidates(idx, tokens) == Flatten(ListsOf(idx, tokens))
    decreases |tokens|
  {
    if |tokens| > 0 {
      assert ListsOf(idx, tokens)[1..] == ListsOf(idx, tokens[1..]);
      CandidatesFlatten(idx, tokens[1..]);
    }
  }

  /** A single token contributes exactly its term's whole posting list. */
  lemma CandidatesOne(idx: Index, t: Bytes)
    ensures Candidates(idx, [t]) == ListOf(idx.inverted, Lower(t))
  {
    assert [t][1..] == [];
  }

  /** The candidates of a concatenated token sequence are the concatenated
      candidates: query order is kept and a repeated token contributes its
      list again. */
  lemma {:induction false} CandidatesConcat(idx: Index, a: seq<Bytes>, b: seq<Bytes>)
    ensures Candidates(idx, a + b) == Candidates(idx, a) + Candidates(idx, b)
    decreases |a|
  {
    if |a| == 0 {
      assert a + b == b;
    } else {
      assert (a + b)[0] == a[0];
      assert (a + b)[1..] == a[1..] + b;
      CandidatesConcat(idx, a[1..], b);
    }
  }

  /** Only the lower-cased tokens matter. */
  lemma {:induction false} CandidatesCaseInsensitive(idx: Index, a: seq<Bytes>, b: seq<Bytes>)
    requires Lowered(a) == Lowered(b)
    ensures Candidates(idx, a) == Candidates(idx, b)
    decreases |a|
  {
    if |a| > 0 {
      assert Lower(a[0]) == Lowered(a)[0] == Lowered(b)[0] == Lower(b[0]);
      assert Lowered(a[1..]) == Lowered(a)[1..];
      assert Lowered(b[1..]) == Lowered(b)[1..];
      CandidatesCaseInsensitive(idx, a[1..], b[1..]);
    }
  }

  /** The ranked candidates of a query. */
  function Rank(idx: Index, cut: Tokenizer, query: Bytes): (r: seq<Posting>)
    ensures ByWeight(r)
    ensures multiset(r) == multiset(Candidates(idx, cut(query)))
    ensures |r| == |Candidates(idx, cut(query))|
    ensures Valid(idx) ==> forall i :: 0 <= i < |r| ==> r[i].docId < |idx.forward|
  {
    var candidates := Candidates(idx, cut(query));
    SortKeepsPostings(candidates);
    SortByWeight(candidates)
  }

  /** One result: the ranked posting's document, resolved through the forward
      index, with the snippet for the posting's term. */
  function Describe(idx: Index, p: Posting): (r: SearchResult)
    requires p.docId < |idx.forward|
    ensures |r.desc| <= DescLen
    ensures r.title == idx.forward[p.docId].title && r.url == idx.forward[p.docId].url
    ensures r.desc == GenerateDesc(idx.forward[p.docId].content, p.word)
  {
    var doc := GetDocInfo(idx, p.docId).value;
    SearchResult(doc.title, doc.url, GenerateDesc(doc.content, p.word))
  }

  /** Search: exactly one result per candidate posting, in ranked order. The
      document lookup is not checked in the source; the index invariant
      guarantees it succeeds. */
  function Search(idx: Index, cut: Tokenizer, query: Bytes): (r: seq<SearchResult>)
    requires Valid(idx)
    ensures |r| == |Candidates(idx, cut(query))|
    ensures forall i :: 0 <= i < |r| ==> r[i] == Describe(idx, Rank(idx, cut, query)[i])
    ensures forall i :: 0 <= i < |r| ==> |r[i].desc| <= DescLen
    ensures r == [] <==> forall j :: 0 <= j < |cut(query)| ==> Lower(cut(query)[j]) !in idx.inverted
  {
    var ranked := Rank(idx, cut, query);
    seq(|ranked|, i requires 0 <= i < |ranked| => Describe(idx, ranked[i]))
  }

  /** Queries whose tokens differ only in case give the same results. */
  lemma SearchCaseInsensitive(idx: Index, cut: Tokenizer, q1: Bytes, q2: Bytes)
    requires Valid(idx)
    requires Lowered(cut(q1)) == Lowered(cut(q2))
    ensures Search(idx, cut, q1) == Search(idx, cut, q2)
  {
    CandidatesCaseInsensitive(idx, cut(q1), cut(q2));
  }

  /** A posting filed under one of the tokens' terms is a candidate. */
  lemma InCandidates(idx: Index, tokens: seq<Bytes>, j: nat, p: Posting)
    requires j < |tokens| && p in ListOf(idx.inverted, Lower(tokens[j]))
    ensures p in Candidates(idx, tokens)
  {
    var after := [tokens[j]] + tokens[j + 1..];
    assert tokens == tokens[..j] + after;
    CandidatesConcat(idx, tokens[..j], after);
    CandidatesConcat(idx, [tokens[j]], tokens[j + 1..]);
    CandidatesOne(idx, tokens[j]);
  }

  /** Where a posting filed under a query term lands in the ranking. */
  lemma RankedAt(idx: Index, cut: Tokenizer, query: Bytes, j: nat, p: Posting) returns (i: nat)
    requires j < |cut(query)| && p in ListOf(idx.inverted, Lower(cut(query)[j]))
    ensures i < |Rank(idx, cut, query)| && Rank(idx, cut, query)[i] == p
  {
    var cands := Candidates(idx, cut(query));
    InCandidates(idx, cut(query), j, p);
    var ranked := Rank(idx, cut, query);
    assert multiset(ranked) == multiset(cands);
    assert p in multiset(ranked);
    i :| 0 <= i < |ranked| && ranked[i] == p;
  }

  /** Every posting filed under one of the query's terms reaches the results:
      some result describes it. */
  lemma SearchFindsPosting(idx: Index, cut: Tokenizer, query: Bytes, j: nat, p: Posting)
    requires Valid(idx)
    requires j < |cut(query)| && p in ListOf(idx.inverted, Lower(cut(query)[j]))
    ensures p.docId < |idx.forward|
    ensures exists i :: 0 <= i < |Search(idx, cut, query)| && Search(idx, cut, query)[i] == Describe(idx, p)
  {
    var i := RankedAt(idx, cut, query, j, p);
    var r := Search(idx, cut, query);
    assert r[i] == Describe(idx, Rank(idx, cut, query)[i]);
  }
}
