/** The Index class of searcher/searcher.cc: a forward index (document store,
    position = document id) and an inverted index (lower-cased term to its
    posting list), built once from the lines of the corpus. The word segmenter
    is a parameter `cut`; the source uses the same segmentation for indexing
    and for queries. */
module Indexer {
  import opened Text
  import opened Util

  /** One document of the forward index. */
  datatype DocInfo = DocInfo(docId: nat, title: Bytes, url: Bytes, content: Bytes)

  /** One posting (the source's `Weight`): a document that contains `word`,
      and how strongly. */
  datatype Posting = Posting(docId: nat, word: Bytes, weight: int)

  type InvertedList = seq<Posting>

  datatype Index = Index(forward: seq<DocInfo>, inverted: map<Bytes, InvertedList>)

  /** The word segmenter (jieba's CutForSearch), deterministic and total. */
  type Tokenizer = Bytes -> seq<Bytes>

  /** A title occurrence counts this many content occurrences. */
  const TitleFactor: int := 10

  const EmptyIndex: Index := Index([], map[])

  // ---------------------------------------------------------------------------
  // The index invariant
  // ---------------------------------------------------------------------------

  /** Every list under `k` is non-empty, holds postings for `k` only, of
      positive weight, for existing documents, in strictly increasing document
      order (so a (term, document) pair occurs at most once). */
  ghost predicate ListValid(list: InvertedList, k: Bytes, n: nat) {
    && |list| > 0
    && (forall i :: 0 <= i < |list| ==> list[i].word == k && list[i].docId < n && list[i].weight >= 1)
    && (forall i, j :: 0 <= i < j < |list| ==> list[i].docId < list[j].docId)
  }

  /** The invariant Build establishes: document ids are positions, and every
      posting list is valid. */
  ghost predicate Valid(idx: Index) {
    && (forall i :: 0 <= i < |idx.forward| ==> idx.forward[i].docId == i)
    && (forall k :: k in idx.inverted ==> ListValid(idx.inverted[k], k, |idx.forward|))
  }

  // ---------------------------------------------------------------------------
  // Lookups
  // ---------------------------------------------------------------------------

  /** GetDocInfo: the document with id `docId`, None (nullptr) when the id is
      negative or past the end. */
  function GetDocInfo(idx: Index, docId: int): (r: Option<DocInfo>)
    ensures r.None? <==> docId < 0 || docId >= |idx.forward|
    ensures r.Some? ==> r.value == idx.forward[docId]
    ensures Valid(idx) && r.Some? ==> r.value.docId == docId
  {
    if docId < 0 || docId >= |idx.forward| then None else Some(idx.forward[docId])
  }

  /** GetInvertedList: the posting list of `key`, None (nullptr) when the key
      is not indexed. */
  function GetInvertedList(idx: Index, key: Bytes): (r: Option<InvertedList>)
    ensures r.None? <==> key !in idx.inverted
    ensures r.Some? ==> r.value == idx.inverted[key]
    ensures Valid(idx) && r.Some? ==> |r.value| > 0
    ensures Valid(idx) && r.Some? ==>
      forall i :: 0 <= i < |r.value| ==> r.value[i].word == key && r.value[i].docId < |idx.forward|
  {
    if key in idx.inverted then Some(idx.inverted[key]) else None
  }

  // ---------------------------------------------------------------------------
  // BuildForward
  // ---------------------------------------------------------------------------

  datatype Forwarded =
    | Rejected                              // nullptr: the index is unchanged
    | Appended(index: Index, doc: DocInfo)  // the index with `doc` pushed back

  /** Splits `line` on `\3`. Unless that yields exactly three fields the line
      is rejected; otherwise a document with the next id and the three fields
      is appended. */
  function BuildForward(idx: Index, line: Bytes): (r: Forwarded)
    ensures r.Rejected? <==> multiset(line)[FieldSep] != 2
    ensures r.Appended? ==> r.index == idx.(forward := idx.forward + [r.doc])
    ensures r.Appended? ==> r.doc.docId == |idx.forward|
    ensures r.Appended? ==> Join([r.doc.title, r.doc.url, r.doc.content], FieldSep) == line
    ensures r.Appended? ==>
      FieldSep !in r.doc.title && FieldSep !in r.doc.url && FieldSep !in r.doc.content
  {
    var tokens := Split(line, FieldSep);
    SplitCount(line, FieldSep);
    JoinSplit(line, FieldSep);
    SplitPiecesFree(line, FieldSep);
    if |tokens| != 3 then Rejected
    else
      assert tokens == [tokens[0], tokens[1], tokens[2]];
      var doc := DocInfo(|idx.forward|, tokens[0], tokens[1], tokens[2]);
      Appended(idx.(forward := idx.forward + [doc]), doc)
  }

  // ---------------------------------------------------------------------------
  // Term counting
  // ---------------------------------------------------------------------------

  /** The tokens, each lower-cased. */
  function Lowered(words: seq<Bytes>): (r: seq<Bytes>)
    ensures |r| == |words|
    ensures forall i :: 0 <= i < |words| ==> r[i] == Lower(words[i])
  {
    seq(|words|, i requires 0 <= i < |words| => Lower(words[i]))
  }

  /** How many of the tokens lower-case to `term`. */
  function Occ(words: seq<Bytes>, term: Bytes): nat {
    multiset(Lowered(words))[term]
  }

  /** Peeling off the first token. */
  lemma OccCons(words: seq<Bytes>)
    requires |words| > 0
    ensures forall k :: Occ(words, k) == (if Lower(words[0]) == k then 1 else 0) + Occ(words[1..], k)
  {
    assert Lowered(words) == [Lower(words[0])] + Lowered(words[1..]);
  }

  /** The per-term counters of BuildInverted. */
  datatype WordCnt = WordCnt(titleCnt: nat, contentCnt: nat)

  /** `word_cnt_map[k]`, default-constructed when absent. */
  function CountOf(m: map<Bytes, WordCnt>, k: Bytes): WordCnt {
    if k in m then m[k] else WordCnt(0, 0)
  }

  /** The weight of a term from its counters: a title occurrence counts ten
      times a content occurrence. */
  function WeightOf(c: WordCnt): int {
    TitleFactor * c.titleCnt + c.contentCnt
  }

  /** One counting loop of BuildInverted: for each token, lower-case it and
      bump the title or the content counter of that term. */
  function Tally(words: seq<Bytes>, inTitle: bool, m: map<Bytes, WordCnt>): (r: map<Bytes, WordCnt>)
    decreases |words|
    ensures forall k :: k in r <==> k in m || Occ(words, k) > 0
    ensures forall k :: CountOf(r, k).titleCnt == CountOf(m, k).titleCnt + (if inTitle then Occ(words, k) else 0)
    ensures forall k :: CountOf(r, k).contentCnt == CountOf(m, k).contentCnt + (if inTitle then 0 else Occ(words, k))
  {
    if |words| == 0 then m
    else
      var w := Lower(words[0]);
      var c := CountOf(m, w);
      var c' := if inTitle then c.(titleCnt := c.titleCnt + 1) else c.(contentCnt := c.contentCnt + 1);
      OccCons(words);
      Tally(words[1..], inTitle, m[w := c'])
  }

  /** The term occurs in the document's title or content tokens. */
  ghost predicate Mentions(doc: DocInfo, cut: Tokenizer, k: Bytes) {
    Occ(cut(doc.title), k) > 0 || Occ(cut(doc.content), k) > 0
  }

  /** The weight of term `k` in `doc`: ten per title occurrence plus one per
      content occurrence. */
  function TermWeight(doc: DocInfo, cut: Tokenizer, k: Bytes): int {
    WeightOf(WordCnt(Occ(cut(doc.title), k), Occ(cut(doc.content), k)))
  }

  /** A term the document mentions has a positive weight. */
  lemma MentionedWeightPositive(doc: DocInfo, cut: Tokenizer, k: Bytes)
    requires Mentions(doc, cut, k)
    ensures TermWeight(doc, cut, k) >= 1
  {
  }

  /** `word_cnt_map` after both counting loops. */
  function WordCounts(doc: DocInfo, cut: Tokenizer): (r: map<Bytes, WordCnt>)
    ensures forall k :: k in r <==> Mentions(doc, cut, k)
    ensures forall k :: k in r ==> r[k] == WordCnt(Occ(cut(doc.title), k), Occ(cut(doc.content), k))
  {
    Tally(cut(doc.content), false, Tally(cut(doc.title), true, map[]))
  }

  // ---------------------------------------------------------------------------
  // BuildInverted
  // ---------------------------------------------------------------------------

  /** `inverted_index[k]`, default-constructed (empty) when absent. */
  function ListOf(inv: map<Bytes, InvertedList>, k: Bytes): InvertedList {
    if k in inv then inv[k] else []
  }

  /** The posting loop of BuildInverted: one posting per counted term,
      appended to that term's list. The order in which the terms are visited
      does not matter, as each goes to its own list. */
  function AppendPostings(inv: map<Bytes, InvertedList>, counts: map<Bytes, WordCnt>, docId: nat)
    : (r: map<Bytes, InvertedList>)
    ensures forall k :: k in r <==> k in inv || k in counts
    ensures forall k :: k in counts ==>
      r[k] == ListOf(inv, k) + [Posting(docId, k, WeightOf(counts[k]))]
    ensures forall k :: k in inv && k !in counts ==> r[k] == inv[k]
  {
    map k | k in inv.Keys + counts.Keys ::
      if k in counts then
        ListOf(inv, k) + [Posting(docId, k, WeightOf(counts[k]))]
      else inv[k]
  }

  /** For each distinct term of the document, appends one posting with the
      document's id and the term's weight to that term's list; every other
      list is left as it was. */
  function BuildInverted(idx: Index, doc: DocInfo, cut: Tokenizer): (r: Index)
    ensures r.forward == idx.forward
    ensures forall k :: k in r.inverted <==> k in idx.inverted || Mentions(doc, cut, k)
    ensures forall k :: Mentions(doc, cut, k) ==>
      r.inverted[k] == ListOf(idx.inverted, k) + [Posting(doc.docId, k, TermWeight(doc, cut, k))]
    ensures forall k :: k in idx.inverted && !Mentions(doc, cut, k) ==> r.inverted[k] == idx.inverted[k]
  {
    var counts := WordCounts(doc, cut);
    var inv := AppendPostings(idx.inverted, counts, doc.docId);
    assert forall k | Mentions(doc, cut, k) ::
      inv[k] == ListOf(idx.inverted, k) + [Posting(doc.docId, k, TermWeight(doc, cut, k))] by {
      forall k | Mentions(doc, cut, k)
        ensures inv[k] == ListOf(idx.inverted, k) + [Posting(doc.docId, k, TermWeight(doc, cut, k))]
      {
        assert k in counts;
        assert counts[k] == WordCnt(Occ(cut(doc.title), k), Occ(cut(doc.content), k));
      }
    }
    idx.(inverted := inv)
  }

  // ---------------------------------------------------------------------------
  // Build
  // ---------------------------------------------------------------------------

  /** One iteration of the getline loop: a rejected line is skipped, an
      accepted one is added to both indexes. */
  function BuildStep(idx: Index, line: Bytes, cut: Tokenizer): (r: Index)
    ensures !IsRecord(line) ==> r == idx
    ensures IsRecord(line) ==>
      && |r.forward| == |idx.forward| + 1
      && r.forward[..|idx.forward|] == idx.forward
      && r.forward[|idx.forward|].docId == |idx.forward|
      && LineOf(r.forward[|idx.forward|]) == line
    ensures IsRecord(line) ==> forall k ::
      k in r.inverted <==> k in idx.inverted || Mentions(r.forward[|idx.forward|], cut, k)
    ensures IsRecord(line) ==> forall k :: Mentions(r.forward[|idx.forward|], cut, k) ==>
      r.inverted[k] == ListOf(idx.inverted, k)
                       + [Posting(|idx.forward|, k, TermWeight(r.forward[|idx.forward|], cut, k))]
    ensures IsRecord(line) ==> forall k :: k in idx.inverted && !Mentions(r.forward[|idx.forward|], cut, k) ==>
      r.inverted[k] == idx.inverted[k]
  {
    match BuildForward(idx, line)
    case Rejected => idx
    case Appended(next, doc) =>
      assert next.forward == idx.forward + [doc];
      BuildInverted(next, doc, cut)
  }

  /** The getline loop over the corpus lines. */
  function BuildLines(idx: Index, lines: seq<Bytes>, cut: Tokenizer): (r: Index)
    decreases |lines|
    ensures idx.forward <= r.forward
    ensures |r.forward| == |idx.forward| + |Accepted(lines)|
  {
    if |lines| == 0 then idx
    else BuildLines(BuildStep(idx, lines[0], cut), lines[1..], cut)
  }

  /** Build: None (false, nothing indexed) when the corpus file cannot be
      opened, otherwise the index extended by every accepted line. */
  function Build(idx: Index, corpus: Option<seq<Bytes>>, cut: Tokenizer): (r: Option<Index>)
    ensures r.None? <==> corpus.None?
    ensures r.Some? && Valid(idx) ==> Valid(r.value)
    ensures r.Some? && Indexed(idx, cut) ==> Indexed(r.value, cut)
    ensures r.Some? ==> idx.forward <= r.value.forward
    ensures r.Some? ==> DocsFrom(r.value.forward, |idx.forward|, Accepted(corpus.value))
  {
    match corpus
    case None => None
    case Some(lines) =>
      BuildLinesIndexed(idx, lines, cut);
      BuildLinesForward(idx, lines, cut);
      Some(BuildLines(idx, lines, cut))
  }

  /** A corpus line with exactly three fields. */
  predicate IsRecord(line: Bytes) {
    multiset(line)[FieldSep] == 2
  }

  /** The lines BuildForward accepts, in order. */
  function Accepted(lines: seq<Bytes>): seq<Bytes>
    decreases |lines|
  {
    if |lines| == 0 then []
    else (if IsRecord(lines[0]) then [lines[0]] else []) + Accepted(lines[1..])
  }

  // ---------------------------------------------------------------------------
  // What Build establishes
  // ---------------------------------------------------------------------------

  /** Every posting under `k` is for a document that mentions `k` and
      carries that term's weight in it. */
  ghost predicate Sound(idx: Index, cut: Tokenizer) {
    && Valid(idx)
    && forall k, i :: k in idx.inverted && 0 <= i < |idx.inverted[k]| ==>
         && Mentions(idx.forward[idx.inverted[k][i].docId], cut, k)
         && idx.inverted[k][i].weight == TermWeight(idx.forward[idx.inverted[k][i].docId], cut, k)
  }

  /** Every (document, term it mentions) pair has a posting. */
  ghost predicate Complete(idx: Index, cut: Tokenizer) {
    forall d, k :: 0 <= d < |idx.forward| && Mentions(idx.forward[d], cut, k) ==>
      k in idx.inverted && exists i :: 0 <= i < |idx.inverted[k]| && idx.inverted[k][i].docId == d
  }

  /** The inverted index is exactly the term-to-document relation of the
      forward index, with the weights BuildInverted computes. */
  ghost predicate Indexed(idx: Index, cut: Tokenizer) {
    Sound(idx, cut) && Complete(idx, cut)
  }

  lemma EmptyIndexIndexed(cut: Tokenizer)
    ensures Indexed(EmptyIndex, cut)
  {
  }

  /** The index after `doc`, numbered next, is added to both sides. */
  function AddDoc(idx: Index, doc: DocInfo, cut: Tokenizer): Index {
    BuildInverted(idx.(forward := idx.forward + [doc]), doc, cut)
  }

  /** Appending a posting for a new, larger document id keeps a list valid. */
  lemma AppendListValid(prev: InvertedList, k: Bytes, n: nat, p: Posting)
    requires |prev| == 0 || ListValid(prev, k, n)
    requires p.word == k && p.docId == n && p.weight >= 1
    ensures ListValid(prev + [p], k, n + 1)
  {
  }

  lemma AddDocValid(idx: Index, doc: DocInfo, cut: Tokenizer)
    requires Valid(idx) && doc.docId == |idx.forward|
    ensures Valid(AddDoc(idx, doc, cut))
  {
    var r := AddDoc(idx, doc, cut);
    var n := |idx.forward|;
    assert r.forward == idx.forward + [doc];
    forall k | k in r.inverted
      ensures ListValid(r.inverted[k], k, n + 1)
    {
      if Mentions(doc, cut, k) {
        MentionedWeightPositive(doc, cut, k);
        AppendListValid(ListOf(idx.inverted, k), k, n, Posting(n, k, TermWeight(doc, cut, k)));
      } else {
        assert r.inverted[k] == idx.inverted[k];
        assert ListValid(idx.inverted[k], k, n);
      }
    }
  }

  lemma AddDocSound(idx: Index, doc: DocInfo, cut: Tokenizer)
    requires Sound(idx, cut) && doc.docId == |idx.forward|
    ensures Sound(AddDoc(idx, doc, cut), cut)
  {
    AddDocValid(idx, doc, cut);
    var r := AddDoc(idx, doc, cut);
    var n := |idx.forward|;
    assert r.forward == idx.forward + [doc];
    forall k, i | k in r.inverted && 0 <= i < |r.inverted[k]|
      ensures Mentions(r.forward[r.inverted[k][i].docId], cut, k)
      ensures r.inverted[k][i].weight == TermWeight(r.forward[r.inverted[k][i].docId], cut, k)
    {
      var p := r.inverted[k][i];
      if Mentions(doc, cut, k) && i == |ListOf(idx.inverted, k)| {
        assert p.docId == n;
      } else {
        assert k in idx.inverted && i < |idx.inverted[k]| && p == idx.inverted[k][i];
        assert r.forward[p.docId] == idx.forward[p.docId];
      }
    }
  }

  lemma AddDocComplete(idx: Index, doc: DocInfo, cut: Tokenizer)
    requires Complete(idx, cut) && doc.docId == |idx.forward|
    ensures Complete(AddDoc(idx, doc, cut), cut)
  {
    var r := AddDoc(idx, doc, cut);
    var n := |idx.forward|;
    assert r.forward == idx.forward + [doc];
    forall d, k | 0 <= d < |r.forward| && Mentions(r.forward[d], cut, k)
      ensures k in r.inverted
      ensures exists i :: 0 <= i < |r.inverted[k]| && r.inverted[k][i].docId == d
    {
      if d == n {
        var i := |ListOf(idx.inverted, k)|;
        assert r.inverted[k][i].docId == d;
      } else {
        assert r.forward[d] == idx.forward[d];
        var i :| 0 <= i < |idx.inverted[k]| && idx.inverted[k][i].docId == d;
        if Mentions(doc, cut, k) {
          assert r.inverted[k][i] == idx.inverted[k][i];
        } else {
          assert r.inverted[k] == idx.inverted[k];
        }
      }
    }
  }

  /** One step of the loop keeps the index valid and faithful. */
  lemma BuildStepIndexed(idx: Index, line: Bytes, cut: Tokenizer)
    ensures Valid(idx) ==> Valid(BuildStep(idx, line, cut))
    ensures Indexed(idx, cut) ==> Indexed(BuildStep(idx, line, cut), cut)
  {
    match BuildForward(idx, line)
    case Rejected =>
    case Appended(next, doc) =>
      assert BuildStep(idx, line, cut) == AddDoc(idx, doc, cut);
      if Valid(idx) {
        AddDocValid(idx, doc, cut);
      }
      if Indexed(idx, cut) {
        AddDocSound(idx, doc, cut);
        AddDocComplete(idx, doc, cut);
      }
  }

  lemma {:induction false} BuildLinesIndexed(idx: Index, lines: seq<Bytes>, cut: Tokenizer)
    ensures Valid(idx) ==> Valid(BuildLines(idx, lines, cut))
    ensures Indexed(idx, cut) ==> Indexed(BuildLines(idx, lines, cut), cut)
    decreases |lines|
  {
    if |lines| > 0 {
      BuildStepIndexed(idx, lines[0], cut);
      BuildLinesIndexed(BuildStep(idx, lines[0], cut), lines[1..], cut);
    }
  }

  /** The corpus line a document was read from. */
  function LineOf(doc: DocInfo): Bytes {
    Join([doc.title, doc.url, doc.content], FieldSep)
  }

  /** From position `n` on, `f` holds one document per line of `lines`, with
      consecutive ids, each read from its line. */
  ghost predicate DocsFrom(f: seq<DocInfo>, n: nat, lines: seq<Bytes>) {
    && |f| == n + |lines|
    && forall j :: n <= j < |f| ==> f[j].docId == j && LineOf(f[j]) == lines[j - n]
  }

  lemma DocsFromCons(f: seq<DocInfo>, n: nat, line: Bytes, rest: seq<Bytes>)
    requires n < |f| && f[n].docId == n && LineOf(f[n]) == line
    requires DocsFrom(f, n + 1, rest)
    ensures DocsFrom(f, n, [line] + rest)
  {
    var lines := [line] + rest;
    forall j | n <= j < |f|
      ensures f[j].docId == j && LineOf(f[j]) == lines[j - n]
    {
      if j > n {
        assert lines[j - n] == rest[j - (n + 1)];
      }
    }
  }

  /** Combining one step with the rest of the loop: the documents the step
      appended (one or none) come first, then those of the remaining lines. */
  lemma DocsAfterStep(before: seq<DocInfo>, mid: seq<DocInfo>, f: seq<DocInfo>, line: Bytes, rest: seq<Bytes>)
    requires mid <= f && DocsFrom(f, |mid|, rest)
    requires IsRecord(line) ==>
      && |mid| == |before| + 1 && mid[..|before|] == before
      && mid[|before|].docId == |before| && LineOf(mid[|before|]) == line
    requires !IsRecord(line) ==> mid == before
    ensures before <= f
    ensures DocsFrom(f, |before|, (if IsRecord(line) then [line] else []) + rest)
  {
    if IsRecord(line) {
      assert f[|before|] == mid[|before|];
      DocsFromCons(f, |before|, line, rest);
    } else {
      assert [] + rest == rest;
    }
  }

  /** The forward index after the loop: the old documents untouched, then one
      document per accepted line, in corpus order. */
  lemma {:induction false} BuildLinesForward(idx: Index, lines: seq<Bytes>, cut: Tokenizer)
    ensures idx.forward <= BuildLines(idx, lines, cut).forward
    ensures DocsFrom(BuildLines(idx, lines, cut).forward, |idx.forward|, Accepted(lines))
    decreases |lines|
  {
    if |lines| > 0 {
      var next := BuildStep(idx, lines[0], cut);
      BuildLinesForward(next, lines[1..], cut);
      DocsAfterStep(idx.forward, next.forward, BuildLines(next, lines[1..], cut).forward,
                    lines[0], Accepted(lines[1..]));
    }
  }

  /** Ids are positions after any Build from the empty index, and the forward
      index has one document per accepted line. */
  lemma BuildFromEmpty(lines: seq<Bytes>, cut: Tokenizer)
    ensures Indexed(BuildLines(EmptyIndex, lines, cut), cut)
    ensures |BuildLines(EmptyIndex, lines, cut).forward| == |Accepted(lines)|
  {
    EmptyIndexIndexed(cut);
    BuildLinesIndexed(EmptyIndex, lines, cut);
    BuildLinesForward(EmptyIndex, lines, cut);
  }
}
