# A verified model of the boost_searcher indexing and retrieval core

This project models the core of a small full-text search engine over the Boost
documentation. A preparation step turns each HTML page into one corpus line
`title \3 url \3 content`. The engine reads the corpus into a forward index
(document id to document) and an inverted index (lower-cased term to weighted
postings). It answers a query by concatenating the posting lists of the
query's terms, sorting them by weight, and producing one result per posting:
the document's title, its url, and a snippet of at most 160 bytes around the
term.

Everything is pure Dafny over immutable values. Strings are byte strings
(`Text.Bytes`, a sequence of chars below 256), and lengths and offsets are byte
counts, as in the source. Lookups that return a null pointer return an
`Option`. The word segmenter (jieba) is a function parameter `cut`. The index
build is a fold over the corpus lines.

Modules:

- `Text` (text.dfy): byte strings, ASCII lower-casing (`boost::to_lower`) and
  first-occurrence search (`std::string::find`).
- `Util` (util.dfy): `Util::Split` with a one-byte delimiter and no token
  compression, its inverse `Join`, and the field separator `\3`.
- `Parser` (parser.dfy): `ParseTitle`, `ParseUrl`, `ParseContent`,
  `ParseFile` after the file read, and `WriteOutput` as a line formatter.
- `Indexer` (index.dfy): the `Index` class, with `GetDocInfo`,
  `GetInvertedList`, `BuildForward`, `BuildInverted` and `Build`, plus the
  invariants `Valid` and `Indexed` that every build keeps.
- `Ranking` (ranking.dfy): the weight sort of `Searcher::Search`.
- `Searcher` (searcher.dfy): candidate collection, ranking, result
  construction and `GenerateDesc`.
- `Pipeline` (pipeline.dfy): a parsed page, written as a line and read back,
  becomes the next document of the index.

Two facts about the code shape the model:

- Every query token is looked up, so a repeated token contributes its list
  twice (`Searcher.CandidatesConcat`).
- `CutForSearch` segments both documents and queries, so the model has one
  tokenizer parameter `cut`.

## Model

| member | source | states |
|---|---|---|
| Text.LowerByte | searcher/searcher.cc:111 | One byte lower-cased: an ASCII capital becomes its small letter (+32), every other byte is kept, and the result is never a capital. |
| Text.FindFrom | searcher/searcher.cc:187 | Searching from offset `i` returns the first occurrence at or after `i`, or None when there is none from `i` on. |
| Text.Find | searcher/searcher.cc:187 | Returns the first offset where the word occurs, or None (npos) exactly when it occurs nowhere. An empty word is found at offset 0. |
| Text.FindFirst | searcher/searcher.cc:187 | Whenever `i` is the first occurrence, `find` returns exactly `i`. |
| Text.Lower | searcher/searcher.cc:111 | Lower-casing keeps the length. Each ASCII capital becomes its small letter (code +32), every other byte is kept, and no capital remains. |
| Text.LowerIdempotent | searcher/searcher.cc:155 | Lower-casing an already lower-cased term changes nothing. So a query term lower-cased at line 155 meets index keys that were lower-cased the same way at lines 111 and 119. |
| Util.Split | common/util.hpp:45-47 | Splitting always yields at least one piece. |
| Util.SplitEmpty | common/util.hpp:45-47 | The empty input yields a single empty piece. |
| Util.SplitCount | common/util.hpp:45-47 | The number of pieces is the number of delimiter bytes plus one. |
| Util.SplitPiecesFree | common/util.hpp:45-47 | No piece contains the delimiter. |
| Util.SplitAround | common/util.hpp:43-46 | Splitting `a + d + b` is splitting `a` followed by splitting `b`. So adjacent, leading and trailing delimiters give empty pieces instead of being merged (token_compress_off). |
| Util.SplitNoDelimiter | common/util.hpp:45-47 | Input without the delimiter is one piece, equal to the input. |
| Util.JoinSplit | common/util.hpp:45-47 | Joining the pieces with the delimiter gives back the input exactly. |
| Util.SplitJoin | common/util.hpp:45-47 | Splitting the join of one or more delimiter-free pieces gives back those pieces. |
| Parser.ParseTitle | parser/parser.cpp:71-90 | Succeeds exactly when the first `<title>` and the first `</title>` (both searched from offset 0) exist and the latter starts strictly after the end of the former. The title is then the bytes between them, and it is never empty. |
| Parser.ParseTitleOfPage | parser/parser.cpp:71-90 | For a page `x <title> t </title> y` with no `<` in `x` or `t` and `t` non-empty, the title is exactly `t`. This covers only pages with no tag before the title. For any other page, `Parser.ParseTitle`'s first-occurrence contract applies. |
| Parser.ParseTitleRejectsEmpty | parser/parser.cpp:71-86 | Any page whose first `<title>` is directly followed by `</title>` is rejected, whatever precedes or follows it. |
| Parser.ParseUrl | parser/parser.cpp:94-99 | The url is the online head followed by the path minus its first `|g_input_path|` bytes. Its length is correspondingly determined. |
| Parser.ParseUrlOfInputFile | parser/parser.cpp:94-99 | A path `../data/input` + rel maps to the online head + rel. |
| Parser.Visible | parser/parser.cpp:102-131 | The text the tag-stripping scan keeps contains no `<` and no newline, and is no longer than the input. |
| Parser.ParseContent | parser/parser.cpp:102-131 | The byte loop only appends to `content`. What it appends is the scan's visible text, which has no `<` and no newline and is at most as long as the page. |
| Parser.VisibleOfPlain | parser/parser.cpp:106-129 | Text without `<` and without newline passes the scan unchanged. |
| Parser.ParseContentIdempotent | parser/parser.cpp:106-129 | Stripping already stripped text changes nothing. |
| Parser.VisibleOfTagFree | parser/parser.cpp:106-119 | Text without `<` is kept byte for byte, each newline mapped to a space, and any `>` kept. |
| Parser.VisibleConcat | parser/parser.cpp:105-129 | The scan of a concatenation is the scan of each part, with the in-tag state carried across. |
| Parser.InsideTag | parser/parser.cpp:120-128 | Inside a tag nothing is kept until a `>`. |
| Parser.VisibleDropsTag | parser/parser.cpp:105-129 | A closed span `<...>` disappears together with its brackets. |
| Parser.VisibleDropsUnclosed | parser/parser.cpp:105-129 | An unclosed `<` drops the rest of the input. |
| Parser.ParseFile | parser/parser.cpp:133-162 | A page parses exactly when its title parses. The record is then that title, the url built from the path, and the tag-stripped content. So the title is non-empty, the content has no `<` and no newline, and the url starts with the online head. |
| Parser.WriteOutput | parser/parser.cpp:168-170 | The line is the three fields joined by `\3` followed by one newline. |
| Parser.WriteOutputSplits | parser/parser.cpp:169 | If no field contains `\3`, splitting the line minus its newline on `\3` yields exactly `[title, url, content]`. |
| Indexer.GetDocInfo | searcher/searcher.cc:26-31 | Null exactly when the id is negative or not below the forward size. Otherwise it is that document, whose id is the requested one in a valid index. |
| Indexer.GetInvertedList | searcher/searcher.cc:33-39 | Null exactly when the key is not indexed. Otherwise it is the key's list, which in a valid index is non-empty and holds postings for that key and for existing documents. |
| Indexer.BuildForward | searcher/searcher.cc:75-90 | Rejects the line, leaving the index unchanged, exactly when it does not hold two `\3` bytes, i.e. does not split into 3 fields. Otherwise it appends exactly one document, with id equal to the old forward size and fields whose `\3`-join is the line, and changes nothing else. |
| Indexer.Tally | searcher/searcher.cc:103-121 | After a counting loop, each term's title (or content) counter has grown by the number of tokens that lower-case to it. The counted terms are the old ones plus those tokens. |
| Indexer.WordCounts | searcher/searcher.cc:103-121 | The counter map holds exactly the terms the document mentions. Each term maps to its title and content occurrence counts. |
| Indexer.MentionedWeightPositive | searcher/searcher.cc:127-128 | A mentioned term's weight `10*title + content` is at least 1. |
| Indexer.AppendPostings | searcher/searcher.cc:122-134 | One posting per counted term, weight `10*title_cnt + content_cnt`, appended to that term's list (created when absent). Other lists are untouched. |
| Indexer.BuildInverted | searcher/searcher.cc:95-135 | Every term the document mentions gets exactly one new posting `{doc_id, term, 10*title_cnt + content_cnt}` at the end of its list. Lists of other terms and the forward index are unchanged. |
| Indexer.AppendListValid | searcher/searcher.cc:132-133 | Appending a posting for a larger document id keeps a list in strictly increasing id order. |
| Indexer.AddDocValid | searcher/searcher.cc:84-89 | Adding a document numbered next to a valid index keeps it valid. |
| Indexer.AddDocSound | searcher/searcher.cc:122-134 | Adding a document keeps every posting pointing at a document that mentions its term, with that term's weight. |
| Indexer.AddDocComplete | searcher/searcher.cc:122-134 | Adding a document keeps a posting for every (document, mentioned term) pair. |
| Indexer.BuildStepIndexed | searcher/searcher.cc:51-59 | One loop iteration (skip a rejected line, or add the document to both indexes) preserves validity and faithfulness. |
| Indexer.BuildStep | searcher/searcher.cc:51-59 | One loop iteration leaves the index unchanged for a line that is not a three-field record. Otherwise it appends exactly one document, read from the line and numbered next. Each term that document mentions gains one posting with its weight at the end of its list, and every other list is unchanged. |
| Indexer.BuildLines | searcher/searcher.cc:50-66 | The loop only appends to the forward index, one document per well-formed line. |
| Indexer.BuildLinesIndexed | searcher/searcher.cc:50-66 | The getline loop preserves `Valid`: ids equal positions, and every list is non-empty, of positive weights, for term `k` only, for existing documents, in strictly increasing id order (a (term, doc) pair occurs at most once). It also preserves `Indexed`: postings are exactly the (term, document) mentions, with the weight formula. |
| Indexer.BuildLinesForward | searcher/searcher.cc:50-66 | After the loop the old documents are untouched. Then follows one document per accepted line, in corpus order, with consecutive ids, each holding that line's three fields. |
| Indexer.Build | searcher/searcher.cc:41-70 | Fails exactly when the corpus cannot be opened. Otherwise the old documents are kept as a prefix, followed by one document per well-formed line, in corpus order, with consecutive ids, each holding that line's three fields. The built index is valid and faithful whenever the starting one was. |
| Indexer.BuildFromEmpty | searcher/searcher.cc:41-70 | Building from the empty index gives a faithful index whose forward size is the number of well-formed lines. |
| Ranking.Insert | searcher/searcher.cc:163-165 | Inserting into a weight-ordered list keeps it weight-ordered and adds exactly that posting. |
| Ranking.SortByWeight | searcher/searcher.cc:163-165 | The result is a permutation (same multiset) of the candidates with non-increasing weights. |
| Ranking.SortKeepsPostings | searcher/searcher.cc:163-165 | Sorting keeps the length, and every sorted entry is one of the candidates. |
| Searcher.MarkTruncated | searcher/searcher.cc:195-197 | Overwriting the last three bytes keeps the length and the other bytes, and ends the text in `...`. |
| Searcher.GenerateDesc | searcher/searcher.cc:185-212 | The snippet is at most 160 bytes. If the word is absent, content shorter than 160 bytes is returned unchanged. Longer content gives 160 bytes: its first 157 bytes then `...`, so content of exactly 160 bytes is truncated too. If the word first occurs at P, let S = (P < 80 ? 0 : P - 80). When S + 160 >= the content length the snippet is the content from S to the end. Otherwise it is the 157 bytes from S followed by `...`. |
| Searcher.WindowStart | searcher/searcher.cc:201 | The window starts at most 80 bytes before the term's position, and exactly 80 bytes before it unless it starts at offset 0. |
| Searcher.Window | searcher/searcher.cc:201-211 | From a window start: the rest of the content when start + 160 reaches its end. Otherwise exactly 160 bytes: the content's 157 bytes from the start, then `...`. |
| Searcher.SnippetShowsWord | searcher/searcher.cc:200-211 | A found word of at most 77 bytes appears in the snippet at its distance from the window start. |
| Searcher.Candidates | searcher/searcher.cc:153-162 | Every candidate comes from the list of some lower-cased query token. In a valid index every candidate's doc id resolves. In a valid index, the candidate list is empty exactly when no lower-cased token is indexed. |
| Searcher.CandidatesFlatten | searcher/searcher.cc:153-162 | The candidates equal the concatenation, in token order, of the whole posting list of every lower-cased token, an absent term contributing nothing. |
| Searcher.CandidatesOne | searcher/searcher.cc:154-161 | One token contributes exactly its lower-cased term's whole posting list. |
| Searcher.InCandidates | searcher/searcher.cc:154-161 | Every posting filed under any query token's term is among the candidates. |
| Searcher.CandidatesConcat | searcher/searcher.cc:154-162 | The candidates of a token sequence are the concatenation, in token order, of those of its parts. Repeated tokens and duplicate documents are kept. |
| Searcher.CandidatesCaseInsensitive | searcher/searcher.cc:154-156 | Token sequences equal after lower-casing give the same candidates. |
| Searcher.Rank | searcher/searcher.cc:150-165 | The ranked list is a permutation of the candidates with non-increasing weights, one entry per candidate, each resolving in a valid index. |
| Searcher.Describe | searcher/searcher.cc:169-177 | A result carries the resolved document's title and url, and as its description the snippet `GenerateDesc` makes of that document's content for the posting's term (at most 160 bytes). |
| Searcher.Search | searcher/searcher.cc:148-183 | Exactly one result per candidate posting, in ranked order, each describing its ranked posting with a snippet of at most 160 bytes. The result is empty exactly when no lower-cased query token is indexed, never an error. |
| Searcher.RankedAt | searcher/searcher.cc:153-165 | Every posting filed under a query token's term has a place in the ranked list. |
| Searcher.SearchFindsPosting | searcher/searcher.cc:148-178 | Every posting filed under a query token's term resolves to a document, and some result describes it. |
| Searcher.SearchCaseInsensitive | searcher/searcher.cc:150-156 | Queries whose tokens agree after lower-casing give identical results. |
| Pipeline.ParsedPageIndexed | parser/parser.cpp:168-170 | A parsed page, written as a line and read back without its newline, becomes the next document with the page's own title, url and content. This holds when no field contains `\3` and the title and url contain no newline; the content never has one. |

## Left out

- File I/O: `Util::Read`, `EnumFile`, the file read in `ParseFile`, the parser's `main`, and the `ifstream` and `getline` in `Build`. `Build` takes the corpus as `Option<seq<Bytes>>` of lines, and None stands for the file that cannot be opened. `ParseFile` takes the page text as a parameter.
- Splitting the corpus file into lines (`std::getline`): I/O. `Pipeline.ParsedPageIndexed` states the condition (no newline inside a field) under which a written line is read back whole.
- The jieba segmenter (`CutWord`, `CutForSearch`) and its dictionary paths: a foreign library. It is the deterministic function parameter `cut`.
- `boost::to_lower`: locale-dependent. It is modelled as ASCII lower-casing of each byte, which is its behaviour in the "C" locale.
- JSON construction and serialisation in `Search`: `Search` returns a sequence of `SearchResult` records.
- `std::sort` tie order: unspecified in the source. The model's insertion sort fixes one order, and the contracts promise only a permutation with non-increasing weights.
- Progress logging every 100 documents and all console messages: output only.
- `unordered_map` iteration order in `BuildInverted`: each term appends to its own list, so the order cannot be observed. The model uses a Dafny `map`.
- Integer widths: counts, weights and ids are unbounded integers. The C++ `int` weight would overflow once `10*title_cnt + content_cnt` exceeds 2^31-1; that wrap-around is not modelled.
- Parser.ParseUrl: `substr` on a path shorter than `g_input_path` throws in the source. The model makes this a precondition; paths from `EnumFile` always start with that directory.
- Searcher.Search: the source dereferences the result of `GetDocInfo` without a null check. The model requires the index invariant `Valid`, under which every lookup succeeds.
- The HTTP server (`http_server/http_server.cc`) and the console test driver (`searcher/searcher_test.cc`): transport and interaction, no index logic.
