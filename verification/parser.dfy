/** The corpus preparation step (parser/parser.cpp): from one HTML page and its
    local path it extracts the title, the online url and the tag-free text, and
    formats them as one line of the corpus that the index builder reads. */
module Parser {
  import opened Text
  import opened Util

  const OpenTag: Bytes := "<title>"
  const CloseTag: Bytes := "</title>"

  /** The directory the pages are enumerated from (`g_input_path`). */
  const InputPath: Bytes := "../data/input"

  /** The online location of the same documentation tree. */
  const UrlHead: Bytes := "https://www.boost.org/doc/libs/1_53_0/doc"

  /** One parsed page. The index builder adds the document id. */
  datatype DocInfo = DocInfo(title: Bytes, url: Bytes, content: Bytes)

  // ---------------------------------------------------------------------------
  // ParseTitle
  // ---------------------------------------------------------------------------

  /** The text between the first `<title>` and the first `</title>`, both
      searched from the start of the page. None (the `false` return, title left
      unwritten) when either tag is missing or the first `</title>` does not
      start strictly after the end of the first `<title>`. */
  function ParseTitle(html: Bytes): (r: Option<Bytes>)
    ensures r.Some? <==>
      exists b: nat, e: nat :: FirstAt(html, OpenTag, b) && FirstAt(html, CloseTag, e) && b + |OpenTag| < e
    ensures forall b: nat, e: nat ::
      FirstAt(html, OpenTag, b) && FirstAt(html, CloseTag, e) && b + |OpenTag| < e ==>
        r == Some(html[b + |OpenTag|..e])
    ensures r.Some? ==> |r.value| > 0
  {
    match Find(html, OpenTag)
    case None => None
    case Some(b) =>
      match Find(html, CloseTag)
      case None => None
      case Some(e) =>
        var beg := b + |OpenTag|;
        if beg >= e then None else Some(html[beg..e])
  }

  /** A page whose head has no `<` before `<title>` and none inside the title
      yields exactly that title. */
  lemma {:induction false} ParseTitleOfPage(x: Bytes, t: Bytes, y: Bytes)
    requires '<' !in x && '<' !in t && |t| > 0
    ensures ParseTitle(x + OpenTag + t + CloseTag + y) == Some(t)
  {
    var html := x + OpenTag + t + CloseTag + y;
    var b := |x|;
    var e := |x| + |OpenTag| + |t|;
    assert html[b..b + |OpenTag|] == OpenTag;
    assert html[e..e + |CloseTag|] == CloseTag;
    forall j: nat | j < b
      ensures !OccursAt(html, OpenTag, j)
    {
      assert html[j] == x[j];
      NotAt(html, OpenTag, j, j);
    }
    forall j: nat | j < e
      ensures !OccursAt(html, CloseTag, j)
    {
      if j < b {
        assert html[j] == x[j];
        NotAt(html, CloseTag, j, j);
      } else if j == b {
        assert html[j + 1] == OpenTag[1];
        NotAt(html, CloseTag, j, j + 1);
      } else if j < b + |OpenTag| {
        assert html[j] == OpenTag[j - b];
        NotAt(html, CloseTag, j, j);
      } else {
        assert html[j] == t[j - b - |OpenTag|];
        NotAt(html, CloseTag, j, j);
      }
    }
    FindFirst(html, OpenTag, b);
    FindFirst(html, CloseTag, e);
    assert html[b + |OpenTag|..e] == t;
  }

  /** An empty title is rejected: whenever the first `<title>` is directly
      followed by `</title>`, whatever comes before or after. */
  lemma ParseTitleRejectsEmpty(html: Bytes, b: nat)
    requires FirstAt(html, OpenTag, b) && OccursAt(html, CloseTag, b + |OpenTag|)
    ensures ParseTitle(html) == None
  {
    FindFirst(html, OpenTag, b);
  }

  // ---------------------------------------------------------------------------
  // ParseUrl
  // ---------------------------------------------------------------------------

  /** The url of a page: the online head followed by the path with its first
      |InputPath| bytes cut off. The path is not checked to start with
      InputPath; only its length is used. The source always returns true. */
  function ParseUrl(filePath: Bytes): (url: Bytes)
    requires |filePath| >= |InputPath|
    ensures |url| == |UrlHead| + |filePath| - |InputPath|
    ensures url[..|UrlHead|] == UrlHead
    ensures url[|UrlHead|..] == filePath[|InputPath|..]
  {
    UrlHead + filePath[|InputPath|..]
  }

  /** A page found under the input directory maps to the same relative path
      under the online head. */
  lemma ParseUrlOfInputFile(rel: Bytes)
    ensures ParseUrl(InputPath + rel) == UrlHead + rel
  {
    assert (InputPath + rel)[|InputPath|..] == rel;
  }

  // ---------------------------------------------------------------------------
  // ParseContent
  // ---------------------------------------------------------------------------

  /** The text the tag-stripping scan keeps from `s`, starting inside a tag
      when `inTag`. Outside a tag, `<` opens one and every other byte is kept
      with `\n` turned into a space; inside a tag everything is dropped and `>`
      closes it. */
  function Visible(s: Bytes, inTag: bool): (r: Bytes)
    decreases |s|
    ensures '<' !in r && '\n' !in r
    ensures |r| <= |s|
  {
    if |s| == 0 then []
    else if !inTag then
      if s[0] == '<' then Visible(s[1..], true)
      else [if s[0] == '\n' then ' ' else s[0]] + Visible(s[1..], false)
    else if s[0] == '>' then Visible(s[1..], false)
    else Visible(s[1..], true)
  }

  /** Whether the scan is inside a tag after reading `s`. */
  function InTagAfter(s: Bytes, inTag: bool): bool
    decreases |s|
  {
    if |s| == 0 then inTag
    else if !inTag then InTagAfter(s[1..], s[0] == '<')
    else InTagAfter(s[1..], s[0] != '>')
  }

  /** The byte loop of ParseContent: appends the visible text of `html` to
      `content`. */
  method ParseContent(html: Bytes, content: Bytes) returns (out: Bytes)
    ensures out == content + Visible(html, false)
    ensures out[..|content|] == content
    ensures '<' !in out[|content|..] && '\n' !in out[|content|..]
    ensures |out| <= |content| + |html|
  {
    out := content;
    var isContent := true;
    for i := 0 to |html|
      invariant out + Visible(html[i..], !isContent) == content + Visible(html, false)
    {
      assert html[i..] == [html[i]] + html[i + 1..];
      var c := html[i];
      if isContent {
        if c == '<' {
          isContent := false;
        } else {
          if c == '\n' {
            c := ' ';
          }
          out := out + [c];
        }
      } else {
        if c == '>' {
          isContent := true;
        }
      }
    }
    assert html[|html|..] == [];
    assert out == content + Visible(html, false);
    assert out[|content|..] == Visible(html, false);
  }

  /** Text that has no `<` and no newline passes the scan unchanged. */
  lemma {:induction false} VisibleOfPlain(s: Bytes)
    requires '<' !in s && '\n' !in s
    ensures Visible(s, false) == s
    decreases |s|
  {
    if |s| > 0 {
      VisibleOfPlain(s[1..]);
      assert s == [s[0]] + s[1..];
    }
  }

  /** Stripping is idempotent: stripped text strips to itself. */
  lemma ParseContentIdempotent(html: Bytes)
    ensures Visible(Visible(html, false), false) == Visible(html, false)
  {
    VisibleOfPlain(Visible(html, false));
  }

  /** Text without `<` is kept whole, with each newline mapped to a space. */
  lemma {:induction false} VisibleOfTagFree(s: Bytes)
    requires '<' !in s
    ensures Visible(s, false) == seq(|s|, i requires 0 <= i < |s| => if s[i] == '\n' then ' ' else s[i])
    decreases |s|
  {
    if |s| > 0 {
      VisibleOfTagFree(s[1..]);
    }
  }

  /** The scan reads a concatenation piece by piece, carrying its state over. */
  lemma {:induction false} VisibleConcat(a: Bytes, b: Bytes, inTag: bool)
    ensures Visible(a + b, inTag) == Visible(a, inTag) + Visible(b, InTagAfter(a, inTag))
    decreases |a|
  {
    if |a| > 0 {
      var ab := a + b;
      assert ab[0] == a[0];
      assert ab[1..] == a[1..] + b;
      var next := if inTag then a[0] != '>' else a[0] == '<';
      VisibleConcat(a[1..], b, next);
      assert InTagAfter(a, inTag) == InTagAfter(a[1..], next);
      if !inTag && a[0] != '<' {
        var c := if a[0] == '\n' then ' ' else a[0];
        assert Visible(ab, inTag) == [c] + Visible(ab[1..], false);
        assert Visible(a, inTag) == [c] + Visible(a[1..], false);
      } else {
        assert Visible(ab, inTag) == Visible(ab[1..], next);
        assert Visible(a, inTag) == Visible(a[1..], next);
      }
    } else {
      assert a + b == b;
    }
  }

  /** Inside a tag nothing is kept until the first `>`. */
  lemma {:induction false} InsideTag(t: Bytes)
    requires '>' !in t
    ensures Visible(t, true) == [] && InTagAfter(t, true)
    decreases |t|
  {
    if |t| > 0 {
      InsideTag(t[1..]);
    }
  }

  /** A closed tag `<...>` disappears together with its brackets, whatever
      state the preceding text leaves the scan in. */
  lemma VisibleDropsTag(x: Bytes, t: Bytes, y: Bytes)
    requires '>' !in t
    ensures Visible(x + ['<'] + t + ['>'] + y, false) == Visible(x, false) + Visible(y, false)
  {
    var rest := t + ['>'] + y;
    assert x + ['<'] + t + ['>'] + y == x + (['<'] + rest);
    VisibleConcat(x, ['<'] + rest, false);
    assert (['<'] + rest)[1..] == rest;
    VisibleConcat(t, ['>'] + y, true);
    assert rest == t + (['>'] + y);
    InsideTag(t);
    assert (['>'] + y)[1..] == y;
  }

  /** An unclosed `<` drops the rest of the input. */
  lemma VisibleDropsUnclosed(x: Bytes, t: Bytes)
    requires '>' !in t
    ensures Visible(x + ['<'] + t, false) == Visible(x, false)
  {
    assert x + ['<'] + t == x + (['<'] + t);
    VisibleConcat(x, ['<'] + t, false);
    assert (['<'] + t)[1..] == t;
    InsideTag(t);
  }

  // ---------------------------------------------------------------------------
  // ParseFile and WriteOutput
  // ---------------------------------------------------------------------------

  /** ParseFile after the file has been read into `html`: the title must
      parse; the url and the content always do (content starts empty). */
  function ParseFile(html: Bytes, filePath: Bytes): (r: Option<DocInfo>)
    requires |filePath| >= |InputPath|
    ensures r.Some? <==> ParseTitle(html).Some?
    ensures r.Some? ==> |r.value.title| > 0
    ensures r.Some? ==> '<' !in r.value.content && '\n' !in r.value.content
    ensures r.Some? ==> UrlHead <= r.value.url
    ensures r.Some? ==>
      r.value == DocInfo(ParseTitle(html).value, ParseUrl(filePath), Visible(html, false))
  {
    match ParseTitle(html)
    case None => None
    case Some(title) => Some(DocInfo(title, ParseUrl(filePath), Visible(html, false)))
  }

  /** WriteOutput as a line formatter: the three fields joined by `\3`, then a
      newline. */
  function WriteOutput(doc: DocInfo): (line: Bytes)
    ensures |line| == |doc.title| + |doc.url| + |doc.content| + 3
    ensures line[|line| - 1] == '\n'
    ensures line[..|line| - 1] == Join([doc.title, doc.url, doc.content], FieldSep)
  {
    JoinThree(doc.title, doc.url, doc.content, FieldSep);
    doc.title + [FieldSep] + doc.url + [FieldSep] + doc.content + ['\n']
  }

  /** When no field contains `\3`, splitting the written line (without its
      newline) on `\3` gives back exactly the three fields. */
  lemma WriteOutputSplits(doc: DocInfo)
    requires FieldSep !in doc.title && FieldSep !in doc.url && FieldSep !in doc.content
    ensures var line := WriteOutput(doc);
      Split(line[..|line| - 1], FieldSep) == [doc.title, doc.url, doc.content]
  {
    SplitJoin([doc.title, doc.url, doc.content], FieldSep);
  }
}
