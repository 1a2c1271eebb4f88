/** How the two programs meet: the parser writes one corpus line per page, the
    index builder reads the corpus line by line and splits each on `\3`. */
module Pipeline {
  import opened Text
  import opened Util
  import Parser
  import opened Indexer

  /** A parsed page, written by WriteOutput and read back by getline (which
      drops the newline), becomes the next document of the forward index with
      the page's own title, url and content. The page's content never holds a
      newline, so the line is read back whole as long as the title and url
      hold none either; and no field may hold the separator `\3`. */
  lemma ParsedPageIndexed(idx: Index, html: Bytes, filePath: Bytes)
    requires |filePath| >= |Parser.InputPath|
    requires Parser.ParseFile(html, filePath).Some?
    requires var page := Parser.ParseFile(html, filePath).value;
      FieldSep !in page.title && FieldSep !in page.url && FieldSep !in page.content
    requires var page := Parser.ParseFile(html, filePath).value;
      '\n' !in page.title && '\n' !in page.url
    ensures var page := Parser.ParseFile(html, filePath).value;
      var written := Parser.WriteOutput(page);
      var line := written[..|written| - 1];
      var doc := DocInfo(|idx.forward|, page.title, page.url, page.content);
      && '\n' !in line
      && BuildForward(idx, line) == Appended(idx.(forward := idx.forward + [doc]), doc)
  {
    var page := Parser.ParseFile(html, filePath).value;
    var written := Parser.WriteOutput(page);
    var line := written[..|written| - 1];
    Parser.WriteOutputSplits(page);
    JoinThree(page.title, page.url, page.content, FieldSep);
    assert line == page.title + [FieldSep] + page.url + [FieldSep] + page.content;
    assert Split(line, FieldSep) == [page.title, page.url, page.content];
  }
}
