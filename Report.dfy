/** `run_report` without its printing: the figures the report shows for
    one fetched page (title and hyperlinks are not part of this model). */
module Report {
  import opened Page
  import opened Visibility
  import opened Tokenizer
  import opened Tally
  import opened Ranking
  import opened Meta

  datatype Report = Report(
    pageSize: Option<int>,        // bytes declared by Content-Length; None prints "not found"
    metaTags: seq<MetaTag>,
    totalWords: nat,
    uniqueWords: nat,
    topFive: seq<Entry>,
    notInContent: seq<string>)

  /** web_report.py lines 156-164: the size is printed only when the
      declared `Content-Length` is present and non-zero (the division by
      1024 keeps a non-zero value non-zero); otherwise "not found". */
  function PageSize(contentLength: Option<int>): (size: Option<int>)
    ensures size.None? <==> contentLength.None? || contentLength.value == 0
    ensures size.Some? ==> size == contentLength
  {
    var declared := if contentLength.Some? then contentLength.value else 0;
    if declared != 0 then Some(declared) else None
  }

  /** The word list `run_report` works on. */
  function PageWords(nodes: seq<TextNode>): seq<string> {
    Tokenize(VisibleRows(nodes, IsVisible))
  }

  /** `run_report(response)` over the parsed page: its text nodes, its meta
      tags and the declared content length. */
  method RunReport(nodes: seq<TextNode>, metaTags: seq<MetaTag>, contentLength: Option<int>)
    returns (report: Report)
    ensures report.pageSize == PageSize(contentLength)
    ensures report.metaTags == metaTags
    ensures report.totalWords == |PageWords(nodes)|
    ensures report.totalWords == SumCounts(Tallied(PageWords(nodes)).keys, Tallied(PageWords(nodes)).counts)
    ensures report.uniqueWords == |set w | w in PageWords(nodes)|
    ensures report.topFive == TopFive(Tallied(PageWords(nodes)))
    ensures |report.topFive| == Min(5, report.uniqueWords)
    ensures report.notInContent == NotInContent(Keywords(metaTags), PageWords(nodes))
  {
    var size := PageSize(contentLength);
    var meta, keywords := GetMeta(metaTags);
    var wordList := FilterContent(nodes, IsVisible);
    var wordDict := WordTally(wordList);
    TallySum(wordList);
    UniqueWordCount(wordList);
    var top := TopFive(wordDict);
    var missing := KeywordsNotInContent(keywords, wordList);
    report := Report(size, meta, |wordList|, |wordDict.counts|, top, missing);
  }
}
