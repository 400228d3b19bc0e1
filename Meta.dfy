/** `get_meta` and the check of declared keywords against the page's words
    (web_report.py lines 25-51 and 200-202). */
module Meta {
  import opened Strings
  import opened Page

  /** `meta_tag.get('content', '')`. */
  function ContentOrEmpty(tag: MetaTag): (content: string)
    ensures tag.content.None? ==> content == ""
    ensures tag.content.Some? ==> content == tag.content.value
  {
    if tag.content.Some? then tag.content.value else ""
  }

  /** The keywords one tag declares: the comma-separated pieces of its
      content when its name is exactly `keywords`, untrimmed; none otherwise. */
  function TagKeywords(tag: MetaTag): (ks: seq<string>)
    ensures tag.name != Some("keywords") ==> ks == []
    ensures tag.name == Some("keywords") ==> |ks| == CountChar(ContentOrEmpty(tag), ',') + 1
    ensures forall i :: 0 <= i < |ks| ==> ',' !in ks[i]
  {
    if tag.name == Some("keywords") then Split(ContentOrEmpty(tag), ',') else []
  }

  /** How many keywords a run of tags declares: one more than the commas
      of each keywords tag's content. */
  function KeywordCount(tags: seq<MetaTag>): nat {
    if tags == [] then 0
    else
      var tag := tags[|tags| - 1];
      KeywordCount(tags[..|tags| - 1]) +
        (if tag.name == Some("keywords") then CountChar(ContentOrEmpty(tag), ',') + 1 else 0)
  }

  /** The keyword list of a run of tags: each tag's keywords after those of
      the tags before it; one more than the commas for each keywords tag. */
  function Keywords(tags: seq<MetaTag>): (ks: seq<string>)
    ensures |ks| == KeywordCount(tags)
  {
    if tags == [] then []
    else Keywords(tags[..|tags| - 1]) + TagKeywords(tags[|tags| - 1])
  }

  /** `get_meta(soup)` over the page's `<meta>` tags, in document order. */
  method GetMeta(metaTags: seq<MetaTag>) returns (allTags: seq<MetaTag>, keywords: seq<string>)
    ensures allTags == metaTags
    ensures keywords == Keywords(metaTags)
  {
    allTags := [];
    keywords := [];
    for i := 0 to |metaTags|
      invariant allTags == metaTags[..i]
      invariant keywords == Keywords(metaTags[..i])
    {
      var metaTag := metaTags[i];
      assert metaTags[..i + 1][..i] == metaTags[..i];
      allTags := allTags + [metaTag];
      if metaTag.name == Some("keywords") {
        keywords := keywords + Split(ContentOrEmpty(metaTag), ',');
      }
    }
    assert metaTags[..|metaTags|] == metaTags;
  }

  /** The keywords of two runs of tags are the keywords of each, in order. */
  lemma {:induction false} KeywordsAppend(a: seq<MetaTag>, b: seq<MetaTag>)
    ensures Keywords(a + b) == Keywords(a) + Keywords(b)
    decreases |b|
  {
    if b != [] {
      var b' := b[..|b| - 1];
      assert (a + b)[..|a + b| - 1] == a + b';
      KeywordsAppend(a, b');
    } else {
      assert a + b == a;
    }
  }

  /** A keywords tag without a content attribute declares one empty keyword. */
  lemma MissingContentIsOneEmptyKeyword(tag: MetaTag)
    requires tag.name == Some("keywords") && tag.content.None?
    ensures TagKeywords(tag) == [""]
  {
  }

  /** Joining a keywords tag's pieces with `,` gives back its content. */
  lemma TagKeywordsJoin(tag: MetaTag)
    requires tag.name == Some("keywords")
    ensures Join(TagKeywords(tag), ',') == ContentOrEmpty(tag)
  {
    JoinSplit(ContentOrEmpty(tag), ',');
  }

  /** Conversely, any list of comma-free pieces is what a keywords tag
      with their join as content declares. */
  lemma TagKeywordsOfJoin(pieces: seq<string>)
    requires |pieces| >= 1
    requires forall i :: 0 <= i < |pieces| ==> ',' !in pieces[i]
    ensures TagKeywords(MetaTag(Some("keywords"), Some(Join(pieces, ',')))) == pieces
  {
    SplitJoin(pieces, ',');
  }

  /** Whether a declared keyword counts as present: `keyword.lower().strip()`
      is one of the words. */
  predicate InContent(keyword: string, wordList: seq<string>) {
    Strip(Lower(keyword)) in wordList
  }

  /** The keywords reported as not in content, in keyword order, each shown
      stripped, duplicates kept: never more than there are keywords. */
  function NotInContent(keywords: seq<string>, wordList: seq<string>): (missing: seq<string>)
    ensures |missing| <= |keywords|
  {
    if keywords == [] then []
    else
      var k := keywords[|keywords| - 1];
      NotInContent(keywords[..|keywords| - 1], wordList) + (if !InContent(k, wordList) then [Strip(k)] else [])
  }

  /** The loop at web_report.py lines 200-202, collecting what it prints. */
  method KeywordsNotInContent(keywords: seq<string>, wordList: seq<string>) returns (missing: seq<string>)
    ensures missing == NotInContent(keywords, wordList)
  {
    missing := [];
    for i := 0 to |keywords|
      invariant missing == NotInContent(keywords[..i], wordList)
    {
      var keyword := keywords[i];
      assert keywords[..i + 1][..i] == keywords[..i];
      if Strip(Lower(keyword)) !in wordList {
        missing := missing + [Strip(keyword)];
      }
    }
    assert keywords[..|keywords|] == keywords;
  }

  /** The report on two runs of keywords is the report on each, in order. */
  lemma {:induction false} NotInContentAppend(a: seq<string>, b: seq<string>, wordList: seq<string>)
    ensures NotInContent(a + b, wordList) == NotInContent(a, wordList) + NotInContent(b, wordList)
    decreases |b|
  {
    if b != [] {
      var b' := b[..|b| - 1];
      assert (a + b)[..|a + b| - 1] == a + b';
      NotInContentAppend(a, b', wordList);
    } else {
      assert a + b == a;
    }
  }

  /** `keyword` is reported, shown as `x`. */
  predicate ReportedAs(keyword: string, x: string, wordList: seq<string>) {
    Strip(keyword) == x && Lower(x) !in wordList
  }

  /** The last keyword adds `x` to the report exactly when it is reported as `x`. */
  lemma LastKeywordIff(k: string, wordList: seq<string>, x: string)
    ensures x in (if !InContent(k, wordList) then [Strip(k)] else []) <==> ReportedAs(k, x, wordList)
  {
    var shown := Strip(k);
    StripLower(k);
    assert InContent(k, wordList) <==> Lower(shown) in wordList;
    if InContent(k, wordList) {
      assert !ReportedAs(k, x, wordList);
    } else {
      assert x in [shown] <==> x == shown;
    }
  }

  /** Some keyword of `keywords` is reported as `x`. */
  predicate SomeReportedAs(keywords: seq<string>, x: string, wordList: seq<string>) {
    exists k :: k in keywords && ReportedAs(k, x, wordList)
  }

  /** A non-empty keyword list reports `x` through its earlier keywords
      or through its last one. */
  lemma SomeReportedAsLast(keywords: seq<string>, x: string, wordList: seq<string>)
    requires keywords != []
    ensures SomeReportedAs(keywords, x, wordList) <==>
      SomeReportedAs(keywords[..|keywords| - 1], x, wordList) || ReportedAs(keywords[|keywords| - 1], x, wordList)
  {
    var prefix := keywords[..|keywords| - 1];
    var last := keywords[|keywords| - 1];
    if SomeReportedAs(keywords, x, wordList) {
      var k :| k in keywords && ReportedAs(k, x, wordList);
      var i :| 0 <= i < |keywords| && keywords[i] == k;
      if i < |prefix| {
        assert prefix[i] == k;
      }
    }
    if SomeReportedAs(prefix, x, wordList) {
      var k :| k in prefix && ReportedAs(k, x, wordList);
      var i :| 0 <= i < |prefix| && prefix[i] == k;
      assert keywords[i] == k;
    }
  }

  /** A string is reported exactly when some keyword strips to it and its
      lower-case form is not among the words. */
  lemma {:induction false} NotInContentIff(keywords: seq<string>, wordList: seq<string>, x: string)
    ensures x in NotInContent(keywords, wordList) <==> SomeReportedAs(keywords, x, wordList)
  {
    if keywords != [] {
      var prefix := keywords[..|keywords| - 1];
      var last := keywords[|keywords| - 1];
      NotInContentIff(prefix, wordList, x);
      LastKeywordIff(last, wordList, x);
      SomeReportedAsLast(keywords, x, wordList);
      var tail := if !InContent(last, wordList) then [Strip(last)] else [];
      assert NotInContent(keywords, wordList) == NotInContent(prefix, wordList) + tail;
    }
  }

  /** Every reported keyword is shown stripped, and its lower-case form is
      not among the words. */
  lemma NotInContentSound(keywords: seq<string>, wordList: seq<string>, x: string)
    requires x in NotInContent(keywords, wordList)
    ensures Strip(x) == x && Lower(x) !in wordList
  {
    NotInContentIff(keywords, wordList, x);
    var k :| k in keywords && ReportedAs(k, x, wordList);
    StripIdempotent(k);
  }
}
