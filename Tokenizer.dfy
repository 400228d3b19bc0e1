/** `filter_content`: the visible text of a page as a flat list of words. */
module Tokenizer {
  import opened Strings
  import opened Page
  import opened Visibility

  /** What every word of the list satisfies: no space (it came out of a
      split on spaces), no `,` or `.`, no upper-case letter. */
  predicate WellFormedWord(w: string) {
    ' ' !in w && ',' !in w && '.' !in w && forall i :: 0 <= i < |w| ==> !IsUpper(w[i])
  }

  /** `w.strip().replace(',', '').replace('.', '').lower()`. */
  function Normalize(piece: string): (w: string)
    ensures ',' !in w && '.' !in w
    ensures forall i :: 0 <= i < |w| ==> !IsUpper(w[i])
    ensures ' ' !in piece ==> ' ' !in w
  {
    var stripped := Strip(piece);
    var noCommas := RemoveChar(stripped, ',');
    var cleaned := RemoveChar(noCommas, '.');
    StripChars(piece, ' ');
    RemoveCharKeeps(stripped, ',', ' ');
    RemoveCharKeeps(noCommas, '.', ' ');
    RemoveCharKeeps(noCommas, '.', ',');
    var w := Lower(cleaned);
    assert forall i :: 0 <= i < |w| ==> w[i] != ',' && w[i] != '.' && (w[i] == ' ' ==> cleaned[i] == ' ') by {
      forall i | 0 <= i < |w| ensures w[i] != ',' && w[i] != '.' && (w[i] == ' ' ==> cleaned[i] == ' ') {
        LowerKeeps(cleaned, i);
      }
    }
    w
  }

  /** The words of one text row, in order. */
  function Normalized(pieces: seq<string>): (ws: seq<string>)
    ensures |ws| == |pieces|
  {
    seq(|pieces|, i requires 0 <= i < |pieces| => Normalize(pieces[i]))
  }

  /** The words one row adds (web_report.py lines 80-83): nothing for a
      row that is blank once stripped, otherwise one word per piece of the
      stripped row split on single spaces. */
  function RowWords(row: string): (ws: seq<string>)
    ensures Strip(row) == [] ==> ws == []
    ensures Strip(row) != [] ==> |ws| == CountChar(Strip(row), ' ') + 1
  {
    if Strip(row) == [] then []
    else Normalized(Split(Strip(row), ' '))
  }

  /** `filter(content_filter, page_text)`: the texts of the nodes `keep`
      accepts, in document order. */
  function VisibleRows(nodes: seq<TextNode>, keep: TextNode -> bool): (rows: seq<string>)
    ensures |rows| <= |nodes|
  {
    if nodes == [] then []
    else
      var last := nodes[|nodes| - 1];
      VisibleRows(nodes[..|nodes| - 1], keep) + (if keep(last) then [last.text] else [])
  }

  /** How many words a row adds: none for a blank row, otherwise one more
      than the spaces in the stripped row. */
  function RowWordCount(row: string): nat {
    if Strip(row) == [] then 0 else CountChar(Strip(row), ' ') + 1
  }

  function TotalWordCount(rows: seq<string>): nat {
    if rows == [] then 0 else TotalWordCount(rows[..|rows| - 1]) + RowWordCount(rows[|rows| - 1])
  }

  /** The word list built from `rows`: each row's words after those of the
      rows before it, as many as the rows' word counts add up to. */
  function Tokenize(rows: seq<string>): (ws: seq<string>)
    ensures |ws| == TotalWordCount(rows)
  {
    if rows == [] then []
    else Tokenize(rows[..|rows| - 1]) + RowWords(rows[|rows| - 1])
  }

  /** `filter_content(soup, content_filter)` over the page's text nodes. */
  method FilterContent(nodes: seq<TextNode>, keep: TextNode -> bool) returns (wordList: seq<string>)
    ensures wordList == Tokenize(VisibleRows(nodes, keep))
  {
    var visibleText := VisibleRows(nodes, keep);
    wordList := [];
    for i := 0 to |visibleText|
      invariant wordList == Tokenize(visibleText[..i])
    {
      var row := visibleText[i];
      assert visibleText[..i + 1][..i] == visibleText[..i];
      if Strip(row) != [] {
        var words := Split(Strip(row), ' ');
        wordList := wordList + Normalized(words);
      }
    }
    assert visibleText[..|visibleText|] == visibleText;
  }

  /** The rows of two runs of nodes are the rows of each, in order. */
  lemma {:induction false} VisibleRowsAppend(a: seq<TextNode>, b: seq<TextNode>, keep: TextNode -> bool)
    ensures VisibleRows(a + b, keep) == VisibleRows(a, keep) + VisibleRows(b, keep)
    decreases |b|
  {
    if b != [] {
      var b' := b[..|b| - 1];
      assert (a + b)[..|a + b| - 1] == a + b';
      VisibleRowsAppend(a, b', keep);
    } else {
      assert a + b == a;
    }
  }

  /** The words of two runs of rows are the words of each, in order. */
  lemma {:induction false} TokenizeAppend(a: seq<string>, b: seq<string>)
    ensures Tokenize(a + b) == Tokenize(a) + Tokenize(b)
    decreases |b|
  {
    if b != [] {
      var b' := b[..|b| - 1];
      var last := b[|b| - 1];
      assert (a + b)[..|a + b| - 1] == a + b';
      assert (a + b)[|a + b| - 1] == last;
      assert Tokenize(a + b) == Tokenize(a + b') + RowWords(last);
      assert Tokenize(b) == Tokenize(b') + RowWords(last);
      TokenizeAppend(a, b');
    } else {
      assert a + b == a;
    }
  }

  /** A node `keep` rejects (with `IsVisible`: text under `script`, `style`,
      ..., or a comment) adds no words, wherever it stands. */
  lemma RejectedNodeAddsNothing(a: seq<TextNode>, node: TextNode, b: seq<TextNode>, keep: TextNode -> bool)
    requires !keep(node)
    ensures Tokenize(VisibleRows(a + [node] + b, keep)) == Tokenize(VisibleRows(a + b, keep))
  {
    VisibleRowsAppend(a + [node], b, keep);
    VisibleRowsAppend(a, [node], keep);
    VisibleRowsAppend(a, b, keep);
    assert [node][..0] == [];
    assert VisibleRows([node], keep) == [];
    assert VisibleRows(a + [node], keep) == VisibleRows(a, keep);
  }

  /** Every word of `ws` is well formed. */
  predicate AllWellFormed(ws: seq<string>) {
    forall i :: 0 <= i < |ws| ==> WellFormedWord(ws[i])
  }

  lemma AllWellFormedConcat(a: seq<string>, b: seq<string>)
    requires AllWellFormed(a) && AllWellFormed(b)
    ensures AllWellFormed(a + b)
  {
    forall i | 0 <= i < |a + b| ensures WellFormedWord((a + b)[i]) {
      if i < |a| {
        assert (a + b)[i] == a[i];
      } else {
        assert (a + b)[i] == b[i - |a|];
      }
    }
  }

  /** Every word of a row is well formed. */
  lemma RowWordsWellFormed(row: string)
    ensures AllWellFormed(RowWords(row))
  {
    if Strip(row) != [] {
      var pieces := Split(Strip(row), ' ');
      forall i | 0 <= i < |pieces| ensures WellFormedWord(Normalize(pieces[i])) {
        assert ' ' !in pieces[i];
      }
    }
  }

  /** Every word `filter_content` emits is well formed. */
  lemma {:induction false} TokenizeWellFormed(rows: seq<string>)
    ensures AllWellFormed(Tokenize(rows))
  {
    if rows != [] {
      var prefix := rows[..|rows| - 1];
      var last := rows[|rows| - 1];
      TokenizeWellFormed(prefix);
      RowWordsWellFormed(last);
      AllWellFormedConcat(Tokenize(prefix), RowWords(last));
    }
  }

  /** A piece without `,` or `.` normalizes to a word with no whitespace
      at either end. */
  lemma NormalizeTrimmed(piece: string)
    requires ',' !in piece && '.' !in piece
    ensures var w := Normalize(piece); w == [] || (!IsSpace(w[0]) && !IsSpace(w[|w| - 1]))
  {
    var s := Strip(piece);
    StripChars(piece, ',');
    StripChars(piece, '.');
    RemoveAbsent(s, ',');
    RemoveAbsent(s, '.');
    assert Normalize(piece) == Lower(s);
    LowerTrimmed(s);
  }

  /** Lower-casing keeps a string free of whitespace at its ends. */
  lemma LowerTrimmed(s: string)
    requires s == [] || (!IsSpace(s[0]) && !IsSpace(s[|s| - 1]))
    ensures var w := Lower(s); w == [] || (!IsSpace(w[0]) && !IsSpace(w[|w| - 1]))
  {
    if s != [] {
      LowerKeeps(s, 0);
      LowerKeeps(s, |s| - 1);
    }
  }

  /** Without that condition the word can keep whitespace: stripping
      happens before the `,` is removed, so `",\tb"` becomes `"\tb"`. */
  lemma NormalizeKeepsInnerWhitespace()
    ensures Normalize(",\tb") == "\tb"
  {
    var p := ",\tb";
    StripUntrimmed(p);
    assert RemoveChar(p[2..], ',') == "b";
    assert RemoveChar(p[1..], ',') == "\tb";
    assert RemoveChar(p, ',') == "\tb";
    RemoveAbsent("\tb", '.');
    assert Lower("\tb") == "\tb";
  }

  /** A lone `,` piece becomes an empty word, which is kept. */
  lemma NormalizeLoneComma()
    ensures Normalize(",") == ""
  {
    StripUntrimmed(",");
    assert RemoveChar(",", ',') == "";
    assert RemoveChar("", '.') == "";
    assert Lower("") == "";
  }

  /** Text directly under an ignored tag adds no words to the page's list. */
  lemma IgnoredTextAddsNothing(a: seq<TextNode>, node: TextNode, b: seq<TextNode>)
    requires node.parent in Ignored
    ensures Tokenize(VisibleRows(a + [node] + b, IsVisible)) == Tokenize(VisibleRows(a + b, IsVisible))
  {
    RejectedNodeAddsNothing(a, node, b, IsVisible);
  }

  /** A comment-shaped text node adds no words to the page's list. */
  lemma CommentAddsNothing(a: seq<TextNode>, node: TextNode, b: seq<TextNode>)
    requires |node.text| >= 4 && node.text[..4] == "<!--"
    requires exists k :: 4 <= k <= |node.text| && CloseAt(node.text, k) && NoNewline(node.text, 4, k)
    ensures Tokenize(VisibleRows(a + [node] + b, IsVisible)) == Tokenize(VisibleRows(a + b, IsVisible))
  {
    CloseFollowsIff(node.text, 4);
    RejectedNodeAddsNothing(a, node, b, IsVisible);
  }
}
