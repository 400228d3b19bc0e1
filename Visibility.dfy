/** `is_visible`: which text nodes count as page content. */
module Visibility {
  import opened Page

  /** Enclosing tags whose text is never shown. */
  const Ignored: seq<string> := ["head", "title", "style", "script", "[document]"]

  /** A `-->` starts at index `k` of `s`. */
  predicate CloseAt(s: string, k: nat) {
    k + 3 <= |s| && s[k..k + 3] == "-->"
  }

  /** No line feed in `s[i..k]`: the span a regular-expression `.` may cover. */
  predicate NoNewline(s: string, i: nat, k: nat)
    requires i <= k <= |s|
  {
    forall m :: i <= m < k ==> s[m] != '\n'
  }

  /** The tail `.*-->` of the comment pattern, matched from index `i`:
      the greedy `.*` backtracks, so the tail matches as soon as some `-->`
      is reachable without crossing a line feed. */
  predicate CloseFollows(s: string, i: nat)
    decreases |s| - i
  {
    CloseAt(s, i) || (i < |s| && s[i] != '\n' && CloseFollows(s, i + 1))
  }

  /** A `-->` can only follow where three characters are left. */
  lemma {:induction false} CloseFollowsRoom(s: string, i: nat)
    requires CloseFollows(s, i)
    ensures i + 3 <= |s|
    decreases |s| - i
  {
    if !CloseAt(s, i) {
      CloseFollowsRoom(s, i + 1);
    }
  }

  /** `re.match('<!--.*-->', text)` succeeds: the pattern is anchored at
      the start of the text and need not reach its end. The closing `-->`
      cannot share characters with the opening `<!--`, so a match is at
      least seven characters long (`<!-->` is not a comment). */
  predicate CommentMatch(text: string)
    ensures CommentMatch(text) ==> |text| >= 7 && text[..4] == "<!--"
  {
    if |text| >= 4 && text[..4] == "<!--" && CloseFollows(text, 4) then
      CloseFollowsRoom(text, 4);
      true
    else
      false
  }

  /** `is_visible(element)`: text under an ignored tag is never visible,
      and text that does not even start with `<!--` is visible under any
      other tag. */
  predicate IsVisible(node: TextNode)
    ensures node.parent in Ignored ==> !IsVisible(node)
    ensures node.parent !in Ignored && !(|node.text| >= 4 && node.text[..4] == "<!--") ==> IsVisible(node)
  {
    if node.parent in Ignored then false
    else if CommentMatch(node.text) then false
    else true
  }

  /** The tail of the pattern matches from `i` exactly when some `-->`
      starts at or after `i` with no line feed before it. */
  lemma {:induction false} CloseFollowsIff(s: string, i: nat)
    requires i <= |s|
    ensures CloseFollows(s, i) <==> exists k :: i <= k <= |s| && CloseAt(s, k) && NoNewline(s, i, k)
    decreases |s| - i
  {
    if CloseAt(s, i) {
      assert NoNewline(s, i, i);
    } else if i < |s| && s[i] != '\n' {
      CloseFollowsIff(s, i + 1);
      if CloseFollows(s, i + 1) {
        var k :| i + 1 <= k <= |s| && CloseAt(s, k) && NoNewline(s, i + 1, k);
        assert NoNewline(s, i, k);
      }
      if exists k :: i <= k <= |s| && CloseAt(s, k) && NoNewline(s, i, k) {
        var k :| i <= k <= |s| && CloseAt(s, k) && NoNewline(s, i, k);
        assert k != i;
        assert NoNewline(s, i + 1, k);
      }
    }
  }

  /** Text whose enclosing tag is `head`, `title`, `style`, `script` or the
      document root is never visible, whatever it says. */
  lemma IgnoredNeverVisible(node: TextNode)
    requires node.parent in {"head", "title", "style", "script", "[document]"}
    ensures !IsVisible(node)
  {
  }

  /** Under any other tag, a node is hidden exactly when its text starts
      with `<!--` and a `-->` follows at index 4 or later with no line feed
      in between. */
  lemma VisibleIff(node: TextNode)
    requires node.parent !in Ignored
    ensures !IsVisible(node) <==>
      && |node.text| >= 4 && node.text[..4] == "<!--"
      && exists k :: 4 <= k <= |node.text| && CloseAt(node.text, k) && NoNewline(node.text, 4, k)
  {
    if |node.text| >= 4 {
      CloseFollowsIff(node.text, 4);
    }
  }
}
