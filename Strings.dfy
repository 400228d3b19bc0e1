/** The few Python string operations the analysis pipeline relies on:
    `str.strip()`, `str.lower()`, `str.replace(c, '')`, `str.split(c)` and
    `c.join(...)`, over ASCII. */
module Strings {

  /** The whitespace `strip()` removes, restricted to ASCII: tab, line
      feed, vertical tab, form feed, carriage return, the four separators
      `\x1c`-`\x1f`, and space. */
  predicate IsSpace(c: char) {
    '\t' <= c <= '\r' || '\U{1C}' <= c <= '\U{1F}' || c == ' '
  }

  predicate IsUpper(c: char) {
    'A' <= c <= 'Z'
  }

  /** Number of occurrences of `c` in `s` (`s.count(c)`). */
  function CountChar(s: string, c: char): (n: nat)
    ensures n <= |s|
    ensures n == 0 <==> c !in s
  {
    if s == [] then 0 else (if s[0] == c then 1 else 0) + CountChar(s[1..], c)
  }

  /** Where the text of `s` starts once the whitespace from index `i` on is
      skipped. */
  function SkipSpaces(s: string, i: nat): (n: nat)
    requires i <= |s|
    ensures i <= n <= |s|
    decreases |s| - i
  {
    if i < |s| && IsSpace(s[i]) then SkipSpaces(s, i + 1) else i
  }

  /** Only whitespace is skipped, and the text starts with no whitespace. */
  lemma {:induction false} SkipSpacesSkipsSpaces(s: string, i: nat)
    requires i <= |s|
    ensures forall k :: i <= k < SkipSpaces(s, i) ==> IsSpace(s[k])
    ensures SkipSpaces(s, i) < |s| ==> !IsSpace(s[SkipSpaces(s, i)])
    decreases |s| - i
  {
    if i < |s| && IsSpace(s[i]) {
      SkipSpacesSkipsSpaces(s, i + 1);
    }
  }

  /** Where the text of `s[lo..j]` ends once trailing whitespace is cut,
      never before `lo`. */
  function CutSpaces(s: string, lo: nat, j: nat): (m: nat)
    requires lo <= j <= |s|
    ensures lo <= m <= j
    decreases j
  {
    if lo < j && IsSpace(s[j - 1]) then CutSpaces(s, lo, j - 1) else j
  }

  /** Only whitespace is cut, and the text ends with no whitespace. */
  lemma {:induction false} CutSpacesCutsSpaces(s: string, lo: nat, j: nat)
    requires lo <= j <= |s|
    ensures forall k :: CutSpaces(s, lo, j) <= k < j ==> IsSpace(s[k])
    ensures lo < CutSpaces(s, lo, j) ==> !IsSpace(s[CutSpaces(s, lo, j) - 1])
    decreases j
  {
    if lo < j && IsSpace(s[j - 1]) {
      CutSpacesCutsSpaces(s, lo, j - 1);
    }
  }

  /** `s.strip()`: whitespace cut from both ends, none left at either end. */
  function Strip(s: string): (r: string)
    ensures |r| <= |s|
    ensures r == [] || (!IsSpace(r[0]) && !IsSpace(r[|r| - 1]))
  {
    var start := SkipSpaces(s, 0);
    var end := CutSpaces(s, start, |s|);
    SkipSpacesSkipsSpaces(s, 0);
    CutSpacesCutsSpaces(s, start, |s|);
    assert start < end ==> s[start..end][0] == s[start] && s[start..end][end - start - 1] == s[end - 1];
    s[start..end]
  }

  /** What `strip()` keeps is a slice of `s`: `s[start..start + |Strip(s)|]`,
      with only whitespace before and after it. */
  lemma StripSlice(s: string) returns (start: nat)
    ensures start + |Strip(s)| <= |s|
    ensures Strip(s) == s[start..start + |Strip(s)|]
    ensures forall k :: 0 <= k < start ==> IsSpace(s[k])
    ensures forall k :: start + |Strip(s)| <= k < |s| ==> IsSpace(s[k])
  {
    start := SkipSpaces(s, 0);
    SkipSpacesSkipsSpaces(s, 0);
    CutSpacesCutsSpaces(s, start, |s|);
  }

  /** A row is blank, `not row.strip()`, exactly when it is all whitespace. */
  lemma StripEmptyIff(s: string)
    ensures Strip(s) == [] <==> forall k :: 0 <= k < |s| ==> IsSpace(s[k])
  {
    var start := StripSlice(s);
    if Strip(s) != [] {
      assert !IsSpace(s[start]);
    }
  }

  /** `strip()` adds no character: what `s` lacks, `Strip(s)` lacks. */
  lemma StripChars(s: string, c: char)
    ensures c !in s ==> c !in Strip(s)
  {
    var start := StripSlice(s);
    var r := Strip(s);
    if c in r {
      var k :| 0 <= k < |r| && r[k] == c;
      assert s[start + k] == c;
    }
  }

  /** The character `lower()` maps `c` to, over ASCII. */
  function LowerChar(c: char): char {
    if IsUpper(c) then (c as int - 'A' as int + 'a' as int) as char else c
  }

  /** `s.lower()`: same length, no upper-case letter left. */
  function Lower(s: string): (r: string)
    ensures |r| == |s|
    ensures forall i :: 0 <= i < |r| ==> !IsUpper(r[i])
  {
    seq(|s|, i requires 0 <= i < |s| => LowerChar(s[i]))
  }

  /** `s.replace(c, '')`: every `c` deleted, all other characters kept. */
  function RemoveChar(s: string, c: char): (r: string)
    ensures c !in r
    ensures |r| == |s| - CountChar(s, c)
  {
    if s == [] then []
    else (if s[0] == c then [] else [s[0]]) + RemoveChar(s[1..], c)
  }

  /** Every character other than `c` survives `s.replace(c, '')`, and none is added. */
  lemma {:induction false} RemoveCharKeeps(s: string, c: char, x: char)
    requires x != c
    ensures x in RemoveChar(s, c) <==> x in s
  {
    if s != [] {
      RemoveCharKeeps(s[1..], c, x);
      assert s == [s[0]] + s[1..];
    }
  }

  /** `replace(c, '')` works piece by piece: on a concatenation it is the
      concatenation of the results, so with the one-character cases it
      keeps every other character in its place and order. */
  lemma {:induction false} RemoveCharAppend(a: string, b: string, c: char)
    ensures RemoveChar(a + b, c) == RemoveChar(a, c) + RemoveChar(b, c)
  {
    if a != [] {
      assert (a + b)[0] == a[0];
      assert (a + b)[1..] == a[1..] + b;
      RemoveCharAppend(a[1..], b, c);
    } else {
      assert a + b == b;
    }
  }

  /** A single character other than `c` survives `replace(c, '')`; `c` itself goes. */
  lemma RemoveCharSingle(x: char, c: char)
    ensures RemoveChar([x], c) == if x == c then [] else [x]
  {
    assert [x][1..] == [];
  }

  /** Lower-casing changes only upper-case letters, into letters. */
  lemma LowerKeeps(s: string, i: nat)
    requires i < |s|
    ensures !IsUpper(s[i]) ==> Lower(s)[i] == s[i]
    ensures IsUpper(s[i]) ==> 'a' <= Lower(s)[i] <= 'z'
    ensures IsUpper(s[i]) ==> Lower(s)[i] as int - 'a' as int == s[i] as int - 'A' as int
  {
  }

  /** `s.split(sep)` with an explicit one-character separator: every
      occurrence of `sep` ends a piece, so there is always one more piece
      than separators, and empty pieces are kept. */
  function Split(s: string, sep: char): (r: seq<string>)
    ensures |r| == CountChar(s, sep) + 1
    ensures forall i :: 0 <= i < |r| ==> sep !in r[i]
  {
    if s == [] then [[]]
    else
      var rest := Split(s[1..], sep);
      if s[0] == sep then [[]] + rest
      else [[s[0]] + rest[0]] + rest[1..]
  }

  /** `sep.join(pieces)`. */
  function Join(pieces: seq<string>, sep: char): string {
    if |pieces| == 0 then []
    else if |pieces| == 1 then pieces[0]
    else pieces[0] + [sep] + Join(pieces[1..], sep)
  }

  /** Joining the pieces of a split with the same separator gives back the string. */
  lemma {:induction false} JoinSplit(s: string, sep: char)
    ensures Join(Split(s, sep), sep) == s
  {
    if s != [] {
      var rest := Split(s[1..], sep);
      JoinSplit(s[1..], sep);
      if s[0] == sep {
        JoinCons([], rest, sep);
      } else {
        JoinExtendFirst(s[0], rest, sep);
      }
      assert s == [s[0]] + s[1..];
    }
  }

  /** Joining a piece in front of a non-empty list puts a separator between. */
  lemma JoinCons(p: string, rest: seq<string>, sep: char)
    requires |rest| >= 1
    ensures Join([p] + rest, sep) == p + [sep] + Join(rest, sep)
  {
    assert ([p] + rest)[1..] == rest;
  }

  /** Growing the first piece by one character grows the join by that character. */
  lemma JoinExtendFirst(c: char, pieces: seq<string>, sep: char)
    requires |pieces| >= 1
    ensures Join([[c] + pieces[0]] + pieces[1..], sep) == [c] + Join(pieces, sep)
  {
    var grown := [[c] + pieces[0]] + pieces[1..];
    if |pieces| > 1 {
      assert grown[1..] == pieces[1..];
    }
  }

  /** A piece free of the separator splits to itself. */
  lemma {:induction false} SplitWithoutSeparator(p: string, sep: char)
    requires sep !in p
    ensures Split(p, sep) == [p]
  {
    if p != [] {
      SplitWithoutSeparator(p[1..], sep);
      assert [p[0]] + p[1..] == p;
    }
  }

  /** Splitting `p + [sep] + t` cuts at the first separator when `p` has none. */
  lemma {:induction false} SplitAfterPiece(p: string, sep: char, t: string)
    requires sep !in p
    ensures Split(p + [sep] + t, sep) == [p] + Split(t, sep)
  {
    var s := p + [sep] + t;
    if p == [] {
      assert s == [sep] + t;
      assert s[1..] == t;
    } else {
      assert s[1..] == p[1..] + [sep] + t;
      SplitAfterPiece(p[1..], sep, t);
      assert [p[0]] + p[1..] == p;
    }
  }

  /** Splitting a join gives back the pieces, when no piece holds the separator
      (the other direction of the round trip). */
  lemma {:induction false} SplitJoin(pieces: seq<string>, sep: char)
    requires |pieces| >= 1
    requires forall i :: 0 <= i < |pieces| ==> sep !in pieces[i]
    ensures Split(Join(pieces, sep), sep) == pieces
  {
    if |pieces| == 1 {
      SplitWithoutSeparator(pieces[0], sep);
    } else {
      SplitJoin(pieces[1..], sep);
      SplitAfterPiece(pieces[0], sep, Join(pieces[1..], sep));
      assert [pieces[0]] + pieces[1..] == pieces;
    }
  }

  /** Lower-casing keeps every character's whitespace-ness. */
  lemma LowerSpace(s: string, k: nat)
    requires k < |s|
    ensures IsSpace(Lower(s)[k]) <==> IsSpace(s[k])
  {
    LowerKeeps(s, k);
  }

  lemma {:induction false} SkipSpacesLower(s: string, i: nat)
    requires i <= |s|
    ensures SkipSpaces(Lower(s), i) == SkipSpaces(s, i)
    decreases |s| - i
  {
    if i < |s| {
      LowerSpace(s, i);
      SkipSpacesLower(s, i + 1);
    }
  }

  lemma {:induction false} CutSpacesLower(s: string, lo: nat, j: nat)
    requires lo <= j <= |s|
    ensures CutSpaces(Lower(s), lo, j) == CutSpaces(s, lo, j)
    decreases j
  {
    if lo < j {
      LowerSpace(s, j - 1);
      CutSpacesLower(s, lo, j - 1);
    }
  }

  /** `s.lower().strip()` is the same string as `s.strip().lower()`. */
  lemma StripLower(s: string)
    ensures Strip(Lower(s)) == Lower(Strip(s))
  {
    var t := Lower(s);
    SkipSpacesLower(s, 0);
    var start := SkipSpaces(s, 0);
    CutSpacesLower(s, start, |s|);
    var end := CutSpaces(s, start, |s|);
    assert Strip(t) == t[start..end];
    assert Strip(s) == s[start..end];
    LowerSlice(s, start, end);
  }

  /** Lower-casing a slice is slicing the lower-cased string. */
  lemma LowerSlice(s: string, a: nat, b: nat)
    requires a <= b <= |s|
    ensures Lower(s)[a..b] == Lower(s[a..b])
  {
    forall k | 0 <= k < b - a ensures Lower(s)[a..b][k] == Lower(s[a..b])[k] {
      assert s[a..b][k] == s[a + k];
    }
  }

  /** Deleting a character that does not occur changes nothing. */
  lemma {:induction false} RemoveAbsent(s: string, c: char)
    requires c !in s
    ensures RemoveChar(s, c) == s
  {
    if s != [] {
      RemoveAbsent(s[1..], c);
      assert [s[0]] + s[1..] == s;
    }
  }
  /** A string with no whitespace at either end is its own strip. */
  lemma StripUntrimmed(s: string)
    requires s == [] || (!IsSpace(s[0]) && !IsSpace(s[|s| - 1]))
    ensures Strip(s) == s
  {
    if s != [] {
      assert SkipSpaces(s, 0) == 0;
      assert CutSpaces(s, 0, |s|) == |s|;
    }
  }

  /** Stripping twice is stripping once. */
  lemma StripIdempotent(s: string)
    ensures Strip(Strip(s)) == Strip(s)
  {
    StripUntrimmed(Strip(s));
  }
}
