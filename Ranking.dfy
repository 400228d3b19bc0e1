/** The five most common words (web_report.py lines 184 and 191):
    `sorted(word_count_list, key=lambda k: k['count'], reverse=True)[:5]`
    over the dictionary's items in insertion order. Python's sort is
    stable, also with `reverse=True`: entries with equal counts keep their
    relative order. */
module Ranking {
  import opened Tally

  /** Counts never increase along `s`. */
  predicate NonIncreasing(s: seq<Entry>) {
    forall i, j :: 0 <= i < j < |s| ==> s[i].count >= s[j].count
  }

  /** Places `x` into the count-ordered `t` after every entry whose count
      is at least its own: an entry inserted later never overtakes an
      equal one. */
  function Insert(x: Entry, t: seq<Entry>): (r: seq<Entry>)
    ensures |r| == |t| + 1
    ensures multiset(r) == multiset(t) + multiset{x}
  {
    if t == [] then [x]
    else if t[0].count < x.count then [x] + t
    else
      assert t == [t[0]] + t[1..];
      [t[0]] + Insert(x, t[1..])
  }

  /** An entry at least as frequent as everything in a count-ordered list
      can go in front of it. */
  lemma ConsNonIncreasing(a: Entry, r: seq<Entry>)
    requires NonIncreasing(r)
    requires forall e :: e in r ==> a.count >= e.count
    ensures NonIncreasing([a] + r)
  {
    var s := [a] + r;
    forall i, j | 0 <= i < j < |s| ensures s[i].count >= s[j].count {
      assert s[j] == r[j - 1];
      if i > 0 {
        assert s[i] == r[i - 1];
      }
    }
  }

  /** What `Insert` returns holds `x` and the entries of `t`, nothing else. */
  lemma InsertMembers(x: Entry, t: seq<Entry>, e: Entry)
    requires e in Insert(x, t)
    ensures e == x || e in t
  {
    assert e in multiset(Insert(x, t));
  }

  /** Inserting into a count-ordered list keeps it count-ordered. */
  lemma {:induction false} InsertNonIncreasing(x: Entry, t: seq<Entry>)
    requires NonIncreasing(t)
    ensures NonIncreasing(Insert(x, t))
  {
    if t == [] {
    } else if t[0].count < x.count {
      ConsNonIncreasing(x, t);
    } else {
      var tail := t[1..];
      var rest := Insert(x, tail);
      InsertNonIncreasing(x, tail);
      forall e | e in rest ensures t[0].count >= e.count {
        InsertMembers(x, tail, e);
        if e != x {
          var k :| 0 <= k < |tail| && tail[k] == e;
          assert t[k + 1] == e;
        }
      }
      ConsNonIncreasing(t[0], rest);
    }
  }

  /** Stable sort by count, largest first. */
  function SortByCount(s: seq<Entry>): (r: seq<Entry>)
    ensures |r| == |s|
    ensures multiset(r) == multiset(s)
    ensures NonIncreasing(r)
  {
    if s == [] then []
    else
      var prefix := s[..|s| - 1];
      assert s == prefix + [s[|s| - 1]];
      InsertNonIncreasing(s[|s| - 1], SortByCount(prefix));
      Insert(s[|s| - 1], SortByCount(prefix))
  }

  /** Sorting adds no entry. */
  lemma SortedMember(s: seq<Entry>, e: Entry)
    requires e in SortByCount(s)
    ensures e in s
  {
    assert e in multiset(SortByCount(s));
  }

  function Min(a: int, b: int): int {
    if a <= b then a else b
  }

  /** The first `n` entries of the sorted list all come from `s`. */
  lemma SortedPrefixMembers(s: seq<Entry>, n: nat)
    requires n <= |s|
    ensures forall i :: 0 <= i < n ==> SortByCount(s)[i] in s
  {
    var sorted := SortByCount(s);
    forall i | 0 <= i < n ensures sorted[i] in s {
      SortedMember(s, sorted[i]);
    }
  }

  /** No entry of `s` outside the first `n` sorted entries is more frequent
      than one of them. */
  lemma SortedPrefixDominates(s: seq<Entry>, n: nat)
    requires n <= |s|
    ensures forall e, i :: e in s && e !in SortByCount(s)[..n] && 0 <= i < n ==>
      SortByCount(s)[i].count >= e.count
  {
    var sorted := SortByCount(s);
    forall e, i | e in s && e !in sorted[..n] && 0 <= i < n ensures sorted[i].count >= e.count {
      assert e in multiset(sorted);
      var j :| 0 <= j < |sorted| && sorted[j] == e;
    }
  }

  /** `sorted(items, key=count, reverse=True)[:5]`: at most five entries of
      `items`, counts non-increasing, and no entry left out has a larger
      count than one taken. */
  function FirstFive(items: seq<Entry>): (r: seq<Entry>)
    ensures |r| == Min(5, |items|)
    ensures NonIncreasing(r)
    ensures forall i :: 0 <= i < |r| ==> r[i] in items
    ensures forall e, i :: e in items && e !in r && 0 <= i < |r| ==> r[i].count >= e.count
  {
    var n := Min(5, |items|);
    SortedPrefixMembers(items, n);
    SortedPrefixDominates(items, n);
    SortByCount(items)[..n]
  }

  /** The report's top-five list for the dictionary `d`: `min(5, len(d))`
      entries, counts non-increasing, each a real `(word, count)` pair of
      `d`, and none of the words left out more frequent than one shown. */
  function TopFive(d: WordDict): (r: seq<Entry>)
    requires d.Valid()
    ensures |r| == Min(5, |d.keys|)
    ensures NonIncreasing(r)
    ensures forall i :: 0 <= i < |r| ==> r[i].word in d.counts && d.counts[r[i].word] == r[i].count
    ensures forall e, i :: e in d.Items() && e !in r && 0 <= i < |r| ==> r[i].count >= e.count
  {
    var items := d.Items();
    var r := FirstFive(items);
    forall i | 0 <= i < |r| ensures r[i].word in d.counts && d.counts[r[i].word] == r[i].count {
      assert r[i] in items;
      var k :| 0 <= k < |items| && items[k] == r[i];
      assert items[k].word == d.keys[k] && items[k].count == d.counts[d.keys[k]];
    }
    r
  }

  /** `s` is ordered by count, largest first, and by `rank` among equal counts. */
  ghost predicate RankedBy(s: seq<Entry>, rank: string -> nat) {
    forall i, j :: 0 <= i < j < |s| ==>
      s[i].count > s[j].count || (s[i].count == s[j].count && rank(s[i].word) < rank(s[j].word))
  }

  /** An entry ranked before everything in a ranked list can go in front of it. */
  lemma ConsRanked(a: Entry, r: seq<Entry>, rank: string -> nat)
    requires RankedBy(r, rank)
    requires forall e :: e in r ==> a.count > e.count || (a.count == e.count && rank(a.word) < rank(e.word))
    ensures RankedBy([a] + r, rank)
  {
    var s := [a] + r;
    forall i, j | 0 <= i < j < |s|
      ensures s[i].count > s[j].count || (s[i].count == s[j].count && rank(s[i].word) < rank(s[j].word))
    {
      assert s[j] == r[j - 1];
      if i > 0 {
        assert s[i] == r[i - 1];
      }
    }
  }

  /** Inserting an entry ranked after everything already there keeps the order. */
  lemma {:induction false} InsertRanked(x: Entry, t: seq<Entry>, rank: string -> nat)
    requires RankedBy(t, rank)
    requires forall e :: e in t ==> rank(e.word) < rank(x.word)
    ensures RankedBy(Insert(x, t), rank)
  {
    if t == [] {
    } else if t[0].count < x.count {
      ConsRanked(x, t, rank);
    } else {
      var tail := t[1..];
      var rest := Insert(x, tail);
      InsertRanked(x, tail, rank);
      forall e | e in rest
        ensures t[0].count > e.count || (t[0].count == e.count && rank(t[0].word) < rank(e.word))
      {
        InsertMembers(x, tail, e);
        if e != x {
          var k :| 0 <= k < |tail| && tail[k] == e;
          assert t[k + 1] == e;
        }
      }
      ConsRanked(t[0], rest, rank);
    }
  }

  /** Sorting entries that arrive in increasing `rank` leaves equal counts in
      increasing `rank`: this is the stability of the sort. */
  lemma {:induction false} SortRanked(s: seq<Entry>, rank: string -> nat)
    requires forall i, j :: 0 <= i < j < |s| ==> rank(s[i].word) < rank(s[j].word)
    ensures RankedBy(SortByCount(s), rank)
  {
    if s != [] {
      var prefix := s[..|s| - 1];
      var x := s[|s| - 1];
      SortRanked(prefix, rank);
      var sorted := SortByCount(prefix);
      forall e | e in sorted ensures rank(e.word) < rank(x.word) {
        assert e in multiset(sorted);
        assert e in prefix;
      }
      InsertRanked(x, sorted, rank);
    }
  }

  /** In a ranked list, an entry outside the first `n` is ranked after each
      of them. */
  lemma RankedPrefixBefore(s: seq<Entry>, n: nat, rank: string -> nat)
    requires RankedBy(s, rank) && n <= |s|
    ensures forall e, i :: e in s && e !in s[..n] && 0 <= i < n ==>
      s[i].count > e.count || (s[i].count == e.count && rank(s[i].word) < rank(e.word))
  {
    forall e, i | e in s && e !in s[..n] && 0 <= i < n
      ensures s[i].count > e.count || (s[i].count == e.count && rank(s[i].word) < rank(e.word))
    {
      var j :| 0 <= j < |s| && s[j] == e;
    }
  }

  /** The top five is the front of the sorted items. */
  lemma TopFiveIsSortedPrefix(d: WordDict)
    requires d.Valid()
    ensures |d.Items()| == |d.keys|
    ensures TopFive(d) == SortByCount(d.Items())[..Min(5, |d.keys|)]
  {
  }

  /** The sorted items of the tally are ordered by count, and by first
      occurrence in the word list among equal counts. */
  lemma SortedTallyRanked(words: seq<string>)
    ensures RankedBy(SortByCount(Tallied(words).Items()), w => FirstIndex(words, w))
  {
    DistinctInFirstOccurrenceOrder(words);
    SortRanked(Tallied(words).Items(), w => FirstIndex(words, w));
  }

  /** Ties in the top five are broken by first occurrence in the word list:
      the dictionary lists words in that order and the sort is stable. */
  lemma TopFiveTieOrder(words: seq<string>)
    ensures forall i, j :: 0 <= i < j < |TopFive(Tallied(words))| ==>
      var r := TopFive(Tallied(words));
      r[i].count > r[j].count ||
      (r[i].count == r[j].count && FirstIndex(words, r[i].word) < FirstIndex(words, r[j].word))
  {
    SortedTallyRanked(words);
    TopFiveIsSortedPrefix(Tallied(words));
  }

  /** Ties at the cut-off go the same way: of several words with the count
      of the fifth, those that occur first in the word list are shown. */
  lemma TopFiveCutOff(words: seq<string>)
    ensures forall e, i :: e in Tallied(words).Items() && e !in TopFive(Tallied(words)) && 0 <= i < |TopFive(Tallied(words))| ==>
      var r := TopFive(Tallied(words));
      r[i].count > e.count ||
      (r[i].count == e.count && FirstIndex(words, r[i].word) < FirstIndex(words, e.word))
  {
    var d := Tallied(words);
    var items := d.Items();
    var sorted := SortByCount(items);
    SortedTallyRanked(words);
    TopFiveIsSortedPrefix(d);
    RankedPrefixBefore(sorted, Min(5, |d.keys|), w => FirstIndex(words, w));
    forall e | e in items ensures e in sorted {
      assert e in multiset(items);
    }
  }
}
