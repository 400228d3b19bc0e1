/** `word_tally`: a dictionary from word to number of occurrences, which
    (like every Python dictionary) remembers the order its keys were added. */
module Tally {
  import opened Page

  /** Number of occurrences of `w` in `words`. */
  function Count(words: seq<string>, w: string): (n: nat)
    ensures n <= |words|
    ensures n > 0 <==> w in words
  {
    if words == [] then 0
    else Count(words[..|words| - 1], w) + (if words[|words| - 1] == w then 1 else 0)
  }

  predicate NoDuplicates(s: seq<string>) {
    forall i, j :: 0 <= i < j < |s| ==> s[i] != s[j]
  }

  /** The distinct words of `words`, in the order they first occur. */
  function Distinct(words: seq<string>): (ks: seq<string>)
    ensures NoDuplicates(ks)
    ensures forall w :: w in ks <==> w in words
  {
    if words == [] then []
    else
      var prefix := words[..|words| - 1];
      var last := words[|words| - 1];
      assert forall w :: w in words <==> w in prefix || w == last;
      if last in prefix then Distinct(prefix) else Distinct(prefix) + [last]
  }

  /** Index of the first occurrence of `w` in `words`; `|words|` if absent. */
  function FirstIndex(words: seq<string>, w: string): (k: nat)
    ensures k <= |words|
    ensures k < |words| <==> w in words
    ensures k < |words| ==> words[k] == w
    ensures forall m :: 0 <= m < k ==> words[m] != w
  {
    if words == [] then 0
    else if words[0] == w then 0
    else 1 + FirstIndex(words[1..], w)
  }

  /** Each word occurs in the list for the first time at its own index:
      a word's first index in `words + [x]` is its first index in `words`,
      or `|words|` when `x` is new. */
  lemma FirstIndexSnoc(words: seq<string>, x: string, w: string)
    ensures FirstIndex(words + [x], w) == if w in words then FirstIndex(words, w) else if w == x then |words| else |words| + 1
  {
    var s := words + [x];
    var k := FirstIndex(s, w);
    if w in words {
      var j := FirstIndex(words, w);
      assert s[j] == w;
    } else if w == x {
      assert s[|words|] == w;
    } else {
      assert w !in s;
    }
  }

  /** The distinct words come in order of first occurrence. */
  lemma {:induction false} DistinctInFirstOccurrenceOrder(words: seq<string>)
    ensures forall i, j :: 0 <= i < j < |Distinct(words)| ==>
      FirstIndex(words, Distinct(words)[i]) < FirstIndex(words, Distinct(words)[j])
  {
    if words != [] {
      var prefix := words[..|words| - 1];
      var last := words[|words| - 1];
      assert words == prefix + [last];
      DistinctInFirstOccurrenceOrder(prefix);
      var d := Distinct(prefix);
      forall w | w in d ensures FirstIndex(words, w) == FirstIndex(prefix, w) < |prefix| {
        FirstIndexSnoc(prefix, last, w);
      }
      if last !in prefix {
        FirstIndexSnoc(prefix, last, last);
        assert Distinct(words) == d + [last];
        forall i, j | 0 <= i < j < |Distinct(words)|
          ensures FirstIndex(words, Distinct(words)[i]) < FirstIndex(words, Distinct(words)[j])
        {
          assert Distinct(words)[i] == d[i];
          if j < |d| {
            assert Distinct(words)[j] == d[j];
          }
        }
      }
    }
  }

  /** `{word: count}` as the specification sees it: one key per word of
      the list, counted at least once and at most the list's length. */
  function CountMap(words: seq<string>): (m: map<string, nat>)
    ensures forall w :: w in m ==> 1 <= m[w] <= |words|
  {
    map w | w in words :: Count(words, w)
  }

  lemma CountSnoc(words: seq<string>, x: string, w: string)
    ensures Count(words + [x], w) == Count(words, w) + (if x == w then 1 else 0)
  {
    var s := words + [x];
    assert s[..|s| - 1] == words;
  }

  /** Adding one more word bumps its count by one and leaves the rest. */
  lemma CountMapSnoc(words: seq<string>, x: string)
    ensures CountMap(words + [x]) == CountMap(words)[x := Count(words, x) + 1]
  {
    var s := words + [x];
    var before := CountMap(words)[x := Count(words, x) + 1];
    var after := CountMap(s);
    forall w ensures w in after <==> w in before {
      CountSnoc(words, x, w);
    }
    forall w | w in after ensures after[w] == before[w] {
      CountSnoc(words, x, w);
    }
    assert after == before;
  }

  /** Tallying one more word is one more dictionary assignment. */
  lemma TalliedSnoc(words: seq<string>, x: string)
    ensures Tallied(words + [x]) == Tallied(words).Set(x, Count(words, x) + 1)
  {
    var s := words + [x];
    assert s[..|s| - 1] == words;
    assert Distinct(s) == if x in words then Distinct(words) else Distinct(words) + [x];
    CountMapSnoc(words, x);
    assert x in CountMap(words) <==> x in words;
  }

  /** An entry of the ranked list: `{'word': word, 'count': count}`. */
  datatype Entry = Entry(word: string, count: nat)

  /** A Python dictionary from word to count: its keys in insertion order
      and the mapping itself. */
  datatype WordDict = WordDict(keys: seq<string>, counts: map<string, nat>) {

    ghost predicate Valid() {
      NoDuplicates(keys) && forall w :: w in counts <==> w in keys
    }

    /** `d.get(w)`. */
    function Get(w: string): (r: Option<nat>)
      ensures r.Some? <==> w in counts
      ensures r.Some? ==> r.value == counts[w]
    {
      if w in counts then Some(counts[w]) else None
    }

    /** `d[w] = n`: a new key goes to the end, an existing key keeps its place. */
    function Set(w: string, n: nat): (d: WordDict)
      requires Valid()
      ensures d.Valid()
      ensures d.counts == counts[w := n]
      ensures d.keys == if w in counts then keys else keys + [w]
    {
      if w in counts then WordDict(keys, counts[w := n])
      else WordDict(keys + [w], counts[w := n])
    }

    /** `d.items()`, in insertion order. */
    function Items(): (es: seq<Entry>)
      requires Valid()
      ensures |es| == |keys|
      ensures forall i :: 0 <= i < |es| ==> es[i].word == keys[i] && es[i].count == counts[keys[i]]
    {
      seq(|keys|, i requires 0 <= i < |keys| => Entry(keys[i], counts[keys[i]]))
    }
  }

  /** The dictionary `word_tally(words)` returns: keys in order of first
      occurrence, each mapped to its number of occurrences. */
  function Tallied(words: seq<string>): (d: WordDict)
    ensures d.Valid()
  {
    WordDict(Distinct(words), CountMap(words))
  }

  /** `word_tally(word_list)`. */
  method WordTally(wordList: seq<string>) returns (wordDict: WordDict)
    ensures wordDict == Tallied(wordList)
  {
    wordDict := WordDict([], map[]);
    for i := 0 to |wordList|
      invariant wordDict == Tallied(wordList[..i])
    {
      var word := wordList[i];
      ghost var seen := wordList[..i];
      assert wordList[..i + 1] == seen + [word];
      TalliedSnoc(seen, word);
      var current := wordDict.Get(word);
      assert wordDict.counts == CountMap(seen);
      assert current.Some? ==> current.value == Count(seen, word);
      assert current.None? ==> word !in seen && Count(seen, word) == 0;
      if current.None? || current.value == 0 {
        wordDict := wordDict.Set(word, 1);
      } else {
        wordDict := wordDict.Set(word, current.value + 1);
      }
    }
    assert wordList[..|wordList|] == wordList;
  }

  /** Sum of the counts of `keys` in `counts`. */
  function SumCounts(keys: seq<string>, counts: map<string, nat>): nat
    requires forall w :: w in keys ==> w in counts
  {
    if keys == [] then 0
    else SumCounts(keys[..|keys| - 1], counts) + counts[keys[|keys| - 1]]
  }

  /** Sum, over `keys`, of each key's number of occurrences in `words`. */
  function SumOccurrences(keys: seq<string>, words: seq<string>): nat {
    if keys == [] then 0
    else SumOccurrences(keys[..|keys| - 1], words) + Count(words, keys[|keys| - 1])
  }

  /** When `counts` maps each key to its occurrences, both sums agree. */
  lemma {:induction false} SumCountsIsSumOccurrences(keys: seq<string>, counts: map<string, nat>, words: seq<string>)
    requires forall w :: w in keys ==> w in counts && counts[w] == Count(words, w)
    ensures SumCounts(keys, counts) == SumOccurrences(keys, words)
  {
    if keys != [] {
      SumCountsIsSumOccurrences(keys[..|keys| - 1], counts, words);
    }
  }

  /** One more word `x` adds one to the sum when `x` is listed once, nothing otherwise. */
  lemma {:induction false} SumOccurrencesSnoc(keys: seq<string>, words: seq<string>, x: string)
    requires NoDuplicates(keys)
    ensures SumOccurrences(keys, words + [x]) == SumOccurrences(keys, words) + (if x in keys then 1 else 0)
  {
    var s := words + [x];
    assert s[..|s| - 1] == words;
    if keys != [] {
      var prefix := keys[..|keys| - 1];
      var last := keys[|keys| - 1];
      assert x in keys <==> x in prefix || x == last;
      assert last == x ==> x !in prefix;
      SumOccurrencesSnoc(prefix, words, x);
    }
  }

  /** The occurrences of the distinct words add up to the number of words. */
  lemma {:induction false} DistinctOccurrencesSum(words: seq<string>)
    ensures SumOccurrences(Distinct(words), words) == |words|
  {
    if words != [] {
      var prefix := words[..|words| - 1];
      var last := words[|words| - 1];
      assert words == prefix + [last];
      var d := Distinct(prefix);
      DistinctOccurrencesSum(prefix);
      SumOccurrencesSnoc(d, prefix, last);
      if last !in prefix {
        assert Distinct(words) == d + [last];
        assert (d + [last])[..|d|] == d;
        assert Count(prefix, last) == 0;
      }
    }
  }

  /** The counts of the tally add up to the number of words. */
  lemma TallySum(words: seq<string>)
    ensures SumCounts(Tallied(words).keys, Tallied(words).counts) == |words|
  {
    var d := Tallied(words);
    assert forall w :: w in d.keys ==> w in d.counts && d.counts[w] == Count(words, w);
    SumCountsIsSumOccurrences(d.keys, d.counts, words);
    DistinctOccurrencesSum(words);
  }

  /** Every key maps to its number of occurrences, which is at least one,
      and the keys are exactly the words of the list. */
  lemma TallyCounts(words: seq<string>, w: string)
    ensures w in Tallied(words).counts <==> w in words
    ensures w in words ==> Tallied(words).counts[w] == Count(words, w) >= 1
  {
  }

  /** A duplicate-free list has as many elements as its set. */
  lemma {:induction false} DistinctCardinality(s: seq<string>)
    requires NoDuplicates(s)
    ensures |set w | w in s| == |s|
  {
    if s != [] {
      var prefix := s[..|s| - 1];
      DistinctCardinality(prefix);
      assert (set w | w in s) == (set w | w in prefix) + {s[|s| - 1]};
    }
  }

  /** `len(word_dict)`, the number of unique words, is the number of keys,
      which is the number of distinct words in the list. */
  lemma UniqueWordCount(words: seq<string>)
    ensures |Tallied(words).counts| == |Tallied(words).keys| == |set w | w in words|
  {
    var d := Tallied(words);
    DistinctCardinality(d.keys);
    assert d.counts.Keys == set w | w in d.keys;
    assert (set w | w in d.keys) == set w | w in words;
  }
}
