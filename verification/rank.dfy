/**
 * The three rankers (`get_popularity_sort`, `get_insertion_sort` and `get_word_file`
 * in src/main.rs): each turns the index into a list of (word, position list) entries.
 * The popularity ranker sorts with the standard library's stable `sort_by`, which is
 * modelled by a stable insertion sort on the entry count.
 */
module Rank {
  import opened Text
  import opened Alphabet
  import opened PositionalIndex

  /** One entry of a ranking: a key of the index and its position list. */
  datatype Entry = Entry(word: string, sentences: seq<nat>)

  /** The occurrence count by which the popularity ranker sorts. */
  function Count(e: Entry): nat
  {
    |e.sentences|
  }

  /** The entries of the index in key order, as iterating an `IndexMap` yields them. */
  function EntriesOf(keys: seq<string>, store: map<string, seq<nat>>): (es: seq<Entry>)
    requires forall k :: k in keys ==> k in store
    ensures |es| == |keys|
    ensures forall i :: 0 <= i < |keys| ==> es[i] == Entry(keys[i], store[keys[i]])
  {
    if keys == [] then []
    else
      var n := |keys| - 1;
      EntriesOf(keys[..n], store) + [Entry(keys[n], store[keys[n]])]
  }

  /** The entries of a prefix of the key order, one key further. */
  lemma EntriesOfSnoc(keys: seq<string>, store: map<string, seq<nat>>, i: nat)
    requires forall k :: k in keys ==> k in store
    requires i < |keys|
    ensures EntriesOf(keys[..i + 1], store) == EntriesOf(keys[..i], store) + [Entry(keys[i], store[keys[i]])]
  {
    assert keys[..i + 1][..i] == keys[..i];
  }

  /** `get_insertion_sort`: every entry, in index order. */
  method GetInsertionSort(idx: Index) returns (acc: seq<Entry>)
    requires idx.Valid()
    ensures acc == EntriesOf(idx.keys, idx.store)
  {
    acc := [];
    for i := 0 to |idx.keys|
      invariant acc == EntriesOf(idx.keys[..i], idx.store)
    {
      var word := idx.keys[i];
      EntriesOfSnoc(idx.keys, idx.store, i);
      acc := acc + [Entry(word, idx.store[word])];
    }
    assert idx.keys[..|idx.keys|] == idx.keys;
  }

  /** The words of the entries are exactly the keys of the store. */
  lemma KeysOfEntries(idx: Index, es: seq<Entry>)
    requires idx.Valid()
    requires es == EntriesOf(idx.keys, idx.store)
    ensures forall k :: k in idx.store <==> exists i :: 0 <= i < |es| && es[i].word == k
  {
    forall k ensures k in idx.store <==> exists i :: 0 <= i < |es| && es[i].word == k {
      if k in idx.store {
        var i :| 0 <= i < |idx.keys| && idx.keys[i] == k;
        assert es[i].word == k;
      }
      if exists i :: 0 <= i < |es| && es[i].word == k {
        var i :| 0 <= i < |es| && es[i].word == k;
        assert idx.keys[i] in idx.keys;
      }
    }
  }

  /** The insertion ranking lists every key of the index exactly once, with its own
      position list. */
  lemma InsertionCoversIndex(idx: Index)
    requires idx.Valid()
    ensures var es := EntriesOf(idx.keys, idx.store);
      && (forall k :: k in idx.store <==> exists i :: 0 <= i < |es| && es[i].word == k)
      && (forall i, j :: 0 <= i < j < |es| ==> es[i].word != es[j].word)
      && (forall i :: 0 <= i < |es| ==> es[i].sentences == idx.store[es[i].word])
  {
    KeysOfEntries(idx, EntriesOf(idx.keys, idx.store));
  }

  /** The filter of `get_popularity_sort`: the key is an English word (`valid_english`)
      of more than one byte. */
  predicate Eligible(e: Entry)
  {
    IsWord(e.word) && Utf8Count(e.word) > 1
  }

  /** For words of letters only, the byte length is the character length: the filter
      keeps the English words of at least two letters. */
  lemma EligibleLongWord(e: Entry)
    ensures Eligible(e) <==> IsWord(e.word) && |e.word| >= 2
  {
    if IsWord(e.word) {
      Utf8CountAscii(e.word);
    }
  }

  /** The entries that pass the filter, in their original order. */
  function FilterEligible(es: seq<Entry>): (r: seq<Entry>)
    ensures |r| <= |es|
  {
    if es == [] then []
    else
      var n := |es| - 1;
      FilterEligible(es[..n]) + (if Eligible(es[n]) then [es[n]] else [])
  }

  /** The filter keeps exactly the eligible entries. */
  lemma {:induction false} FilterEligibleMembers(es: seq<Entry>)
    ensures forall e :: e in FilterEligible(es) <==> e in es && Eligible(e)
  {
    if es != [] {
      var n := |es| - 1;
      FilterEligibleMembers(es[..n]);
      assert es == es[..n] + [es[n]];
    }
  }

  /** Stable insertion by count, largest first: `x` goes before the first entry whose
      count does not exceed its own. */
  function InsertByCount(x: Entry, s: seq<Entry>): (r: seq<Entry>)
    ensures |r| == |s| + 1
  {
    if s == [] then [x]
    else if Count(x) >= Count(s[0]) then [x] + s
    else [s[0]] + InsertByCount(x, s[1..])
  }

  /** The stable sort by count, largest first, that `sort_by` with the reversed
      comparison of the counts performs. */
  function SortByCountDesc(es: seq<Entry>): (r: seq<Entry>)
    ensures |r| == |es|
  {
    if es == [] then [] else InsertByCount(es[0], SortByCountDesc(es[1..]))
  }

  predicate SortedDesc(s: seq<Entry>)
  {
    forall i, j :: 0 <= i < j < |s| ==> Count(s[i]) >= Count(s[j])
  }

  /** Insertion adds exactly `x`. */
  lemma {:induction false} InsertByCountPermutes(x: Entry, s: seq<Entry>)
    ensures multiset(InsertByCount(x, s)) == multiset(s) + multiset{x}
  {
    if s != [] && Count(x) < Count(s[0]) {
      InsertByCountPermutes(x, s[1..]);
      assert s == [s[0]] + s[1..];
    }
  }

  /** Every entry of the insertion is `x` or an entry of `s`. */
  lemma {:induction false} InsertByCountFrom(x: Entry, s: seq<Entry>)
    ensures forall e :: e in InsertByCount(x, s) ==> e == x || e in s
  {
    if s != [] && Count(x) < Count(s[0]) {
      InsertByCountFrom(x, s[1..]);
      assert forall e :: e in s[1..] ==> e in s;
    }
  }

  /** Inserting into a sorted list keeps it sorted. */
  lemma {:induction false} InsertByCountSorted(x: Entry, s: seq<Entry>)
    requires SortedDesc(s)
    ensures SortedDesc(InsertByCount(x, s))
  {
    if s != [] && Count(x) < Count(s[0]) {
      var rest := InsertByCount(x, s[1..]);
      var r := [s[0]] + rest;
      assert SortedDesc(s[1..]);
      InsertByCountSorted(x, s[1..]);
      InsertByCountFrom(x, s[1..]);
      assert forall e :: e in s ==> Count(s[0]) >= Count(e);
      forall i, j | 0 <= i < j < |r| ensures Count(r[i]) >= Count(r[j]) {
        assert r[j] == rest[j - 1] && rest[j - 1] in rest;
        if i > 0 {
          assert r[i] == rest[i - 1];
        }
      }
      assert InsertByCount(x, s) == r;
    }
  }

  /** The sort orders by count, largest first, and is a permutation of its input. */
  lemma {:induction false} SortByCountDescSorted(es: seq<Entry>)
    ensures SortedDesc(SortByCountDesc(es))
    ensures multiset(SortByCountDesc(es)) == multiset(es)
  {
    if es != [] {
      SortByCountDescSorted(es[1..]);
      InsertByCountSorted(es[0], SortByCountDesc(es[1..]));
      InsertByCountPermutes(es[0], SortByCountDesc(es[1..]));
      assert es == [es[0]] + es[1..];
    }
  }

  /** The entries of `s` whose count is `c`, in order. */
  function WithCount(s: seq<Entry>, c: nat): (r: seq<Entry>)
    ensures |r| <= |s|
  {
    if s == [] then []
    else (if Count(s[0]) == c then [s[0]] else []) + WithCount(s[1..], c)
  }

  /** Insertion puts `x` in front of every entry with the same count. */
  lemma {:induction false} InsertByCountStable(x: Entry, s: seq<Entry>, c: nat)
    ensures WithCount(InsertByCount(x, s), c) == (if Count(x) == c then [x] else []) + WithCount(s, c)
  {
    if s == [] {
    } else if Count(x) >= Count(s[0]) {
      assert ([x] + s)[1..] == s;
    } else {
      var rest := InsertByCount(x, s[1..]);
      InsertByCountStable(x, s[1..], c);
      assert ([s[0]] + rest)[1..] == rest;
    }
  }

  /** The sort is stable: for every count, the entries with that count keep their
      relative order. */
  lemma {:induction false} SortByCountDescStable(es: seq<Entry>, c: nat)
    ensures WithCount(SortByCountDesc(es), c) == WithCount(es, c)
  {
    if es != [] {
      SortByCountDescStable(es[1..], c);
      InsertByCountStable(es[0], SortByCountDesc(es[1..]), c);
    }
  }

  /** The ranking `get_popularity_sort` returns: the eligible entries in index order,
      sorted by count. */
  function Popularity(idx: Index): seq<Entry>
    requires idx.Valid()
  {
    SortByCountDesc(FilterEligible(EntriesOf(idx.keys, idx.store)))
  }

  /** The eligible entries of a prefix of the key order, one key further. */
  lemma FilterEligibleSnoc(keys: seq<string>, store: map<string, seq<nat>>, i: nat)
    requires forall k :: k in keys ==> k in store
    requires i < |keys|
    ensures var e := Entry(keys[i], store[keys[i]]);
      FilterEligible(EntriesOf(keys[..i + 1], store))
        == FilterEligible(EntriesOf(keys[..i], store)) + (if Eligible(e) then [e] else [])
  {
    EntriesOfSnoc(keys, store, i);
    var es := EntriesOf(keys[..i + 1], store);
    assert es[..i] == EntriesOf(keys[..i], store);
  }

  /** `get_popularity_sort`: collects the entries whose key passes `valid_english`
      and is longer than one byte, in index order, then sorts them by count. */
  method GetPopularitySort(idx: Index) returns (acc: seq<Entry>)
    requires idx.Valid()
    ensures acc == Popularity(idx)
  {
    acc := [];
    for i := 0 to |idx.keys|
      invariant acc == FilterEligible(EntriesOf(idx.keys[..i], idx.store))
    {
      var word := idx.keys[i];
      var data := idx.store[word];
      FilterEligibleSnoc(idx.keys, idx.store, i);
      var english := ValidEnglish(word);
      if english && Utf8Count(word) > 1 {
        acc := acc + [Entry(word, data)];
      }
    }
    assert idx.keys[..|idx.keys|] == idx.keys;
    acc := SortByCountDesc(acc);
  }

  /** The popularity ranking holds exactly the eligible entries of the index, orders
      them by count, largest first, and keeps entries of equal count in index order. */
  lemma PopularityRanking(idx: Index)
    requires idx.Valid()
    ensures var es := EntriesOf(idx.keys, idx.store);
      && (forall e :: e in Popularity(idx) <==> e in es && Eligible(e))
      && SortedDesc(Popularity(idx))
      && (forall c :: WithCount(Popularity(idx), c) == WithCount(FilterEligible(es), c))
  {
    var es := EntriesOf(idx.keys, idx.store);
    var kept := FilterEligible(es);
    FilterEligibleMembers(es);
    SortByCountDescSorted(kept);
    forall e ensures e in Popularity(idx) <==> e in kept {
      assert e in Popularity(idx) <==> e in multiset(Popularity(idx));
      assert e in kept <==> e in multiset(kept);
    }
    forall c ensures WithCount(Popularity(idx), c) == WithCount(kept, c) {
      SortByCountDescStable(kept, c);
    }
  }

  /** The entries of `get_word_file`: the listed words that are keys of the index,
      in list order, each with its position list. */
  function Listed(words: seq<string>, store: map<string, seq<nat>>): (r: seq<Entry>)
    ensures |r| <= |words|
  {
    if words == [] then []
    else
      var n := |words| - 1;
      Listed(words[..n], store) + (if words[n] in store then [Entry(words[n], store[words[n]])] else [])
  }

  /** `get_word_file`, with the word list that the source reads from a file given as
      a parameter: keeps the words that are keys of the index and skips the rest. */
  method GetWordFile(idx: Index, words: seq<string>) returns (acc: seq<Entry>)
    ensures acc == Listed(words, idx.store)
  {
    acc := [];
    for i := 0 to |words|
      invariant acc == Listed(words[..i], idx.store)
    {
      var word := words[i];
      assert words[..i + 1][..i] == words[..i];
      if word in idx.store {
        var data := idx.store[word];
        acc := acc + [Entry(word, data)];
      }
    }
    assert words[..|words|] == words;
  }

  /** The word-list ranking holds an entry exactly for each listed word that is a key
      of the index, paired with that key's position list. */
  lemma {:induction false} ListedMembers(words: seq<string>, store: map<string, seq<nat>>)
    ensures forall e :: e in Listed(words, store) <==>
      e.word in words && e.word in store && e.sentences == store[e.word]
  {
    if words != [] {
      var n := |words| - 1;
      ListedMembers(words[..n], store);
      assert words == words[..n] + [words[n]];
    }
  }
}
