/**
 * The positional index (`Inner`, `Data` and `parse_content` in src/main.rs).
 * The source keeps an `IndexMap` from normalised word to the list of token positions
 * where the word occurs, iterated in first-insertion order; the model keeps the key
 * order as a sequence beside a map. The raw token list is kept for the snippets.
 * The facts about positions and key order hold for keys of any type, and are proved
 * for any type `K`; the index uses them with `K` = `string`.
 */
module PositionalIndex {
  import opened Text
  import opened Normalize

  /** `Inner`: `keys` is the insertion order of the map `store`; `store[w]` is the
      `sentences` list of `Data`; `list` is the raw token sequence. */
  datatype Index = Index(keys: seq<string>, store: map<string, seq<nat>>, list: seq<string>)
  {
    /** What an `IndexMap` guarantees: the key order lists every key exactly once. */
    ghost predicate Valid()
    {
      && (forall k :: k in store <==> k in keys)
      && (forall a, b :: 0 <= a < b < |keys| ==> keys[a] != keys[b])
    }
  }

  /** The normalised word of every token, by position. */
  function Normalized(list: seq<string>): (ws: seq<string>)
    ensures |ws| == |list|
  {
    if list == [] then []
    else Normalized(list[..|list| - 1]) + [ParseWord(list[|list| - 1])]
  }

  /** The word at position `i` is the normalised token at position `i`. */
  lemma {:induction false} NormalizedAt(list: seq<string>, i: nat)
    requires i < |list|
    ensures Normalized(list)[i] == ParseWord(list[i])
  {
    var n := |list| - 1;
    if i < n {
      NormalizedAt(list[..n], i);
    }
  }

  /** Normalising one more token appends its normalised word. */
  lemma NormalizedSnoc(list: seq<string>, i: nat)
    requires i < |list|
    ensures Normalized(list[..i + 1]) == Normalized(list[..i]) + [ParseWord(list[i])]
  {
    assert list[..i + 1][..i] == list[..i];
  }

  /** The positions of `ws` that hold `k`, as a scan from the front appends them. */
  function Positions<K(==)>(ws: seq<K>, k: K): (r: seq<nat>)
    ensures |r| <= |ws|
  {
    if ws == [] then []
    else
      var n := |ws| - 1;
      Positions(ws[..n], k) + (if ws[n] == k then [n] else [])
  }

  /** A position is listed exactly when the key is at that position. */
  lemma {:induction false} PositionsMembers<K(!new)>(ws: seq<K>, k: K)
    ensures forall p: nat :: p in Positions(ws, k) <==> p < |ws| && ws[p] == k
  {
    if ws != [] {
      var n := |ws| - 1;
      PositionsMembers(ws[..n], k);
      forall p: nat ensures p in Positions(ws, k) <==> p < |ws| && ws[p] == k {
        if p < n {
          assert ws[..n][p] == ws[p];
        }
      }
    }
  }

  /** The positions are listed in strictly increasing order. */
  lemma {:induction false} PositionsIncreasing<K(!new)>(ws: seq<K>, k: K)
    ensures forall a, b :: 0 <= a < b < |Positions(ws, k)| ==> Positions(ws, k)[a] < Positions(ws, k)[b]
  {
    if ws != [] {
      var n := |ws| - 1;
      var r := Positions(ws[..n], k);
      PositionsIncreasing(ws[..n], k);
      PositionsMembers(ws[..n], k);
      forall a | 0 <= a < |r| ensures r[a] < n {
        assert r[a] in r;
      }
    }
  }

  /** A key that does not occur has no positions. */
  lemma {:induction false} PositionsOfAbsent<K(!new)>(ws: seq<K>, k: K)
    requires k !in ws
    ensures Positions(ws, k) == []
  {
    if ws != [] {
      PositionsOfAbsent(ws[..|ws| - 1], k);
    }
  }

  /** The distinct elements of `ws` in the order in which they first occur. */
  function FirstSeen<K(==)>(ws: seq<K>): (d: seq<K>)
    ensures |d| <= |ws|
  {
    if ws == [] then []
    else
      var n := |ws| - 1;
      var d := FirstSeen(ws[..n]);
      if ws[n] in d then d else d + [ws[n]]
  }

  /** The key order holds exactly the elements that occur, each once. */
  lemma {:induction false} FirstSeenMembers<K(!new)>(ws: seq<K>)
    ensures forall x :: x in FirstSeen(ws) <==> x in ws
    ensures forall a, b :: 0 <= a < b < |FirstSeen(ws)| ==> FirstSeen(ws)[a] != FirstSeen(ws)[b]
  {
    if ws != [] {
      var n := |ws| - 1;
      FirstSeenMembers(ws[..n]);
      assert ws == ws[..n] + [ws[n]];
    }
  }

  /** Appending one element: its position joins its own list, and it joins the key
      order if it is new. */
  lemma Snoc<K(!new)>(ws: seq<K>, w: K)
    ensures forall k :: Positions(ws + [w], k) == Positions(ws, k) + (if w == k then [|ws|] else [])
    ensures FirstSeen(ws + [w]) == if w in FirstSeen(ws) then FirstSeen(ws) else FirstSeen(ws) + [w]
    ensures forall k :: k in ws + [w] <==> k in ws || k == w
  {
    assert (ws + [w])[..|ws|] == ws;
  }

  /** The entry of every key: the list of its positions. */
  function StoreOf<K(==,!new)>(ws: seq<K>): (store: map<K, seq<nat>>)
    ensures forall k :: k in store <==> k in ws
  {
    map k | k in ws :: Positions(ws, k)
  }

  /** What the loop of `parse_content` has built after scanning the keys `pre`. */
  ghost predicate Built<K(!new)>(pre: seq<K>, keys: seq<K>, store: map<K, seq<nat>>)
  {
    keys == FirstSeen(pre) && store == StoreOf(pre)
  }

  /** One iteration of the loop of `parse_content` keeps `Built` when the key was
      seen before: the position is pushed onto its entry. */
  lemma PushKeepsBuilt<K(!new)>(pre: seq<K>, w: K, keys: seq<K>, store: map<K, seq<nat>>)
    requires Built(pre, keys, store)
    requires w in store
    ensures Built(pre + [w], keys, store[w := store[w] + [|pre|]])
  {
    Snoc(pre, w);
    FirstSeenMembers(pre);
    var after := store[w := store[w] + [|pre|]];
    assert forall k | k in after :: after[k] == StoreOf(pre + [w])[k];
  }

  /** One iteration of the loop of `parse_content` keeps `Built` when the key is new:
      it is inserted with a one-element list. */
  lemma InsertKeepsBuilt<K(!new)>(pre: seq<K>, w: K, keys: seq<K>, store: map<K, seq<nat>>)
    requires Built(pre, keys, store)
    requires w !in store
    ensures Built(pre + [w], keys + [w], store[w := [|pre|]])
  {
    Snoc(pre, w);
    FirstSeenMembers(pre);
    PositionsOfAbsent(pre, w);
    var after := store[w := [|pre|]];
    assert forall k | k in after :: after[k] == StoreOf(pre + [w])[k];
  }

  /** The index over the normalised words `ws` of the token list `list`. */
  function IndexOf(ws: seq<string>, list: seq<string>): Index
  {
    Index(FirstSeen(ws), StoreOf(ws), list)
  }

  /** The index that `parse_content` builds from the token list. */
  function BuildIndex(list: seq<string>): Index
  {
    IndexOf(Normalized(list), list)
  }

  /** The index built from any word sequence lists each key of its store exactly once. */
  lemma IndexOfValid(ws: seq<string>, list: seq<string>)
    ensures IndexOf(ws, list).Valid()
  {
    FirstSeenMembers(ws);
  }

  /** `parse_content`: one pass over the tokens; the position of each token is pushed
      onto the entry of its normalised word, and a word seen for the first time is
      inserted with a one-element list. */
  method ParseContent(list: seq<string>) returns (inner: Index)
    ensures inner == BuildIndex(list)
    ensures inner.Valid()
  {
    ghost var ws: seq<string> := [];
    var keys: seq<string> := [];
    var store: map<string, seq<nat>> := map[];
    for index := 0 to |list|
      invariant ws == Normalized(list[..index])
      invariant Built(ws, keys, store)
    {
      var word := ParseWord(list[index]);
      NormalizedSnoc(list, index);
      if word in store {
        PushKeepsBuilt(ws, word, keys, store);
        store := store[word := store[word] + [index]];
      } else {
        InsertKeepsBuilt(ws, word, keys, store);
        store := store[word := [index]];
        keys := keys + [word];
      }
      ws := ws + [word];
    }
    assert list[..|list|] == list;
    IndexOfValid(ws, list);
    inner := Index(keys, store, list);
  }

  /** Every position of the token list is recorded in the entry of its normalised
      word and in no other entry; positions whose token normalises to "" are kept
      under the key "". */
  lemma PositionInExactlyOneEntry(list: seq<string>, p: nat, k: string)
    requires p < |list|
    ensures k in BuildIndex(list).store && p in BuildIndex(list).store[k] <==> k == ParseWord(list[p])
  {
    var ws := Normalized(list);
    NormalizedAt(list, p);
    PositionsMembers(ws, k);
    if k == ws[p] {
      assert k in ws;
    }
  }

  /** Each entry is non-empty and lists positions of its word in strictly increasing order. */
  lemma EntriesAreIncreasing(list: seq<string>, k: string)
    requires k in BuildIndex(list).store
    ensures var s := BuildIndex(list).store[k];
      && |s| > 0
      && (forall a, b :: 0 <= a < b < |s| ==> s[a] < s[b])
      && (forall a :: 0 <= a < |s| ==> s[a] < |list| && ParseWord(list[s[a]]) == k)
  {
    var ws := Normalized(list);
    var s := Positions(ws, k);
    PositionsNonEmpty(ws, k);
    PositionsMembers(ws, k);
    PositionsIncreasing(ws, k);
    forall a | 0 <= a < |s| ensures s[a] < |list| && ParseWord(list[s[a]]) == k {
      assert s[a] in s;
      NormalizedAt(list, s[a]);
    }
  }

  /** A key that occurs has a non-empty list whose head is a position of `ws`. */
  lemma PositionsNonEmpty<K(!new)>(ws: seq<K>, k: K)
    requires k in ws
    ensures |Positions(ws, k)| > 0 && Positions(ws, k)[0] < |ws|
  {
    PositionsMembers(ws, k);
    var p :| 0 <= p < |ws| && ws[p] == k;
    assert p in Positions(ws, k);
    assert Positions(ws, k)[0] in Positions(ws, k);
  }

  /** The distinct keys in order of first occurrence have increasing heads. */
  lemma {:induction false} FirstSeenOrder<K(!new)>(ws: seq<K>)
    ensures forall a, b :: 0 <= a < b < |FirstSeen(ws)| ==>
      && |Positions(ws, FirstSeen(ws)[a])| > 0
      && |Positions(ws, FirstSeen(ws)[b])| > 0
      && Positions(ws, FirstSeen(ws)[a])[0] < Positions(ws, FirstSeen(ws)[b])[0]
  {
    if ws != [] {
      var n := |ws| - 1;
      var pre := ws[..n];
      var w := ws[n];
      FirstSeenOrder(pre);
      FirstSeenMembers(pre);
      Snoc(pre, w);
      assert ws == pre + [w];
      var d := FirstSeen(pre);
      forall x | x in pre
        ensures && |Positions(pre, x)| > 0 && |Positions(ws, x)| > 0
                && Positions(ws, x)[0] == Positions(pre, x)[0] < n
      {
        PositionsNonEmpty(pre, x);
      }
      if w !in d {
        PositionsOfAbsent(pre, w);
      }
      var f := FirstSeen(ws);
      assert f == if w in d then d else d + [w];
      forall a, b | 0 <= a < b < |f|
        ensures && |Positions(ws, f[a])| > 0 && |Positions(ws, f[b])| > 0
                && Positions(ws, f[a])[0] < Positions(ws, f[b])[0]
      {
        assert f[a] == d[a] && d[a] in d;
        if b < |d| {
          assert f[b] == d[b] && d[b] in d;
        } else {
          assert f[b] == w && Positions(ws, w) == [n];
        }
      }
    } else {
      assert FirstSeen(ws) == [];
    }
  }

  /** No position before the head of a key's list holds the key. */
  lemma HeadIsFirstOccurrence<K(!new)>(ws: seq<K>, k: K)
    requires k in ws
    ensures |Positions(ws, k)| > 0 && Positions(ws, k)[0] < |ws|
    ensures forall p :: 0 <= p < Positions(ws, k)[0] ==> ws[p] != k
  {
    PositionsNonEmpty(ws, k);
    PositionsMembers(ws, k);
    PositionsIncreasing(ws, k);
  }

  /** The key order of the index is the order of first occurrence: each key's first
      position precedes the first position of every later key, and no earlier token
      normalises to the key. */
  lemma KeysInFirstOccurrenceOrder(list: seq<string>)
    ensures var idx := BuildIndex(list);
      forall a, b :: 0 <= a < b < |idx.keys| ==>
        idx.keys[a] in idx.store && idx.keys[b] in idx.store &&
        |idx.store[idx.keys[a]]| > 0 && |idx.store[idx.keys[b]]| > 0 &&
        idx.store[idx.keys[a]][0] < idx.store[idx.keys[b]][0]
    ensures var idx := BuildIndex(list);
      forall k :: k in idx.store ==>
        && |idx.store[k]| > 0 && idx.store[k][0] < |list|
        && forall p :: 0 <= p < idx.store[k][0] ==> ParseWord(list[p]) != k
  {
    var ws := Normalized(list);
    FirstSeenOrder(ws);
    FirstSeenMembers(ws);
    forall k | k in ws
      ensures && |Positions(ws, k)| > 0 && Positions(ws, k)[0] < |list|
              && forall p :: 0 <= p < Positions(ws, k)[0] ==> ParseWord(list[p]) != k
    {
      HeadIsFirstOccurrence(ws, k);
      PositionsNonEmpty(ws, k);
      forall p | 0 <= p < Positions(ws, k)[0] ensures ParseWord(list[p]) != k {
        NormalizedAt(list, p);
      }
    }
  }
}
