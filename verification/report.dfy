/**
 * The record-building part of `main` in src/main.rs: for each ranked word, the
 * snippets of its first `TAKE` occurrences are concatenated, trimmed and ended with a
 * newline; the records are then numbered from 1 and joined with newlines into the
 * text that `main` writes to `data.on`.
 */
module Report {
  import opened Text
  import opened Window
  import opened PositionalIndex
  import opened Rank

  /** `TAKE`: how many occurrences of each word a record shows. */
  const Take: nat := 3

  /** The indentation inside the record literal, before the record number. */
  const Indent: string := "                            "

  /** One element of `release`: a ranked word and its example block. */
  datatype Example = Example(word: string, block: string)

  /** Every position of every entry is a position of the token list. */
  predicate EntriesInList(acc: seq<Entry>, list: seq<string>)
  {
    forall i, j :: 0 <= i < |acc| && 0 <= j < |acc[i].sentences| ==> acc[i].sentences[j] < |list|
  }

  predicate PositionsInList(positions: seq<nat>, list: seq<string>)
  {
    forall j :: 0 <= j < |positions| ==> positions[j] < |list|
  }

  /** The first `Take` positions: what `.iter().take(TAKE)` yields. */
  function Shown(positions: seq<nat>): seq<nat>
  {
    positions[..Min(Take, |positions|)]
  }

  /** The fold of `main`: the snippets of the positions, concatenated in order. */
  function Snippets(positions: seq<nat>, list: seq<string>): (r: string)
    requires PositionsInList(positions, list)
    ensures positions == [] ==> r == ""
  {
    if positions == [] then ""
    else
      var n := |positions| - 1;
      Snippets(positions[..n], list) + Snippet(positions[n], list)
  }

  /** The example block of one record: the snippets of the first `Take` positions,
      trimmed, followed by a newline. */
  function Examples(positions: seq<nat>, list: seq<string>): string
    requires PositionsInList(positions, list)
  {
    Trim(Snippets(Shown(positions), list)) + "\n"
  }

  /** Only the first `Take` positions of a word matter to its example block: positions
      beyond the third are never shown. */
  lemma ExamplesShowFirstTake(positions: seq<nat>, list: seq<string>)
    requires PositionsInList(positions, list)
    ensures var m := Min(Take, |positions|);
      && Examples(positions, list) == Examples(positions[..m], list)
      && (forall more: seq<nat> :: PositionsInList(positions[..m] + more, list) ==>
            (|positions| >= Take ==> Examples(positions[..m] + more, list) == Examples(positions, list)))
  {
    var m := Min(Take, |positions|);
    assert Shown(positions[..m]) == Shown(positions);
    forall more: seq<nat> | PositionsInList(positions[..m] + more, list) && |positions| >= Take
      ensures Examples(positions[..m] + more, list) == Examples(positions, list)
    {
      assert Shown(positions[..m] + more) == Shown(positions);
    }
  }

  /** The example block ends with its one newline, and the text before it has no
      whitespace at either end: it is the trimmed concatenation of the snippets. */
  lemma ExamplesTrimmed(positions: seq<nat>, list: seq<string>)
    requires PositionsInList(positions, list)
    ensures var b := Examples(positions, list);
      && |b| > 0 && b[|b| - 1] == '\n'
      && (|b| == 1 || (!IsWhitespace(b[0]) && !IsWhitespace(b[|b| - 2])))
  {
    var s := Snippets(Shown(positions), list);
    TrimSpec(s);
    var b := Examples(positions, list);
    assert b[..|b| - 1] == Trim(s);
  }

  /** The concatenation of the snippets, one position further. */
  lemma SnippetsSnoc(positions: seq<nat>, list: seq<string>, j: nat)
    requires PositionsInList(positions, list)
    requires j < |positions|
    ensures Snippets(positions[..j + 1], list) == Snippets(positions[..j], list) + Snippet(positions[j], list)
  {
    assert positions[..j + 1][..j] == positions[..j];
  }

  /** The `release` that `main` builds from the ranked entries. */
  function Release(acc: seq<Entry>, list: seq<string>): (r: seq<Example>)
    requires EntriesInList(acc, list)
    ensures |r| == |acc|
  {
    if acc == [] then []
    else
      var n := |acc| - 1;
      Release(acc[..n], list) + [Example(acc[n].word, Examples(acc[n].sentences, list))]
  }

  /** The release keeps the ranked order: record `i` belongs to the `i`-th entry and
      shows its example block. */
  lemma {:induction false} ReleaseAt(acc: seq<Entry>, list: seq<string>, i: nat)
    requires EntriesInList(acc, list)
    requires i < |acc|
    ensures Release(acc, list)[i] == Example(acc[i].word, Examples(acc[i].sentences, list))
  {
    var n := |acc| - 1;
    if i < n {
      ReleaseAt(acc[..n], list, i);
    }
  }

  /** The loop of `main` that fills `release`: for each entry, the snippets of its
      first `Take` positions are appended to an empty string, which is then trimmed
      and ended with a newline. */
  method BuildRelease(acc: seq<Entry>, list: seq<string>) returns (release: seq<Example>)
    requires EntriesInList(acc, list)
    ensures release == Release(acc, list)
  {
    release := [];
    for i := 0 to |acc|
      invariant release == Release(acc[..i], list)
    {
      var word := acc[i].word;
      var shown := Shown(acc[i].sentences);
      var x := "";
      for j := 0 to |shown|
        invariant x == Snippets(shown[..j], list)
      {
        var s := StitchWordsSentences(shown[j], list);
        SnippetsSnoc(shown, list, j);
        x := x + s;
      }
      assert shown[..|shown|] == shown;
      var sentence := Trim(x) + "\n";
      assert acc[..i + 1][..i] == acc[..i];
      release := release + [Example(word, sentence)];
    }
    assert acc[..|acc|] == acc;
  }

  /** The decimal digit for `d`. */
  function DigitChar(d: nat): char
    requires d < 10
  {
    ['0', '1', '2', '3', '4', '5', '6', '7', '8', '9'][d]
  }

  predicate IsDigit(c: char)
  {
    '0' <= c <= '9'
  }

  /** The value of a decimal digit. */
  function DigitValue(c: char): nat
    requires IsDigit(c)
  {
    (c - '0') as nat
  }

  /** `{}` applied to an unsigned number: its decimal digits, without leading zeros. */
  function Decimal(n: nat): (s: string)
    ensures |s| > 0
    ensures forall i :: 0 <= i < |s| ==> IsDigit(s[i])
    ensures s[0] == '0' <==> n == 0
  {
    if n < 10 then [DigitChar(n)] else Decimal(n / 10) + [DigitChar(n % 10)]
  }

  /** The number a string of decimal digits stands for. */
  function ParseDecimal(s: string): nat
    requires forall i :: 0 <= i < |s| ==> IsDigit(s[i])
  {
    if s == [] then 0 else 10 * ParseDecimal(s[..|s| - 1]) + DigitValue(s[|s| - 1])
  }

  /** The digits of a number read back as that number, and the first digit is not a
      zero unless the number is zero. */
  lemma {:induction false} DecimalRoundTrip(n: nat)
    ensures forall i :: 0 <= i < |Decimal(n)| ==> IsDigit(Decimal(n)[i])
    ensures ParseDecimal(Decimal(n)) == n
    ensures Decimal(n)[0] == '0' <==> n == 0
  {
    if n >= 10 {
      DecimalRoundTrip(n / 10);
      var s := Decimal(n);
      assert s[..|s| - 1] == Decimal(n / 10);
    }
  }

  /** The longest prefix of `s` made of decimal digits. */
  function LeadingDigits(s: string): (d: string)
    ensures forall i :: 0 <= i < |d| ==> IsDigit(d[i])
  {
    if s != [] && IsDigit(s[0]) then [s[0]] + LeadingDigits(s[1..]) else []
  }

  /** A run of digits followed by a non-digit is read as exactly that run. */
  lemma {:induction false} LeadingDigitsOf(d: string, rest: string)
    requires forall i :: 0 <= i < |d| ==> IsDigit(d[i])
    requires rest == [] || !IsDigit(rest[0])
    ensures LeadingDigits(d + rest) == d
  {
    if d != [] {
      assert (d + rest)[1..] == d[1..] + rest;
      LeadingDigitsOf(d[1..], rest);
    }
  }

  /** One line of `ready`: a newline, the indentation, the record number, ": ", the
      word, a newline and the example block. */
  function Numbered(index: nat, e: Example): (r: string)
    ensures |r| > |Indent| + 1 && r[..|Indent| + 1] == "\n" + Indent
    ensures NumberOf(r) == index + 1
  {
    var d := Decimal(index + 1);
    var rest := ": " + e.word + "\n" + e.block;
    var r := "\n" + Indent + d + rest;
    DecimalRoundTrip(index + 1);
    LeadingDigitsOf(d, rest);
    assert r[|Indent| + 1..] == d + rest;
    r
  }

  /** The number a record carries: the digits after the newline and the indentation. */
  function NumberOf(record: string): nat
  {
    var head := |Indent| + 1;
    if |record| < head then 0 else ParseDecimal(LeadingDigits(record[head..]))
  }

  /** The enumeration of `main`: the records of `release`, numbered from 1. */
  function Records(release: seq<Example>): (ready: seq<string>)
    ensures |ready| == |release|
    ensures forall i :: 0 <= i < |ready| ==> NumberOf(ready[i]) == i + 1
  {
    seq(|release|, i requires 0 <= i < |release| => Numbered(i, release[i]))
  }

  /** Records are numbered `index + 1` in ranked order, and record `i` names the word
      of the `i`-th element of the release right after its number. */
  lemma RecordsNumbered(release: seq<Example>, i: nat)
    requires i < |release|
    ensures var r := Records(release)[i];
      var d := Decimal(i + 1);
      && NumberOf(r) == i + 1
      && r[..|Indent| + 1] == "\n" + Indent
      && r[|Indent| + 1 + |d|..] == ": " + release[i].word + "\n" + release[i].block
  {
    var r := Records(release)[i];
    var d := Decimal(i + 1);
    var rest := ": " + release[i].word + "\n" + release[i].block;
    assert r == "\n" + Indent + d + rest;
    assert r[|Indent| + 1..] == d + rest;
    DecimalRoundTrip(i + 1);
    LeadingDigitsOf(d, rest);
  }

  /** The text `main` writes to `data.on`: the records joined with newlines. */
  function DataText(release: seq<Example>): (text: string)
    ensures text == "" <==> release == []
    ensures release != [] ==> |text| > |Indent| + 1 && text[..|Indent| + 1] == "\n" + Indent
  {
    JoinWith(Records(release), "\n")
  }

  /** Every position list of the index lies within the token list. */
  lemma StoreInList(list: seq<string>)
    ensures var store := BuildIndex(list).store;
      forall k :: k in store ==> PositionsInList(store[k], list)
  {
    forall k | k in BuildIndex(list).store ensures PositionsInList(BuildIndex(list).store[k], list) {
      EntriesAreIncreasing(list, k);
    }
  }

  /** The insertion ranking of the index only holds positions within the token list. */
  lemma InsertionInList(list: seq<string>)
    ensures var idx := BuildIndex(list);
      (forall k :: k in idx.keys ==> k in idx.store) &&
      EntriesInList(EntriesOf(idx.keys, idx.store), list)
  {
    var idx := BuildIndex(list);
    IndexOfValid(Normalized(list), list);
    StoreInList(list);
    var es := EntriesOf(idx.keys, idx.store);
    forall i, j | 0 <= i < |es| && 0 <= j < |es[i].sentences| ensures es[i].sentences[j] < |list| {
      assert idx.keys[i] in idx.keys;
    }
  }

  /** The word-list ranking of the index only holds positions within the token list. */
  lemma ListedInList(list: seq<string>, words: seq<string>)
    ensures EntriesInList(Listed(words, BuildIndex(list).store), list)
  {
    var store := BuildIndex(list).store;
    var es := Listed(words, store);
    StoreInList(list);
    ListedMembers(words, store);
    forall i, j | 0 <= i < |es| && 0 <= j < |es[i].sentences| ensures es[i].sentences[j] < |list| {
      assert es[i] in es;
    }
  }

  /** The popularity ranking of the index that `parse_content` builds. */
  function Ranked(list: seq<string>): seq<Entry>
  {
    IndexOfValid(Normalized(list), list);
    Popularity(BuildIndex(list))
  }

  /** The popularity ranking only holds positions within the token list, so every
      snippet `main` asks for exists. */
  lemma RankedInList(list: seq<string>)
    ensures EntriesInList(Ranked(list), list)
  {
    var idx := BuildIndex(list);
    IndexOfValid(Normalized(list), list);
    var es := EntriesOf(idx.keys, idx.store);
    StoreInList(list);
    PopularityRanking(idx);
    var p := Ranked(list);
    forall i, j | 0 <= i < |p| && 0 <= j < |p[i].sentences| ensures p[i].sentences[j] < |list| {
      assert p[i] in p;
      var k :| 0 <= k < |es| && es[k] == p[i];
      assert idx.keys[k] in idx.keys;
    }
  }

  /** What `main` writes for the token list: the popularity ranking turned into
      numbered records. */
  function Data(list: seq<string>): string
  {
    DataText(RankedRelease(list))
  }

  /** The release `main` builds from the popularity ranking. */
  function RankedRelease(list: seq<string>): seq<Example>
  {
    RankedInList(list);
    Release(Ranked(list), list)
  }

  /** `main` after reading the corpus: index the tokens, rank by popularity, build the
      release and join the numbered records. */
  method Run(list: seq<string>) returns (data: string)
    ensures data == Data(list)
  {
    var inner := ParseContent(list);
    var acc := GetPopularitySort(inner);
    RankedInList(list);
    var release := BuildRelease(acc, inner.list);
    data := JoinWith(Records(release), "\n");
  }

  /** The report has one record per eligible key of the index, in ranked order, each
      numbered by its rank and naming its word. */
  lemma DataRecords(list: seq<string>)
    ensures var p := Ranked(list);
      var ready := Records(RankedRelease(list));
      && EntriesInList(p, list)
      && |ready| == |p|
      && (forall i :: 0 <= i < |ready| ==> NumberOf(ready[i]) == i + 1)
      && (forall i :: 0 <= i < |ready| ==>
            ready[i] == Numbered(i, Example(p[i].word, Examples(p[i].sentences, list))))
  {
    var p := Ranked(list);
    RankedInList(list);
    var release := Release(p, list);
    forall i | 0 <= i < |release| ensures NumberOf(Records(release)[i]) == i + 1 {
      RecordsNumbered(release, i);
    }
    forall i | 0 <= i < |release| ensures release[i] == Example(p[i].word, Examples(p[i].sentences, list)) {
      ReleaseAt(p, list, i);
    }
  }

  /** An empty corpus gives an empty report. */
  lemma EmptyCorpus()
    ensures Data([]) == ""
  {
    var idx := BuildIndex([]);
    assert Normalized([]) == [];
    assert idx.keys == [];
  }
}
