/**
 * The context window around one occurrence of a word (`get_sentence_start`,
 * `get_sentence_end`, `compose_sentence` and `stitch_words_sentences` in src/main.rs).
 * The left part joins the tokens before the occurrence, the right part the tokens
 * after it, cut down to the whole words that fit in a budget of 50 bytes.
 */
module Window {
  import opened Text

  /** `SENTENCE_START`: how far `get_sentence_start` reaches back from its first index. */
  const SentenceStart: int := 3
  /** `SENTENCE_END`: how many tokens `get_sentence_end` takes at most. */
  const SentenceEnd: nat := 9
  /** The byte budget of `compose_sentence`. */
  const Budget: nat := 50

  function Min(a: int, b: int): int
  {
    if a <= b then a else b
  }

  function Max(a: int, b: int): int
  {
    if a <= b then b else a
  }

  /** What `get_sentence_end` returns: "" past the end, otherwise the tokens from
      `indexAt`, at most `SentenceEnd` of them, joined with single spaces. */
  function RightWindow(indexAt: nat, list: seq<string>): string
  {
    if indexAt >= |list| then "" else Join(list[indexAt..Min(indexAt + SentenceEnd, |list|)])
  }

  /** What `get_sentence_start` returns: "" for a negative index, otherwise the tokens
      from `indexAt - SentenceStart` (clamped to 0) up to `endAt`, joined with spaces. */
  function LeftWindow(indexAt: int, endAt: nat, list: seq<string>): string
    requires indexAt >= 0 ==> endAt <= |list| && indexAt - SentenceStart <= endAt
  {
    if indexAt < 0 then "" else Join(list[Max(0, indexAt - SentenceStart)..endAt])
  }

  /** `get_sentence_end`: the end index starts `SentenceEnd` past `indexAt` and is
      decremented until it lies within the list. */
  method GetSentenceEnd(indexAt: nat, list: seq<string>) returns (r: string)
    ensures r == RightWindow(indexAt, list)
  {
    if indexAt >= |list| {
      return "";
    }
    var indexEnd := indexAt + SentenceEnd;
    while indexEnd > |list|
      invariant Min(indexAt + SentenceEnd, |list|) <= indexEnd <= indexAt + SentenceEnd
    {
      indexEnd := indexEnd - 1;
    }
    r := Join(list[indexAt..indexEnd]);
  }

  /** `get_sentence_start`: the start point begins `SentenceStart` before `indexAt` and
      is incremented until it is no longer negative. The slice up to `endAt` must lie
      within the list, as the Rust slice demands. */
  method GetSentenceStart(indexAt: int, endAt: nat, list: seq<string>) returns (r: string)
    requires indexAt >= 0 ==> endAt <= |list| && indexAt - SentenceStart <= endAt
    ensures r == LeftWindow(indexAt, endAt, list)
  {
    if indexAt < 0 {
      return "";
    }
    var startPoint := indexAt - SentenceStart;
    while startPoint < 0
      invariant indexAt - SentenceStart <= startPoint <= Max(0, indexAt - SentenceStart)
    {
      startPoint := startPoint + 1;
    }
    r := Join(list[startPoint..endAt]);
  }

  /** Sum of the UTF-8 byte lengths of the words (Rust `str::len` of each). */
  function TotalBytes(ws: seq<string>): (n: nat)
    ensures ws == [] ==> n == 0
  {
    if ws == [] then 0 else Utf8Count(ws[0]) + TotalBytes(ws[1..])
  }

  /** Adding a word at the end adds its byte length. */
  lemma {:induction false} TotalBytesSnoc(ws: seq<string>, w: string)
    ensures TotalBytes(ws + [w]) == TotalBytes(ws) + Utf8Count(w)
  {
    if ws != [] {
      assert (ws + [w])[1..] == ws[1..] + [w];
      TotalBytesSnoc(ws[1..], w);
    } else {
      assert [w][1..] == [];
    }
  }

  /** The `take_while` of `compose_sentence`, having already counted `total` bytes:
      a word is kept while the running total including it stays within the budget. */
  function TakeWithin(ws: seq<string>, total: nat): (kept: seq<string>)
    ensures |kept| <= |ws|
  {
    if ws == [] then []
    else if total + Utf8Count(ws[0]) <= Budget then [ws[0]] + TakeWithin(ws[1..], total + Utf8Count(ws[0]))
    else []
  }

  /** The words `take_while` keeps are the longest prefix whose bytes fit the budget
      left after `total`: the kept prefix fits, and the first word left out, if any,
      is the one that pushed the running total over the budget. */
  lemma {:induction false} TakeWithinSpec(ws: seq<string>, total: nat)
    requires total <= Budget
    ensures var kept := TakeWithin(ws, total);
      && kept == ws[..|kept|]
      && total + TotalBytes(kept) <= Budget
      && (|kept| < |ws| ==> total + TotalBytes(ws[..|kept| + 1]) > Budget)
  {
    if ws != [] {
      var n := Utf8Count(ws[0]);
      if total + n <= Budget {
        var rest := TakeWithin(ws[1..], total + n);
        TakeWithinSpec(ws[1..], total + n);
        var kept := [ws[0]] + rest;
        assert kept[1..] == rest;
        assert kept == ws[..|kept|];
        if |kept| < |ws| {
          assert ws[..|kept| + 1][1..] == ws[1..][..|rest| + 1];
        }
      } else {
        assert ws[..1][1..] == [];
      }
    }
  }

  /** What `compose_sentence` returns: the kept words joined with single spaces. */
  function FitBudget(content: string): string
  {
    Join(TakeWithin(SplitAsciiWhitespace(content), 0))
  }

  /** One test of the `take_while` of `compose_sentence`, having kept `ws[..i]` with
      `total` bytes: a word that overflows the budget ends the kept words, and a word
      that fits joins them with its bytes added to the total. */
  lemma TakeWithinStep(ws: seq<string>, i: nat, total: nat)
    requires i < |ws|
    requires total == TotalBytes(ws[..i])
    requires TakeWithin(ws, 0) == ws[..i] + TakeWithin(ws[i..], total)
    ensures total + Utf8Count(ws[i]) > Budget ==> TakeWithin(ws, 0) == ws[..i]
    ensures total + Utf8Count(ws[i]) <= Budget ==>
      && total + Utf8Count(ws[i]) == TotalBytes(ws[..i + 1])
      && TakeWithin(ws, 0) == ws[..i + 1] + TakeWithin(ws[i + 1..], total + Utf8Count(ws[i]))
  {
    assert ws[..i + 1] == ws[..i] + [ws[i]];
    assert ws[i..][1..] == ws[i + 1..];
    TotalBytesSnoc(ws[..i], ws[i]);
  }

  /** `compose_sentence`: splits on ASCII whitespace and keeps words while the running
      byte total, updated before each test, stays within `Budget`. */
  method ComposeSentence(content: string) returns (r: string)
    ensures r == FitBudget(content)
  {
    var words := SplitAsciiWhitespace(content);
    var total := 0;
    var i := 0;
    while i < |words|
      invariant i <= |words|
      invariant total == TotalBytes(words[..i])
      invariant TakeWithin(words, 0) == words[..i] + TakeWithin(words[i..], total)
    {
      var next := total + Utf8Count(words[i]);
      TakeWithinStep(words, i, total);
      if next > Budget {
        assert TakeWithin(words, 0) == words[..i];
        r := Join(words[..i]);
        return;
      }
      total := next;
      i := i + 1;
    }
    assert words[i..] == [];
    assert TakeWithin(words, 0) == words[..i] + [];
    assert TakeWithin(words, 0) == words[..i];
    r := Join(words[..i]);
  }

  /** The text of `compose_sentence` splits back into exactly the kept words: no
      word is cut, and the kept words fit the budget with the next one overflowing. */
  lemma FitBudgetWholeWords(content: string)
    ensures var ws := SplitAsciiWhitespace(content);
      var kept := SplitAsciiWhitespace(FitBudget(content));
      && |kept| <= |ws|
      && kept == ws[..|kept|]
      && TotalBytes(kept) <= Budget
      && (|kept| < |ws| ==> TotalBytes(ws[..|kept| + 1]) > Budget)
  {
    var ws := SplitAsciiWhitespace(content);
    var kept := TakeWithin(ws, 0);
    TakeWithinSpec(ws, 0);
    assert forall i :: 0 <= i < |kept| ==> kept[i] == ws[i];
    SplitJoin(kept);
  }

  /** What `stitch_words_sentences` returns for the occurrence at `index`: the left
      context, a comma, the token itself, the budgeted right context and " \n". */
  function Snippet(index: nat, list: seq<string>): string
    requires index < |list|
  {
    LeftWindow(index - 1, index, list) + ", " + list[index] + " " + FitBudget(RightWindow(index + 1, list)) + " \n"
  }

  /** `stitch_words_sentences`. */
  method StitchWordsSentences(index: nat, list: seq<string>) returns (r: string)
    requires index < |list|
    ensures r == Snippet(index, list)
  {
    var left := GetSentenceStart(index - 1, index, list);
    var word := list[index];
    var right := GetSentenceEnd(index + 1, list);
    right := ComposeSentence(right);
    r := left + ", " + word + " " + right + " \n";
  }

  /** The left context of a snippet holds exactly the (up to) four tokens before
      `index`: never the token at `index`, and nothing below position 0. */
  lemma LeftContext(index: nat, list: seq<string>)
    requires index < |list|
    requires forall i :: 0 <= i < |list| ==> IsToken(list[i])
    ensures SplitAsciiWhitespace(LeftWindow(index - 1, index, list)) == list[Max(0, index - 4)..index]
  {
    TokensAreAsciiWords(list);
    var part := list[Max(0, index - 4)..index];
    assert forall i :: 0 <= i < |part| ==> part[i] == list[Max(0, index - 4) + i];
    SplitJoin(part);
  }

  /** The right window splits back into exactly the (up to) nine tokens that follow. */
  lemma RightContext(indexAt: nat, list: seq<string>)
    requires forall i :: 0 <= i < |list| ==> IsToken(list[i])
    ensures indexAt < |list| ==> SplitAsciiWhitespace(RightWindow(indexAt, list)) == list[indexAt..Min(indexAt + SentenceEnd, |list|)]
    ensures indexAt >= |list| ==> RightWindow(indexAt, list) == ""
  {
    if indexAt < |list| {
      TokensAreAsciiWords(list);
      var part := list[indexAt..Min(indexAt + SentenceEnd, |list|)];
      assert forall i :: 0 <= i < |part| ==> part[i] == list[indexAt + i];
      SplitJoin(part);
    }
  }

  /** A snippet in terms of the token list alone: the up to four tokens before
      `index`, the token, and those of the up to nine following tokens that fit the
      byte budget, each part joined with single spaces. */
  lemma SnippetParts(index: nat, list: seq<string>)
    requires index < |list|
    requires forall i :: 0 <= i < |list| ==> IsToken(list[i])
    ensures var right := list[index + 1..Min(index + 1 + SentenceEnd, |list|)];
      Snippet(index, list)
        == Join(list[Max(0, index - 4)..index]) + ", " + list[index] + " " + Join(TakeWithin(right, 0)) + " \n"
  {
    var right := list[index + 1..Min(index + 1 + SentenceEnd, |list|)];
    if index + 1 < |list| {
      RightContext(index + 1, list);
    } else {
      assert right == [];
    }
  }
}
