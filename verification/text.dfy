/**
 * String primitives that the core relies on from Rust's standard library:
 * UTF-8 byte lengths, the two whitespace classes, trimming, ASCII lower-casing,
 * joining with a separator and `split_ascii_whitespace`.
 * Strings are sequences of Unicode scalar values (Rust `char`s).
 */
module Text {

  /** Number of bytes in the UTF-8 encoding of `c` (Rust `char::len_utf8`). */
  function Utf8Len(c: char): (n: nat)
    ensures 1 <= n <= 4
    ensures n == 1 <==> (c as int) < 0x80
  {
    if (c as int) < 0x80 then 1
    else if (c as int) < 0x800 then 2
    else if (c as int) < 0x1_0000 then 3
    else 4
  }

  /** Byte length of the UTF-8 encoding of `s` (Rust `str::len`): the sum of the
      characters' encoded lengths. */
  function Utf8Count(s: string): (n: nat)
    ensures |s| <= n <= 4 * |s|
    ensures n == 0 <==> s == []
  {
    if s == [] then 0 else Utf8Count(s[..|s| - 1]) + Utf8Len(s[|s| - 1])
  }

  /** The byte length of a concatenation is the sum of the byte lengths. */
  lemma {:induction false} Utf8CountAppend(a: string, b: string)
    ensures Utf8Count(a + b) == Utf8Count(a) + Utf8Count(b)
    decreases |b|
  {
    if b != [] {
      assert (a + b)[..|a + b| - 1] == a + b[..|b| - 1];
      Utf8CountAppend(a, b[..|b| - 1]);
    } else {
      assert a + b == a;
    }
  }

  /** A string of ASCII characters takes one byte per character. */
  lemma {:induction false} Utf8CountAscii(s: string)
    requires forall i :: 0 <= i < |s| ==> (s[i] as int) < 0x80
    ensures Utf8Count(s) == |s|
  {
    if s != [] {
      Utf8CountAscii(s[..|s| - 1]);
    }
  }

  /** Rust `char::is_whitespace`: the Unicode White_Space property. */
  predicate IsWhitespace(c: char)
  {
    var v := c as int;
    (0x09 <= v <= 0x0D) || v == 0x20 || v == 0x85 || v == 0xA0 || v == 0x1680
    || (0x2000 <= v <= 0x200A) || v == 0x2028 || v == 0x2029 || v == 0x202F
    || v == 0x205F || v == 0x3000
  }

  /** Rust `u8::is_ascii_whitespace`, the separator of `split_ascii_whitespace`:
      space, tab, line feed, form feed and carriage return (not vertical tab). */
  predicate IsAsciiWhitespace(c: char)
  {
    var v := c as int;
    v == 0x20 || v == 0x09 || v == 0x0A || v == 0x0C || v == 0x0D
  }

  /** A token of the corpus as `split_whitespace` yields it: non-empty, no whitespace. */
  predicate IsToken(t: string)
  {
    |t| > 0 && forall i :: 0 <= i < |t| ==> !IsWhitespace(t[i])
  }

  /** A word as `split_ascii_whitespace` yields it: non-empty, no ASCII whitespace. */
  predicate IsAsciiWord(w: string)
  {
    |w| > 0 && forall i :: 0 <= i < |w| ==> !IsAsciiWhitespace(w[i])
  }

  /** Removes every leading character of `s` that `strip` selects: what
      `Str::rm_start` does with non-letters and `str::trim_start` with whitespace. */
  function DropLeading(s: string, strip: char -> bool): (r: string)
    ensures |r| <= |s|
    decreases |s|
  {
    if s != [] && strip(s[0]) then DropLeading(s[1..], strip) else s
  }

  /** Dropping from the front leaves a suffix of `s`; everything dropped is selected
      by `strip`, and the first character kept is not. */
  lemma {:induction false} DropLeadingSpec(s: string, strip: char -> bool)
    ensures DropLeading(s, strip) == s[|s| - |DropLeading(s, strip)|..]
    ensures forall k :: 0 <= k < |s| - |DropLeading(s, strip)| ==> strip(s[k])
    ensures DropLeading(s, strip) == [] || !strip(DropLeading(s, strip)[0])
    decreases |s|
  {
    if s != [] && strip(s[0]) {
      DropLeadingSpec(s[1..], strip);
      assert forall k :: 1 <= k < |s| ==> s[k] == s[1..][k - 1];
    }
  }

  /** Removes every trailing character of `s` that `strip` selects: what
      `Str::rm_end` does with non-letters and `str::trim_end` with whitespace. */
  function DropTrailing(s: string, strip: char -> bool): (r: string)
    ensures |r| <= |s|
    decreases |s|
  {
    if s != [] && strip(s[|s| - 1]) then DropTrailing(s[..|s| - 1], strip) else s
  }

  /** Dropping from the back leaves a prefix of `s`; everything dropped is selected
      by `strip`, and the last character kept is not. */
  lemma {:induction false} DropTrailingSpec(s: string, strip: char -> bool)
    ensures DropTrailing(s, strip) == s[..|DropTrailing(s, strip)|]
    ensures forall k :: |DropTrailing(s, strip)| <= k < |s| ==> strip(s[k])
    ensures DropTrailing(s, strip) == [] || !strip(DropTrailing(s, strip)[|DropTrailing(s, strip)| - 1])
    decreases |s|
  {
    if s != [] && strip(s[|s| - 1]) {
      DropTrailingSpec(s[..|s| - 1], strip);
      assert forall k :: 0 <= k < |s| - 1 ==> s[k] == s[..|s| - 1][k];
    }
  }

  /** Rust `str::trim`: drops whitespace at both ends. */
  function Trim(s: string): (r: string)
    ensures |r| <= |s|
  {
    DropTrailing(DropLeading(s, IsWhitespace), IsWhitespace)
  }

  /** The trimmed string is the contiguous piece of `s` that starts after the leading
      whitespace; only whitespace is cut away, and its ends are not whitespace. */
  lemma TrimSpec(s: string)
    ensures var i := |s| - |DropLeading(s, IsWhitespace)|;
      && i + |Trim(s)| <= |s|
      && Trim(s) == s[i..i + |Trim(s)|]
      && (forall k :: 0 <= k < i ==> IsWhitespace(s[k]))
      && (forall k :: i + |Trim(s)| <= k < |s| ==> IsWhitespace(s[k]))
      && (Trim(s) == [] || (!IsWhitespace(Trim(s)[0]) && !IsWhitespace(Trim(s)[|Trim(s)| - 1])))
  {
    var t := DropLeading(s, IsWhitespace);
    var r := Trim(s);
    var i := |s| - |t|;
    DropLeadingSpec(s, IsWhitespace);
    DropTrailingSpec(t, IsWhitespace);
    assert t == s[i..];
    assert s[i..][..|r|] == s[i..i + |r|];
    forall k | i + |r| <= k < |s| ensures IsWhitespace(s[k]) {
      assert s[k] == t[k - i];
    }
  }

  /** Trimming a string whose ends are not whitespace changes nothing. */
  lemma TrimNoop(s: string)
    requires s == [] || (!IsWhitespace(s[0]) && !IsWhitespace(s[|s| - 1]))
    ensures Trim(s) == s
  {
    assert DropLeading(s, IsWhitespace) == s;
    assert DropTrailing(s, IsWhitespace) == s;
  }

  /** ASCII lower-casing of one character. */
  function LowerChar(c: char): (d: char)
    ensures 'A' <= c <= 'Z' ==> 'a' <= d <= 'z' && d as int == c as int + 32
    ensures !('A' <= c <= 'Z') ==> d == c
  {
    if 'A' <= c <= 'Z' then (c as int + 32) as char else c
  }

  /** Lower-cases the ASCII upper-case letters of `s` and keeps everything else. */
  function ToLower(s: string): (r: string)
    ensures |r| == |s|
    ensures forall i :: 0 <= i < |s| ==> r[i] == LowerChar(s[i])
  {
    seq(|s|, i requires 0 <= i < |s| => LowerChar(s[i]))
  }

  /** Lower-casing fixes every character of a lower-cased string. */
  lemma LowerCharIdempotent(c: char)
    ensures LowerChar(LowerChar(c)) == LowerChar(c)
  {
  }

  /** `[String]::join(sep)`: the words with `sep` between consecutive ones. The text
      starts with the first word. */
  function JoinWith(ws: seq<string>, sep: string): (r: string)
    ensures ws == [] ==> r == ""
    ensures ws != [] ==> |ws[0]| <= |r| && r[..|ws[0]|] == ws[0]
  {
    if |ws| == 0 then ""
    else if |ws| == 1 then ws[0]
    else ws[0] + sep + JoinWith(ws[1..], sep)
  }

  /** The total number of characters of the words. */
  function Length(ws: seq<string>): nat
  {
    if ws == [] then 0 else |ws[0]| + Length(ws[1..])
  }

  /** Joining adds exactly one separator between consecutive words and nothing else. */
  lemma {:induction false} JoinWithLength(ws: seq<string>, sep: string)
    requires ws != []
    ensures |JoinWith(ws, sep)| == Length(ws) + |sep| * (|ws| - 1)
  {
    if |ws| == 1 {
      assert ws[1..] == [];
    } else {
      JoinWithLength(ws[1..], sep);
      assert |sep| * (|ws| - 1) == |sep| + |sep| * (|ws| - 2);
    }
  }

  /** Join with single spaces, as `join(" ")`: the words and one space between each
      two of them. */
  function Join(ws: seq<string>): (r: string)
    ensures ws == [] ==> r == ""
    ensures ws != [] ==> |r| == Length(ws) + |ws| - 1 && r[..|ws[0]|] == ws[0]
  {
    if ws != [] then JoinWithLength(ws, " "); JoinWith(ws, " ") else JoinWith(ws, " ")
  }

  /** The longest prefix of `s` free of ASCII whitespace. */
  function LeadingWord(s: string): (w: string)
    ensures |w| <= |s| && w == s[..|w|]
    ensures forall i :: 0 <= i < |w| ==> !IsAsciiWhitespace(w[i])
    ensures |w| == |s| || IsAsciiWhitespace(s[|w|])
    decreases |s|
  {
    if s == [] || IsAsciiWhitespace(s[0]) then []
    else
      var w := LeadingWord(s[1..]);
      assert forall i :: 1 <= i < |w| + 1 ==> ([s[0]] + w)[i] == w[i - 1];
      [s[0]] + w
  }

  /** Rust `str::split_ascii_whitespace`: the maximal runs of non-ASCII-whitespace
      characters, in order. */
  function SplitAsciiWhitespace(s: string): (ws: seq<string>)
    ensures forall i :: 0 <= i < |ws| ==> IsAsciiWord(ws[i])
    decreases |s|
  {
    if s == [] then []
    else if IsAsciiWhitespace(s[0]) then SplitAsciiWhitespace(s[1..])
    else
      var w := LeadingWord(s);
      [w] + SplitAsciiWhitespace(s[|w|..])
  }

  /** A word followed by nothing or by whitespace is the leading word. */
  lemma {:induction false} LeadingWordOf(w: string, t: string)
    requires forall i :: 0 <= i < |w| ==> !IsAsciiWhitespace(w[i])
    requires t == [] || IsAsciiWhitespace(t[0])
    ensures LeadingWord(w + t) == w
    decreases |w|
  {
    if w != [] {
      assert (w + t)[1..] == w[1..] + t;
      LeadingWordOf(w[1..], t);
    } else {
      assert w + t == t;
    }
  }

  /** Splitting undoes joining with single spaces, for words as the splitter yields them. */
  lemma {:induction false} SplitJoin(ws: seq<string>)
    requires forall i :: 0 <= i < |ws| ==> IsAsciiWord(ws[i])
    ensures SplitAsciiWhitespace(Join(ws)) == ws
    decreases |ws|
  {
    if |ws| == 1 {
      LeadingWordOf(ws[0], []);
      assert ws[0] + [] == ws[0];
      assert ws[0][|ws[0]|..] == [];
    } else if |ws| > 1 {
      var rest := Join(ws[1..]);
      var s := ws[0] + " " + rest;
      assert s == ws[0] + (" " + rest);
      LeadingWordOf(ws[0], " " + rest);
      assert s[|ws[0]|..] == " " + rest;
      assert (" " + rest)[1..] == rest;
      SplitJoin(ws[1..]);
      assert [ws[0]] + ws[1..] == ws;
    }
  }

  /** Every token of the corpus is a word of the ASCII-whitespace splitter. */
  lemma TokensAreAsciiWords(list: seq<string>)
    requires forall i :: 0 <= i < |list| ==> IsToken(list[i])
    ensures forall i :: 0 <= i < |list| ==> IsAsciiWord(list[i])
  {
  }
}
