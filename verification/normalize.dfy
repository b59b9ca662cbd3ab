/**
 * The token normaliser (`Str` and `parse_word` in src/main.rs): strips leading and
 * trailing non-letters from a token after trimming and lower-casing it.
 * `rm_start` and `rm_end` walk the string character by character while keeping a
 * byte offset. The model keeps both: `rm_start`'s offset is proved to be the UTF-8
 * length of the leading part cut away, and `rm_end`'s the UTF-8 length of the part
 * kept, so both slices fall on character boundaries.
 */
module Normalize {
  import opened Text
  import opened Alphabet

  /** `Str::rm_start`: returns the input without its leading non-letters, and the
      byte offset at which the source slices it. */
  method RmStart(input: string) returns (r: string, start: nat)
    ensures r == DropLeading(input, NonLetter)
    ensures start == Utf8Count(input[..|input| - |r|])
  {
    start := 0;
    var k := 0;
    while k < |input|
      invariant 0 <= k <= |input|
      invariant start == Utf8Count(input[..k])
      invariant DropLeading(input[k..], NonLetter) == DropLeading(input, NonLetter)
    {
      var letter := input[k];
      if !IsRange(letter) {
        assert input[..k + 1][..k] == input[..k];
        start := start + Utf8Len(letter);
      } else {
        return input[k..], start;
      }
      assert input[k..][1..] == input[k + 1..];
      k := k + 1;
    }
    return input[k..], start;
  }

  /** `Str::rm_end`: returns the input without its trailing non-letters, and the byte
      offset at which the source cuts it, which starts at `Str::utf_count(input)`. */
  method RmEnd(input: string) returns (r: string, end: nat)
    ensures r == DropTrailing(input, NonLetter)
    ensures end == Utf8Count(r)
  {
    end := Utf8Count(input);
    var j := |input|;
    assert input[..j] == input;
    while j > 0
      invariant 0 <= j <= |input|
      invariant end == Utf8Count(input[..j])
      invariant DropTrailing(input[..j], NonLetter) == DropTrailing(input, NonLetter)
    {
      var letter := input[j - 1];
      if !IsRange(letter) {
        end := end - Utf8Len(letter);
      } else {
        return input[..j], end;
      }
      assert input[..j][..j - 1] == input[..j - 1];
      j := j - 1;
    }
    return input[..j], end;
  }

  /** `Str::rm_start_end`: `rm_end` applied to the result of `rm_start`. */
  function RmStartEnd(input: string): (r: string)
    ensures |r| <= |input|
  {
    DropTrailing(DropLeading(input, NonLetter), NonLetter)
  }

  /** Where the normalised form starts in its input: after the leading non-letters. */
  function CutStart(input: string): (i: nat)
    ensures i <= |input|
  {
    |input| - |DropLeading(input, NonLetter)|
  }

  /** The normalised form is the contiguous piece of the input that starts at
      `CutStart(input)`; only non-letters are cut away on either side, and the
      result is empty or starts and ends with a letter. */
  lemma RmStartEndSpec(input: string)
    ensures var i, r := CutStart(input), RmStartEnd(input);
      && i + |r| <= |input|
      && r == input[i..i + |r|]
      && (forall k :: 0 <= k < i ==> !IsRange(input[k]))
      && (forall k :: i + |r| <= k < |input| ==> !IsRange(input[k]))
      && (r == [] || (IsRange(r[0]) && IsRange(r[|r| - 1])))
  {
    var t := DropLeading(input, NonLetter);
    var r := RmStartEnd(input);
    var i := CutStart(input);
    DropLeadingSpec(input, NonLetter);
    DropTrailingSpec(t, NonLetter);
    assert t == input[i..];
    assert input[i..][..|r|] == input[i..i + |r|];
    forall k | i + |r| <= k < |input| ensures !IsRange(input[k]) {
      assert input[k] == t[k - i];
    }
  }

  /** A token without any letter normalises to the empty string. */
  lemma RmStartEndNoLetters(input: string)
    requires forall i :: 0 <= i < |input| ==> !IsRange(input[i])
    ensures RmStartEnd(input) == ""
  {
    DropLeadingSpec(input, NonLetter);
  }

  /** Stripping a second time changes nothing. */
  lemma RmStartEndIdempotent(input: string)
    ensures RmStartEnd(RmStartEnd(input)) == RmStartEnd(input)
  {
    var r := RmStartEnd(input);
    RmStartEndSpec(input);
    assert DropLeading(r, NonLetter) == r;
    assert DropTrailing(r, NonLetter) == r;
  }

  /** `parse_word`: trim, lower-case, then strip non-letters from both ends. */
  function ParseWord(word: string): (r: string)
    ensures |r| <= |word|
  {
    RmStartEnd(ToLower(Trim(word)))
  }

  /** The normalised word is empty or starts and ends with a letter. */
  lemma ParseWordEnds(word: string)
    ensures var r := ParseWord(word); r == [] || (IsRange(r[0]) && IsRange(r[|r| - 1]))
  {
    RmStartEndSpec(ToLower(Trim(word)));
  }

  /** The normalised word is already lower-case: lower-casing fixes each character. */
  lemma ParseWordLowered(word: string)
    ensures forall k :: 0 <= k < |ParseWord(word)| ==> LowerChar(ParseWord(word)[k]) == ParseWord(word)[k]
  {
    var lower := ToLower(Trim(word));
    var r := ParseWord(word);
    var i := CutStart(lower);
    RmStartEndSpec(lower);
    forall k | 0 <= k < |r| ensures LowerChar(r[k]) == r[k] {
      assert r[k] == lower[i + k];
      LowerCharIdempotent(Trim(word)[i + k]);
    }
  }

  /** Normalising a normalised word returns it unchanged. */
  lemma ParseWordIdempotent(word: string)
    ensures ParseWord(ParseWord(word)) == ParseWord(word)
  {
    var lower := ToLower(Trim(word));
    var r := ParseWord(word);
    assert Trim(r) == r by {
      ParseWordEnds(word);
      TrimNoop(r);
    }
    assert ToLower(r) == r by {
      ParseWordLowered(word);
    }
    assert RmStartEnd(r) == r by {
      RmStartEndIdempotent(lower);
    }
  }

  /** A token without any letter, in either case, normalises to the empty string. */
  lemma ParseWordNoLetters(word: string)
    requires forall i :: 0 <= i < |word| ==> !('a' <= word[i] <= 'z') && !('A' <= word[i] <= 'Z')
    ensures ParseWord(word) == ""
  {
    var t := Trim(word);
    TrimSpec(word);
    RmStartEndNoLetters(ToLower(t));
  }
}
