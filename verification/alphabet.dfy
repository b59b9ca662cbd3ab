/**
 * The alphabet filter (`English` in src/main.rs): which characters count as
 * letters of the target language, and which strings are whole words.
 * The accented-letter extension is switched off in the source and is not modelled.
 */
module Alphabet {
  import opened Text

  /** First and last code point of the letter range (`English::start`, `English::end`). */
  const Start: int := 97
  const End: int := 122

  /** `English::is_range`: the code point lies in `Start..=End`. */
  predicate IsRange(letter: char)
    ensures IsRange(letter) <==> 'a' <= letter <= 'z'
    ensures IsRange(letter) ==> !IsWhitespace(letter) && Utf8Len(letter) == 1
    ensures IsRange(letter) ==> LowerChar(letter) == letter
  {
    Start <= letter as int <= End
  }

  /** The characters that the normaliser strips from the ends of a token. */
  predicate NonLetter(c: char)
  {
    !IsRange(c)
  }

  /** A word eligible for ranking: non-empty and made of letters only. */
  predicate IsWord(w: string)
  {
    |w| > 0 && forall i :: 0 <= i < |w| ==> IsRange(w[i])
  }

  /** `English::valid_english`: scans the characters, rejects at the first one out of
      range, and otherwise accepts exactly when the byte length is positive. */
  method ValidEnglish(input: string) returns (ok: bool)
    ensures ok <==> IsWord(input)
    ensures ok ==> Utf8Count(input) == |input|
  {
    for i := 0 to |input|
      invariant forall j :: 0 <= j < i ==> IsRange(input[j])
    {
      if !IsRange(input[i]) {
        return false;
      }
    }
    Utf8CountAscii(input);
    return Utf8Count(input) > 0;
  }
}
