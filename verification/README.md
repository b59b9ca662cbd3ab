# bookTore in Dafny

bookTore reads a corpus of public-domain books and builds a positional index of its
words. Each token is normalised to a lower-case word with no non-letter characters
at either end. The words are then ranked, and for each word a report shows up to
three short snippets of the context it occurs in.

This project models that pipeline from `src/main.rs`, leaving out its file I/O, in
seven modules:

- `Text` (text.dfy): the string primitives the program relies on. These are UTF-8
  byte length (`str::len`, `char::len_utf8`), Unicode-whitespace `trim`, ASCII
  lower-casing, `join`, and `split_ascii_whitespace`. It also proves that splitting
  joined words returns the words.
- `Alphabet` (alphabet.dfy): `English::is_range` and `English::valid_english`.
- `Normalize` (normalize.dfy): `Str::rm_start`, `Str::rm_end`, `Str::rm_start_end`
  and `parse_word`. `rm_start` and `rm_end` are loops that keep a byte offset.
  `rm_start`'s offset is proved to be the UTF-8 length of the leading part cut
  away, and `rm_end`'s the UTF-8 length of the part kept, so both slices fall on
  character boundaries.
- `PositionalIndex` (index.dfy): the index (`Inner`) and `parse_content`. The
  `IndexMap` is a key sequence in insertion order plus a map from each key to its
  position list. The loop is proved equal to a definition in terms of the
  normalised token sequence.
- `Window` (window.dfy): `get_sentence_end`, `get_sentence_start`,
  `compose_sentence` and `stitch_words_sentences`.
- `Rank` (rank.dfy): the three rankers. The stable `sort_by` of the popularity
  ranker is modelled as a stable insertion sort by count, largest first. The model
  proves it sorted, a permutation, and stable.
- `Report` (report.dfy): the loop of `main` that builds `release`, the numbering of
  the records from 1, and the text joined for `data.on`.

The token list is an input; it is what `split_whitespace` yields on the corpus, so
each token is non-empty and free of whitespace (`IsToken`). The word list of
`get_word_file` is an input as well.

`SENTENCE_START = 3` suggests three tokens of left context, but
`stitch_words_sentences` calls `get_sentence_start(index - 1, index, …)`
(src/main.rs:157), which slices `list[max(0, index - 4)..index]`: up to four tokens.
The model follows the code (`Window.LeftContext`, `Window.SnippetParts`).

## Model

| member | source | states |
|---|---|---|
| Text.Utf8Len | src/main.rs:55 | `len_utf8` is 1 to 4 bytes, and 1 exactly for code points below 0x80 |
| Text.Utf8Count | src/main.rs:80-82 | `utf_count` lies between the character count and four times it, and is 0 only for the empty string |
| Text.Utf8CountAppend | src/main.rs:80-82 | the byte count of a concatenation is the sum of the byte counts |
| Text.Utf8CountAscii | src/main.rs:168 | for ASCII text the byte length `len()` equals the number of characters |
| Text.TrimSpec | src/main.rs:120 | `trim` returns the contiguous piece left after cutting whitespace from both ends, and its ends are not whitespace |
| Text.TrimNoop | src/main.rs:120 | trimming a string whose ends are not whitespace returns it unchanged |
| Text.Trim | src/main.rs:120 | `trim` never lengthens the string; what it cuts and keeps is stated by `Text.TrimSpec` and `Text.TrimNoop` (also used for the example block at src/main.rs:252) |
| Text.ToLower | src/main.rs:120 | lower-casing keeps the length and maps each character on its own, each of A-Z to the letter 32 code points higher in a-z, everything else unchanged |
| Text.LowerCharIdempotent | src/main.rs:120 | lower-casing twice is lower-casing once |
| Text.JoinWith | src/main.rs:270 | `join(sep)` of no words is ""; otherwise the text starts with the first word; `Text.JoinWithLength` and `Text.SplitJoin` carry the rest |
| Text.JoinWithLength | src/main.rs:95 | joining adds exactly one separator between consecutive words: the length is the words' total plus one separator fewer than there are words |
| Text.Join | src/main.rs:153 | `join(" ")` of no words is ""; otherwise the words plus one space between each two, starting with the first word; `Text.SplitJoin` shows splitting gives the words back |
| Text.SplitJoin | src/main.rs:95 | splitting on ASCII whitespace the words that `join(" ")` put together returns those words |
| Text.LeadingWordOf | src/main.rs:146 | the splitter reads a whitespace-free prefix up to the next whitespace as one word |
| Text.SplitAsciiWhitespace | src/main.rs:146 | `split_ascii_whitespace` yields non-empty words free of ASCII whitespace; `Text.SplitJoin` shows it undoes `join(" ")` |
| Alphabet.IsRange | src/main.rs:27-36 | with `SPANISH` false, a character is a letter iff its code point is in 97..=122; letters are one byte and are not whitespace |
| Alphabet.ValidEnglish | src/main.rs:38-45 | the loop accepts iff the input is non-empty and every character is a letter; an accepted word has as many bytes as characters |
| Normalize.RmStart | src/main.rs:49-62 | returns the input without its leading non-letters; the byte offset it slices at is the UTF-8 length of what was cut |
| Normalize.RmEnd | src/main.rs:63-76 | returns the input without its trailing non-letters; the byte offset, started at `utf_count(input)`, ends as the UTF-8 length of the result |
| Normalize.RmStartEnd | src/main.rs:77-79 | `rm_end` after `rm_start` never lengthens the input; its guarantees are `Normalize.RmStartEndSpec`, `Normalize.RmStartEndNoLetters` and `Normalize.RmStartEndIdempotent` |
| Normalize.RmStartEndSpec | src/main.rs:77-79 | the result is the contiguous substring starting after the leading non-letters; only non-letters are cut; it is empty or starts and ends with a letter |
| Normalize.RmStartEndNoLetters | src/main.rs:77-79 | an input without letters yields "" |
| Normalize.RmStartEndIdempotent | src/main.rs:77-79 | stripping a second time changes nothing |
| Normalize.ParseWord | src/main.rs:119-122 | trim, lower-case, strip non-letters; never lengthens the token; its guarantees are `Normalize.ParseWordEnds`, `Normalize.ParseWordLowered`, `Normalize.ParseWordIdempotent` and `Normalize.ParseWordNoLetters` |
| Normalize.ParseWordEnds | src/main.rs:119-122 | a normalised word is empty or starts and ends with a letter |
| Normalize.ParseWordLowered | src/main.rs:119-122 | a normalised word is already lower-case |
| Normalize.ParseWordIdempotent | src/main.rs:119-122 | normalising a normalised word returns it unchanged |
| Normalize.ParseWordNoLetters | src/main.rs:119-122 | a token with no ASCII letter of either case normalises to "" |
| PositionalIndex.NormalizedAt | src/main.rs:128-129 | the word at position `i` of the normalised sequence is `parse_word` of token `i` |
| PositionalIndex.PositionsMembers | src/main.rs:130-136 | a position is in the list of a word iff the word occurs at that position |
| PositionalIndex.PositionsIncreasing | src/main.rs:131 | position lists are strictly increasing |
| PositionalIndex.FirstSeenMembers | src/main.rs:136 | the key order holds each word that occurs, exactly once |
| PositionalIndex.Snoc | src/main.rs:130-137 | one more token appends its position to its word's list, and appends the word to the key order if it is new |
| PositionalIndex.StoreOf | src/main.rs:125-138 | the store has a key exactly for each word that occurs |
| PositionalIndex.PushKeepsBuilt | src/main.rs:130-131 | pushing the position onto an existing entry keeps the store equal to the index of the tokens seen |
| PositionalIndex.InsertKeepsBuilt | src/main.rs:132-136 | inserting a new word with a one-element list keeps the store and the key order equal to the index of the tokens seen |
| PositionalIndex.IndexOfValid | src/main.rs:114-117 | the index's key order lists every key of the store exactly once |
| PositionalIndex.ParseContent | src/main.rs:124-141 | the loop builds exactly the index of the normalised tokens, and keeps the token list |
| PositionalIndex.PositionInExactlyOneEntry | src/main.rs:128-138 | every position is in the entry of `parse_word` of its token and in no other, including the entry "" |
| PositionalIndex.EntriesAreIncreasing | src/main.rs:128-138 | every entry is non-empty, strictly increasing, and lists positions within the token list whose token normalises to the key |
| PositionalIndex.FirstSeenOrder | src/main.rs:136 | keys appear in the order of their first occurrence |
| PositionalIndex.HeadIsFirstOccurrence | src/main.rs:133-136 | the head of a position list is the first occurrence of its word |
| PositionalIndex.KeysInFirstOccurrenceOrder | src/main.rs:124-141 | the first positions of the keys increase along the key order, and no token before a key's first position normalises to it |
| Window.GetSentenceEnd | src/main.rs:85-96 | returns "" when the index is past the end, otherwise joins `list[i..min(i+9, len)]` with spaces |
| Window.GetSentenceStart | src/main.rs:97-108 | returns "" for a negative index, otherwise joins `list[max(0, i-3)..end]` with spaces |
| Window.TotalBytesSnoc | src/main.rs:148 | the running total grows by the byte length of each word |
| Window.TakeWithinSpec | src/main.rs:145-151 | the `take_while` keeps a prefix whose bytes fit the budget of 50, and the first word left out is the one that pushed the total over |
| Window.TakeWithinStep | src/main.rs:147-150 | one test of the `take_while`: a word that overflows the budget ends the kept words, a word that fits is kept and its bytes added to the total |
| Window.ComposeSentence | src/main.rs:143-154 | the loop over the split words returns the kept prefix joined with spaces |
| Window.FitBudgetWholeWords | src/main.rs:143-154 | the result splits back into a prefix of the input words (no word is cut) of at most 50 bytes, and the next word would overflow |
| Window.StitchWordsSentences | src/main.rs:156-163 | returns left context, ", ", the token, a space, the budgeted right context and " \n" |
| Window.LeftContext | src/main.rs:157 | the left part holds exactly the up to four tokens before `index`: never the token itself, nothing below 0 |
| Window.RightContext | src/main.rs:85-96 | the right window splits back into exactly the up to nine following tokens |
| Window.SnippetParts | src/main.rs:156-163 | a snippet in terms of the token list alone: four tokens back, the token, and the budgeted prefix of the nine following |
| Rank.GetInsertionSort | src/main.rs:219-225 | returns every entry of the index, in key order |
| Rank.InsertionCoversIndex | src/main.rs:219-225 | the insertion ranking names every key exactly once, each with its own position list |
| Rank.KeysOfEntries | src/main.rs:221-222 | the words of the insertion ranking are exactly the keys of the store |
| Rank.EligibleLongWord | src/main.rs:168 | the filter's byte length `> 1` means at least two letters for an English word |
| Rank.FilterEligibleMembers | src/main.rs:167-171 | the filter keeps exactly the entries that pass `valid_english` and have more than one byte |
| Rank.InsertByCountPermutes | src/main.rs:173 | an insertion step adds exactly the inserted entry |
| Rank.InsertByCountSorted | src/main.rs:173 | an insertion step keeps the list sorted by count, largest first |
| Rank.SortByCountDescSorted | src/main.rs:173 | the sort orders by count, largest first, and is a permutation |
| Rank.InsertByCountStable | src/main.rs:173 | an insertion step puts the entry before the entries of equal count |
| Rank.SortByCountDesc | src/main.rs:173 | the stable sort by count, largest first, keeps the length; `Rank.SortByCountDescSorted` and `Rank.SortByCountDescStable` state that it is sorted, a permutation and stable |
| Rank.SortByCountDescStable | src/main.rs:173 | the sort is stable: entries of equal count keep their order |
| Rank.GetPopularitySort | src/main.rs:165-177 | the loop collects the eligible entries in key order, then sorts them by count |
| Rank.PopularityRanking | src/main.rs:165-177 | the ranking holds exactly the eligible entries, sorted by count, largest first, with equal counts in key order |
| Rank.GetWordFile | src/main.rs:203-217 | the loop keeps, in list order, the listed words that are keys of the index, each with its positions |
| Rank.ListedMembers | src/main.rs:208-213 | an entry is in the word-list ranking iff its word is listed, is a key, and has that key's positions |
| Report.SnippetsSnoc | src/main.rs:247-250 | the fold appends each snippet to the text built so far |
| Report.ExamplesShowFirstTake | src/main.rs:243-246 | only the first `TAKE = 3` positions of a word reach its example block |
| Report.ExamplesTrimmed | src/main.rs:252 | the example block ends with one newline after the trimmed snippets, with no whitespace at either end of the text |
| Report.ReleaseAt | src/main.rs:242-254 | element `i` of the release is the `i`-th ranked word with its example block |
| Report.BuildRelease | src/main.rs:241-254 | the nested loop builds exactly the release of the ranked entries |
| Report.DecimalRoundTrip | src/main.rs:262 | the decimal digits of a number read back as that number, with no leading zero |
| Report.Decimal | src/main.rs:262 | the `{}` of a number is a non-empty string of decimal digits whose first digit is 0 only for 0; `Report.DecimalRoundTrip` shows it reads back as the number |
| Report.LeadingDigitsOf | src/main.rs:261 | the digits before ": " are read as the record number |
| Report.RecordsNumbered | src/main.rs:255-267 | record `i` is a newline, the indentation, the number `i + 1`, ": ", the word, a newline and the example block |
| Report.Numbered | src/main.rs:259-265 | a record starts with a newline and the 28-space indentation, and the number after them reads back as `index + 1` |
| Report.Records | src/main.rs:255-267 | one record per element of the release, record `i` numbered `i + 1`; `Report.RecordsNumbered` and `Report.DataRecords` give the full record |
| Report.DataText | src/main.rs:270 | the `join("\n")` of the records is empty exactly when the release is, and otherwise starts with the first record's newline and indentation |
| Report.StoreInList | src/main.rs:128-138 | every position in the index lies within the token list |
| Report.RankedInList | src/main.rs:165-177 | the popularity ranking only holds positions within the token list, so every snippet exists |
| Report.InsertionInList | src/main.rs:219-225 | the insertion ranking only holds positions within the token list |
| Report.ListedInList | src/main.rs:203-217 | the word-list ranking only holds positions within the token list |
| Report.Run | src/main.rs:233-270 | indexing, popularity ranking, release and numbering give the text written to `data.on` |
| Report.DataRecords | src/main.rs:241-267 | there is one record per ranked word, in ranked order, numbered `index + 1` |
| Report.EmptyCorpus | src/main.rs:233-270 | an empty corpus gives an empty report |

## Left out

- File and directory reading is not modelled. This covers `get_public_domain_books`
  and `get_content_single_file`. The corpus tokens and the word list are
  parameters instead.
- The exports are not modelled: the writes of `palabras.on` in the popularity and
  word-list rankers, and the write of `data.on`. The model computes the text of
  `data.on` (`Report.Data`) but not the write itself.
- The bootstrap that creates the four files, and the `println!` of the record
  count, are not modelled.
- `get_spanish` is not modelled. `SPANISH` is false, so it is never called, and
  `IsRange` is the 97..=122 test alone.
- `split_whitespace` of the corpus is not modelled: the tokens are given. The
  `split_ascii_whitespace` of `compose_sentence` is modelled.
- Text.ToLower: lower-casing is ASCII only; Unicode `to_lowercase`, which can change
  length, is not modelled. In practice, Rust maps U+212A KELVIN SIGN to ASCII `k`
  and U+0130 to `i` followed by U+0307. A token made of the Kelvin sign therefore
  normalises to "k" in the program but to "" in the model, and
  `Normalize.ParseWordNoLetters` holds only for the model. Capitals beyond ASCII
  inside a word give different keys: "CAFÉS" becomes "cafés" in the program and
  "cafÉs" in the model.
- The literal `match "popularity"` in `main` is not modelled as such. It always
  selects the popularity ranker, so `Report.Run` uses that ranker. The other two
  are modelled as separate operations. `Report.BuildRelease` accepts any of the
  three: `Report.RankedInList`, `Report.InsertionInList` and `Report.ListedInList`
  prove that each ranking meets its precondition.
- The panics of Rust slicing and indexing are preconditions in the model. They
  concern `Window.GetSentenceStart` (the slice up to `end_at`),
  `Window.StitchWordsSentences` (`inner.list[index]`) and `Report.BuildRelease`.
  The precondition of `Report.BuildRelease` (and of `Report.Release`,
  `Report.Examples`, `Report.Snippets`) is stronger than the panic: it asks every
  position of every entry to be in range, while `main` only indexes the first
  `TAKE` positions of each entry. Every call site meets the stronger condition:
  `Report.RankedInList`, `Report.InsertionInList` and `Report.ListedInList` prove it
  for the three rankings, so the program never panics there and no result changes.
- `usize`/`isize` overflow is not modelled: indices are unbounded.
- The internals of `IndexMap` are not modelled: it is a key sequence without
  duplicates plus a map.
- Rank.GetPopularitySort: `sort_by` sorts the vector in place; the model sorts a
  value with a stable insertion sort. It is proved sorted, a permutation and
  stable, which determines the result, but not the in-place update.
