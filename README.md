# Vocabulary extraction and OCR text clean-up, in Dafny

This project models two string-processing parts of a small tool that turns a scanned
vocabulary book, delivered as a PDF, into a table of entries. It also proves what those
parts promise.

- **The page parser** is `process_page_text` in tesscreact.py, together with the page loop of
  `extract_vocabulary_from_pdf`.
  - A page's text is split into lines, and each line is stripped.
  - A line that starts with a serial number, whitespace, a capitalised word and whitespace
    (`^(\d+)\s+([A-Z][a-z]+)\s+`) opens a new entry. The serial and the word become the
    entry's S.No. and Word, and the rest of the line becomes its Meaning.
  - A later line that contains a character of the Devanagari block (U+0900 to U+097F)
    overwrites the open entry's Hindi column with its first run of Devanagari-or-whitespace
    characters, stripped. It also overwrites Difficulty with the line's trailing digits, but
    only when the line ends in a digit.
  - Any other later line is appended to Meaning after one space.
  - Lines before the first header line are ignored.
  - A final pass deletes every Devanagari character from each Meaning, strips it, then
    deletes one trailing whitespace-and-digits group and strips again.
  - The page loop processes every page, or the listed page numbers in the given order. It
    skips numbers past the last page and concatenates the entries of the pages it processes.
- **The text clean-up** is `clean_text` in ocr.py, four rewrites in sequence:
  1. Delete `(cid:N)` glyph placeholders, in one left-to-right pass.
  2. Delete from each `Â©` to the end of its line.
  3. Turn line breaks into spaces.
  4. Collapse every whitespace run to one space, then strip.

The project has six files, one module each:

- **`text.dfy` (`Text`)**: Python's character classes and string helpers, written out:
  - `\s` and `str.isspace`;
  - `\d`;
  - the Devanagari block;
  - `str.strip`;
  - `str.split` and `str.join` on one character.
- **`ocr.dfy` (`Ocr`)**: `clean_text` as composed functions, each with lemmas.
  - `RemoveCid` is the substitution at ocr.py:16, `RemoveCopyright` the one at ocr.py:17,
    and `CleanText` the whole of ocr.py:14-24. These are definitions; the rows below state
    what is proved about them.
  - `Words` is Python's `str.split()` with no argument: the maximal runs of non-whitespace
    characters, in order. The whitespace steps are proved against it.
- **`entry_fields.dfy` (`EntryFields`)**: four of the five regular expressions that
  `process_page_text` applies, written as functions that find maximal runs.
  - `MatchHeader` is the header pattern (tesscreact.py:57, applied at 63).
  - The fifth, the Devanagari deletion at tesscreact.py:110, is the character filter in
    `MeaningBase`, part of the clean-up of a meaning.
- **`vocabulary.dfy` (`Vocabulary`)**: the code itself, as imperative methods.
  - `ProcessPageText` holds the line loop, the final append and the in-place clean-up loop.
    `ProcessLine` is the line loop's body and `CleanUp` is the clean-up loop.
  - `ExtractVocabulary` is the page loop.
  - `ProcessPageText` is proved equal to the function `ProcessPage`, which folds `Step`, the
    parser's state transition, over the classified lines and then cleans each entry.
  - `ExtractVocabulary` is proved equal to the function `Gather`, which runs over the
    selected page numbers and extends the result with each named page's entries.
  - Some functions here are plain definitions that the proved rows build on:
    - `Classify`: how the line loop sorts a stripped line (tesscreact.py:63-96);
    - `Opened`: the entry a header line opens;
    - `PageLines`: the stripped lines of a page;
    - `CleanEntries`: every entry cleaned;
    - `Upto`: `range(n)`;
    - `PageResults`: each page's parse.
  - `GatherNext` and `VocabularyFacts.OnePage` only unfold `Gather` one step, for the loop
    proof and for a single page number.
- **`vocabulary_facts.dfy` (`VocabularyFacts`)**: a second, declarative account of a page.
  - A page is read as blocks, each a header line followed by its continuation lines.
  - `ScanBlocks` proves this account equal to the state machine.
  - The remaining lemmas derive from it the properties the parser and the page loop promise.
- **`worked_cases.dfy` (`WorkedCases`)**: concrete inputs with their proved outputs.

Two behaviours of the code are easy to miss.

- **A translation and score on the header line.** The code fills the Hindi and Difficulty
  columns only from continuation lines (tesscreact.py:75-100). When a header line such as
  `12 Apple a common fruit सेब 5` also carries a translation and a score, both stay in the
  meaning. The clean-up then deletes them, and Hindi and Difficulty stay empty.
  `WorkedCases.OneLineEntry` proves this behaviour on an example of that shape.
- **A blank translation.** The translation search (tesscreact.py:89) takes the leftmost run
  of Devanagari *or whitespace* characters. On a line such as `a b सेब`, that run is the
  single space after `a`, so the translation becomes the empty string.
  `WorkedCases.BlankTranslation` proves this behaviour.

## Model

| member | source | states |
|---|---|---|
| Text.Strip | tesscreact.py:60 | the result is a slice of the line with only whitespace cut from either end, and it neither starts nor ends with whitespace |
| Text.StripKeeps | ocr.py:23 | stripping deletes whitespace only: the non-whitespace characters are unchanged, in order |
| Text.StripStripped | tesscreact.py:111 | stripping text that has no whitespace at either end leaves it unchanged |
| Text.Split | tesscreact.py:52 | `text.split('\n')` has at least one part, no part holds a line break, and joining the parts with line breaks gives back the text |
| Text.SplitJoin | tesscreact.py:52 | splitting a join of parts without line breaks gives back exactly those parts |
| EntryFields.MatchHeaderSound | tesscreact.py:57-73 | whenever the header pattern matches, the line is laid out as digits, whitespace, a capital followed by small letters, whitespace, and then the rest; the groups are the digits and the word, and the rest starts right after the whitespace |
| EntryFields.MatchHeaderComplete | tesscreact.py:57-73 | every line with that layout is matched, and its groups and rest are exactly those of the layout |
| EntryFields.FirstHindiRun | tesscreact.py:89-91 | no match exactly when the line has no Devanagari or whitespace character; otherwise the match is the leftmost maximal run of them |
| EntryFields.TrailingDigits | tesscreact.py:94-96 | a match exactly when the line ends in a digit, and then it is the whole maximal run of digits at the end |
| EntryFields.DropTrailingNumber | tesscreact.py:114 | the result is a prefix of the meaning; when it is shorter, what was cut is whitespace followed by digits up to the end, and the kept part does not end in whitespace |
| EntryFields.DropTrailingNumberNoMatch | tesscreact.py:114 | when nothing is cut, no suffix of the meaning is whitespace followed by digits |
| EntryFields.DropTrailingNumberExact | tesscreact.py:114 | a meaning ending in whitespace followed by digits, after a non-whitespace character, loses exactly that group |
| EntryFields.CleanMeaning | tesscreact.py:109-114 | a cleaned meaning has no Devanagari character and no whitespace at either end; it is the Devanagari-free stripped meaning, less at most one trailing whitespace-and-digits group |
| EntryFields.CleanMeaningDropsNumber | tesscreact.py:114 | a clean meaning ending in whitespace and digits after a non-whitespace character loses exactly that group |
| Vocabulary.CleanEntry | tesscreact.py:107-114 | clean-up changes only the meaning, and leaves it free of Devanagari characters and of whitespace at either end |
| Vocabulary.ProcessLine | tesscreact.py:62-100 | one turn of the line loop performs `Step` on the classified line: a header line closes the open entry and opens a new one; any other line updates the open entry, if there is one |
| Vocabulary.ProcessPageText | tesscreact.py:42-116 | the line loop, the final append and the in-place clean-up loop compute `ProcessPage(text)`, and every meaning returned is free of Devanagari characters and stripped |
| Vocabulary.CleanUp | tesscreact.py:107-114 | the in-place loop over the entries leaves each entry as `CleanEntry` makes it |
| Vocabulary.ExtractVocabulary | tesscreact.py:17-36 | the page loop's result is `Gather` of the page results over the selected page numbers |
| VocabularyFacts.BodyScan | tesscreact.py:82-100 | continuation lines only update the open entry: the meaning gains their appended text, and Hindi and Difficulty take the last values found |
| VocabularyFacts.GroupsScan | tesscreact.py:59-104 | from the first header line on, the parser emits one entry per block, in order |
| VocabularyFacts.ScanBlocks | tesscreact.py:52-104 | the line loop and the final append produce exactly the entries of the blocks (`EntryOf`), in order |
| VocabularyFacts.ParsePageBlocks | tesscreact.py:52-104 | the raw entries of a page are those of the blocks of its classified lines |
| VocabularyFacts.BlocksHeads | tesscreact.py:57-67 | the blocks correspond one to one, in order, to the header lines |
| VocabularyFacts.ProcessPageHeaders | tesscreact.py:57-81 | a page has as many entries as header lines, in order; each entry's serial and word are its header line's two groups, and each meaning is free of Devanagari characters and stripped (clean-up lines 103-114) |
| VocabularyFacts.NoHeaderNoEntries | tesscreact.py:52-82 | a page without a header line gives no entries |
| VocabularyFacts.EmptyPage | tesscreact.py:52 | the empty page gives no entries, since splitting it gives one empty line |
| VocabularyFacts.LinesBeforeHeader | tesscreact.py:59-82 | lines before the first header line contribute nothing |
| VocabularyFacts.OpenIffHeader | tesscreact.py:54-82 | an entry is open exactly when a header line has been seen |
| VocabularyFacts.ContinuationLine | tesscreact.py:82-100 | after a header line, any other line keeps the number of entries and every entry but the last, and updates the last as `Continue` says |
| VocabularyFacts.PlainLineAppends | tesscreact.py:97-100 | a continuation line without a Devanagari character is never dropped: it is appended to the last meaning after one space, and nothing else changes |
| VocabularyFacts.TranslationLineSets | tesscreact.py:85-96 | a continuation line with a Devanagari character keeps the meaning; it sets Hindi to its stripped first run, and sets Difficulty to its trailing digits only when it ends in a digit (otherwise Difficulty keeps its old value) |
| VocabularyFacts.HindiRunExists | tesscreact.py:87-90 | a line with a Devanagari character always has a first run, so the translation search always finds one |
| VocabularyFacts.LatestHindiWins | tesscreact.py:89-91 | the translation comes from the last translation line of the block |
| VocabularyFacts.LatestDifficultyWins | tesscreact.py:94-96 | the score comes from the last translation line of the block that ends in digits |
| VocabularyFacts.OnlyContinuationSets | tesscreact.py:75-96 | Hindi and Difficulty start empty and only continuation lines set them: a block with no translation line gives an entry with both empty |
| VocabularyFacts.AllPages | tesscreact.py:21-36 | without page numbers, the result is the entries of every page, in page order |
| VocabularyFacts.GatherAppend | tesscreact.py:26-36 | the result for a list of page numbers is the concatenation of the results for its parts |
| VocabularyFacts.GatherConcat | tesscreact.py:26-36 | for every list of page numbers, the page loop's result is the concatenation, in the order given, of each number's contribution: the entries of the page it names, or nothing when it is past the last page |
| VocabularyFacts.SkipsMissingPage | tesscreact.py:26-29 | a page number past the last page can be dropped from the list without changing the result |
| WorkedCases.CleanMeaningNotIdempotent | tesscreact.py:114 | the clean-up removes one trailing number only: "a 1 2" becomes "a 1", and cleaning again gives "a" |
| WorkedCases.OneLineEntry | tesscreact.py:57-114 | the page `12 Apple red सेब 5` gives one entry with meaning "red" and empty Hindi and Difficulty |
| WorkedCases.BlankTranslation | tesscreact.py:87-91 | the line `a b सेब` is a translation line whose translation is empty |
| WorkedCases.ThreeLineEntry | tesscreact.py:52-116 | the page with lines `12 Apple red`, `सेब 5` and `fruit` gives the entry (12, Apple, "red fruit", सेब, 5) |
| Ocr.CidAt | ocr.py:16 | a placeholder found at the start of the text is `(cid:`, digits and `)`, and it is the only placeholder that starts there |
| Ocr.RemoveCidKeeps | ocr.py:16 | the deletion removes only characters a placeholder can hold: every other character survives, in order |
| Ocr.RemoveCidDeletes | ocr.py:16 | a placeholder is deleted, and the text before it kept, whenever no placeholder starts inside that text |
| Ocr.RemoveCidAfterParen | ocr.py:16 | a `(` that opens no placeholder does not stop the next one from being deleted: "(a(cid:1)" becomes "(a" |
| Ocr.RemoveCidNone | ocr.py:16 | text in which no placeholder starts passes unchanged |
| Ocr.RemoveCidNoParen | ocr.py:16 | text without `(` passes unchanged |
| Ocr.RemoveCidSinglePass | ocr.py:16 | the pass runs once: "((cid:1)cid:2)" becomes "(cid:2)", which is itself a placeholder |
| Ocr.CutLine | ocr.py:17 | a line keeps its prefix up to its first "Â©", which contains no "Â©" |
| Ocr.RemoveCopyrightPerLine | ocr.py:17 | the lines of the result are the lines of the text, each cut at its first "Â©"; line breaks and later lines survive |
| Ocr.RemoveCopyrightNone | ocr.py:17 | text without "Â" passes unchanged |
| Ocr.NewlinesToSpaces | ocr.py:20 | no line break is left; the length, the whitespace positions and every other character are kept |
| Ocr.CollapseSpaces | ocr.py:23 | every whitespace character left is a plain space, none is next to another, and the result is empty only for empty text |
| Ocr.CollapseWords | ocr.py:23 | collapsing gives the words of the text joined by single spaces, with one more space where the text starts with whitespace and one where it ends with whitespace after a word |
| Ocr.CollapseAndStripWords | ocr.py:23 | `re.sub(r"\s+", " ", s).strip()` is exactly `" ".join(s.split())` |
| Ocr.WordsSameSpaces | ocr.py:20 | turning line breaks into spaces leaves the words unchanged, as does any rewrite that keeps the whitespace positions and the other characters |
| Ocr.CollapseKeeps | ocr.py:23 | collapsing keeps the non-whitespace characters exactly, in order |
| Ocr.CollapseFixed | ocr.py:23 | single-spaced text is left as it is |
| Ocr.CollapseAndStripShape | ocr.py:23 | collapsing and stripping gives the words joined by single spaces; so no whitespace is at either end, the text is single-spaced, and its other characters are those of the input |
| Ocr.CollapseAndStripIdempotent | ocr.py:23 | collapsing and stripping twice gives the same as once |
| Ocr.CollapseAndStripBlank | ocr.py:23 | whitespace-only text, the empty text included, becomes "" |
| Ocr.CleanTextWords | ocr.py:14-24 | the cleaned text is the words left by the two deletions, joined by single spaces |
| Ocr.CleanTextShape | ocr.py:14-24 | the cleaned text is the words left by the two deletions joined by single spaces; it has no line break and no whitespace at either end; every whitespace character is a single space; its other characters are exactly those left by the two deletions, in order |
| Ocr.CleanTextBlank | ocr.py:14-24 | empty or whitespace-only text cleans to "" |

## Left out

- Reading PDFs with pdfplumber is not modelled (tesscreact.py:19, 31-32; ocr.py:4-12). Each
  page's text is a parameter, and a page whose `extract_text()` returns `None` is not
  modelled. Neither is the accumulation of all page texts in `extract_text_from_pdf`.
- Building a pandas DataFrame and saving it is not modelled (tesscreact.py:39-40, 118-138).
  `ExtractVocabulary` returns the list of entries that the DataFrame is built from.
- The `print` warning for a missing page, the `__main__` blocks and the `pdb` breakpoint are
  not modelled. They are output or interaction only.
- data_extraction.py is not part of this model.
- Negative page numbers are not modelled. Page numbers are naturals. In Python, a negative
  number passes the `>= len` test and indexes from the end.
- `\d` is modelled as the ASCII digits and the Devanagari digits. Python's `\d` also matches
  the decimal digits of other scripts. A line ending in such a digit is modelled as having
  no trailing digits.
- `\s` is modelled as the characters `str.isspace` accepts.
- The `$` in `(\d+)$` and `\s+\d+$` also matches before a final line break. The model does
  not need this case: both patterns are applied only to stripped text, which never ends in
  a line break.
- Ocr.CollapseSpaces: its own ensures state only the shape of the result. The exact
  output, one space per whitespace run, is stated by `Ocr.CollapseWords`.
- Python's `re` engine is not modelled in general. Each pattern is written out as the
  specific run search it performs.
