/** `process_page_text` and the page loop of `extract_vocabulary_from_pdf` (tesscreact.py).
    A page is the text `page.extract_text()` returned for it; the parser walks its lines with
    at most one entry open, then cleans every entry's meaning in place. */
module Vocabulary {
  import opened Text
  import opened EntryFields

  /** One row of the result, with the columns S.No., Word, Meaning, Hindi and Difficulty. */
  datatype Entry = Entry(sno: string, word: string, meaning: string, hindi: string, difficulty: string)

  /** `any(0x0900 <= ord(c) <= 0x097F for c in line)`. */
  predicate HasDevanagari(line: string) {
    !AllOf(NotDevanagari, line)
  }

  /** What one stripped line tells the line loop: a header line (one that
      `^(\d+)\s+([A-Z][a-z]+)\s+` matches), a line with a Devanagari character, with what its
      translation and score searches found, or any other line. */
  datatype Line =
    | HeaderLine(head: Header)
    | TranslationLine(hindi: Option<string>, difficulty: Option<string>)
    | MeaningLine(text: string)

  /** The searches the loop body makes on a line. A translation is the stripped first run of
      Devanagari or whitespace characters; a score is the digit run that ends the line. */
  function Classify(line: string): Line {
    match MatchHeader(line)
    case Some(h) => HeaderLine(h)
    case None =>
      if HasDevanagari(line) then
        var hindi := match FirstHindiRun(line) case Some(run) => Some(Strip(run)) case None => None;
        TranslationLine(hindi, TrailingDigits(line))
      else
        MeaningLine(line)
  }

  /** The entry a header line opens: its meaning is what follows the match, and it has
      neither a translation nor a score yet. */
  function Opened(h: Header): (e: Entry)
    ensures e.sno == h.sno && e.word == h.word && e.meaning == h.rest
    ensures e.hindi == [] && e.difficulty == []
  {
    Entry(h.sno, h.word, h.rest, "", "")
  }

  function OrElse(o: Option<string>, default: string): string {
    match o
    case Some(v) => v
    case None => default
  }

  /** What a continuation line does to the open entry: a translation line overwrites the
      translation and score it found and leaves the meaning alone; any other line is
      appended to the meaning after one space. */
  function Continue(e: Entry, l: Line): Entry {
    match l
    case HeaderLine(_) => e
    case TranslationLine(hindi, difficulty) =>
      e.(hindi := OrElse(hindi, e.hindi), difficulty := OrElse(difficulty, e.difficulty))
    case MeaningLine(text) => e.(meaning := e.meaning + " " + text)
  }

  /** The parser's variables between two lines: `entries` and `current_entry`. */
  datatype ScanState = ScanState(closed: seq<Entry>, open: Option<Entry>)

  const Start := ScanState([], None)

  /** `entries` once the open entry, if any, is appended to it. */
  function Flush(st: ScanState): seq<Entry> {
    match st.open
    case None => st.closed
    case Some(e) => st.closed + [e]
  }

  /** One turn of the line loop. */
  function Step(st: ScanState, l: Line): ScanState {
    match l
    case HeaderLine(h) => ScanState(Flush(st), Some(Opened(h)))
    case _ =>
      match st.open
      case None => st
      case Some(e) => ScanState(st.closed, Some(Continue(e, l)))
  }

  /** The line loop run over `lines` from state `st`. */
  function Scan(st: ScanState, lines: seq<Line>): ScanState
    decreases |lines|
  {
    if lines == [] then st else Scan(Step(st, lines[0]), lines[1..])
  }

  lemma ScanOne(st: ScanState, lines: seq<Line>, i: nat)
    requires i < |lines|
    ensures Scan(st, lines[i..]) == Scan(Step(st, lines[i]), lines[i + 1..])
  {
    assert lines[i..][1..] == lines[i + 1..];
  }

  function Classified(lines: seq<string>): (ls: seq<Line>)
    ensures |ls| == |lines| && forall k :: 0 <= k < |lines| ==> ls[k] == Classify(lines[k])
  {
    seq(|lines|, k requires 0 <= k < |lines| => Classify(lines[k]))
  }

  /** `[line.strip() for line in text.split('\n')]`. */
  function PageLines(text: string): (lines: seq<string>)
    ensures |lines| == |Split(text, '\n')|
    ensures forall k :: 0 <= k < |lines| ==> lines[k] == Strip(Split(text, '\n')[k])
  {
    var raw := Split(text, '\n');
    seq(|raw|, k requires 0 <= k < |raw| => Strip(raw[k]))
  }

  /** The entries the line loop and the final append produce from stripped lines. */
  function ParseLines(lines: seq<string>): seq<Entry> {
    Flush(Scan(Start, Classified(lines)))
  }

  /** The entries of a page before their meanings are cleaned. */
  function ParsePage(text: string): seq<Entry> {
    ParseLines(PageLines(text))
  }

  /** The clean-up loop's work on one entry: only the meaning changes. */
  function CleanEntry(e: Entry): (r: Entry)
    ensures r == e.(meaning := CleanMeaning(e.meaning))
    ensures AllOf(NotDevanagari, r.meaning) && Stripped(r.meaning)
  {
    e.(meaning := CleanMeaning(e.meaning))
  }

  function CleanEntries(es: seq<Entry>): (r: seq<Entry>)
    ensures |r| == |es|
    ensures forall k :: 0 <= k < |es| ==> r[k] == CleanEntry(es[k])
  {
    seq(|es|, k requires 0 <= k < |es| => CleanEntry(es[k]))
  }

  /** What `process_page_text(text)` returns. */
  function ProcessPage(text: string): seq<Entry> {
    CleanEntries(ParsePage(text))
  }

  /** `process_page_text`: the line loop, the final append and the clean-up loop. */
  method ProcessPageText(text: string) returns (entries: seq<Entry>)
    ensures entries == ProcessPage(text)
    ensures forall k :: 0 <= k < |entries| ==> AllOf(NotDevanagari, entries[k].meaning) && Stripped(entries[k].meaning)
  {
    var lines := Split(text, '\n');
    ghost var stripped := PageLines(text);
    entries := [];
    var current: Option<Entry> := None;
    var i := 0;
    while i < |lines|
      invariant 0 <= i <= |lines| == |stripped|
      invariant Scan(ScanState(entries, current), Classified(stripped)[i..]) == Scan(Start, Classified(stripped))
    {
      var line := Strip(lines[i]);
      assert line == stripped[i];
      ScanOne(ScanState(entries, current), Classified(stripped), i);
      entries, current := ProcessLine(entries, current, line);
      i := i + 1;
    }
    if current.Some? {
      entries := entries + [current.value];
    }
    assert entries == ParsePage(text);
    entries := CleanUp(entries);
  }

  /** One turn of the line loop of `process_page_text`: a header line closes the open entry
      and opens a new one; any other line updates the open entry, if there is one. */
  method ProcessLine(entries: seq<Entry>, current: Option<Entry>, line: string)
      returns (entries': seq<Entry>, current': Option<Entry>)
    ensures ScanState(entries', current') == Step(ScanState(entries, current), Classify(line))
  {
    entries', current' := entries, current;
    var match_ := MatchHeader(line);
    if match_.Some? {
      if current'.Some? {
        entries' := entries' + [current'.value];
      }
      var h := match_.value;
      current' := Some(Entry(h.sno, h.word, h.rest, "", ""));
    } else if current'.Some? {
      var e := current'.value;
      if HasDevanagari(line) {
        var hindiMatch := FirstHindiRun(line);
        if hindiMatch.Some? {
          e := e.(hindi := Strip(hindiMatch.value));
        }
        var difficultyMatch := TrailingDigits(line);
        if difficultyMatch.Some? {
          e := e.(difficulty := difficultyMatch.value);
        }
      } else {
        e := e.(meaning := e.meaning + " " + line);
      }
      current' := Some(e);
    }
  }

  /** The clean-up loop of `process_page_text`: each entry's meaning loses its Devanagari
      characters and then one trailing number, stripping after each step. */
  method CleanUp(raw: seq<Entry>) returns (entries: seq<Entry>)
    ensures entries == CleanEntries(raw)
  {
    entries := raw;
    var j := 0;
    while j < |entries|
      invariant 0 <= j <= |raw| == |entries|
      invariant entries == CleanEntries(raw[..j]) + raw[j..]
    {
      var entry := entries[j];
      CleanInTwoSteps(entry);
      entry := entry.(meaning := MeaningBase(entry.meaning));
      entry := entry.(meaning := Strip(DropTrailingNumber(entry.meaning)));
      CleanedOneMore(raw, j, entries, entry);
      entries := entries[j := entry];
      j := j + 1;
    }
    assert raw[..j] == raw && raw[j..] == [];
  }

  /** The two in-place assignments to an entry's meaning make the entry `CleanEntry` makes. */
  lemma CleanInTwoSteps(e: Entry)
    ensures var base := e.(meaning := MeaningBase(e.meaning));
            base.(meaning := Strip(DropTrailingNumber(base.meaning))) == CleanEntry(e)
  {
  }

  /** Cleaning entry `j` in place extends the cleaned prefix by one. */
  lemma CleanedOneMore(raw: seq<Entry>, j: nat, entries: seq<Entry>, e: Entry)
    requires j < |raw| && entries == CleanEntries(raw[..j]) + raw[j..]
    requires e == CleanEntry(entries[j])
    ensures entries[j := e] == CleanEntries(raw[..j + 1]) + raw[j + 1..]
  {
    var p := CleanEntries(raw[..j]);
    SliceAt(raw, j);
    UpdateAt(entries, p, raw[j], raw[j + 1..], e);
    CleanEntriesSnoc(raw[..j], raw[j]);
  }

  lemma SliceAt(s: seq<Entry>, j: nat)
    requires j < |s|
    ensures s[j..] == [s[j]] + s[j + 1..] && s[..j + 1] == s[..j] + [s[j]]
  {
  }

  lemma UpdateAt(s: seq<Entry>, p: seq<Entry>, x: Entry, q: seq<Entry>, e: Entry)
    requires s == p + ([x] + q)
    ensures |p| < |s| && s[|p|] == x && s[|p| := e] == (p + [e]) + q
  {
  }

  lemma CleanEntriesSnoc(p: seq<Entry>, x: Entry)
    ensures CleanEntries(p + [x]) == CleanEntries(p) + [CleanEntry(x)]
  {
    var px, a, c := p + [x], CleanEntries(p + [x]), CleanEntries(p);
    forall k | 0 <= k < |p|
      ensures a[k] == c[k]
    {
      assert px[k] == p[k];
    }
    assert px[|p|] == x;
    SnocPointwise(a, c, CleanEntry(x));
  }

  lemma SnocPointwise(a: seq<Entry>, c: seq<Entry>, y: Entry)
    requires |a| == |c| + 1 && a[|c|] == y
    requires forall k :: 0 <= k < |c| ==> a[k] == c[k]
    ensures a == c + [y]
  {
  }

  // ---------------------------------------------------------------------------
  // The page loop of `extract_vocabulary_from_pdf`
  // ---------------------------------------------------------------------------

  /** `range(n)`. */
  function Upto(n: nat): (r: seq<nat>)
    ensures |r| == n && forall k :: 0 <= k < n ==> r[k] == k
  {
    seq(n, k requires 0 <= k < n => k as nat)
  }

  /** `pages_to_process`: every page when no page numbers are given, else the given ones. */
  function Selected(pageCount: nat, pageNumbers: Option<seq<nat>>): seq<nat> {
    match pageNumbers
    case None => Upto(pageCount)
    case Some(ns) => ns
  }

  /** What `process_page_text` returns for each page, in page order. */
  function PageResults(pages: seq<string>): (rs: seq<seq<Entry>>)
    ensures |rs| == |pages| && forall k :: 0 <= k < |pages| ==> rs[k] == ProcessPage(pages[k])
  {
    seq(|pages|, k requires 0 <= k < |pages| => ProcessPage(pages[k]))
  }

  /** `all_data` after the loop has visited the page numbers in `order`, where `results[n]`
      holds the entries of page `n`. */
  function Gather(results: seq<seq<Entry>>, order: seq<nat>): seq<Entry>
    decreases |order|
  {
    if order == [] then []
    else
      var n := order[|order| - 1];
      Gather(results, order[..|order| - 1]) + (if n < |results| then results[n] else [])
  }

  lemma GatherNext(results: seq<seq<Entry>>, order: seq<nat>, i: nat)
    requires i < |order|
    ensures Gather(results, order[..i + 1])
            == Gather(results, order[..i]) + (if order[i] < |results| then results[order[i]] else [])
  {
    assert order[..i + 1][..i] == order[..i];
  }

  /** The page loop: skip page numbers past the last page, extend `all_data` with the
      entries of every other page, in the order given. */
  method ExtractVocabulary(pages: seq<string>, pageNumbers: Option<seq<nat>>) returns (allData: seq<Entry>)
    ensures allData == Gather(PageResults(pages), Selected(|pages|, pageNumbers))
  {
    var toProcess: seq<nat>;
    if pageNumbers.None? {
      toProcess := Upto(|pages|);
    } else {
      toProcess := pageNumbers.value;
    }
    ghost var results := PageResults(pages);
    allData := [];
    for i := 0 to |toProcess|
      invariant allData == Gather(results, toProcess[..i])
    {
      GatherNext(results, toProcess, i);
      var pageNum := toProcess[i];
      if pageNum >= |pages| {
        continue;
      }
      var entries := ProcessPageText(pages[pageNum]);
      allData := allData + entries;
    }
    assert toProcess[..|toProcess|] == toProcess;
  }
}
