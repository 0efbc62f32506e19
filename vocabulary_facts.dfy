/** A declarative account of what `process_page_text` (tesscreact.py) returns, proved equal to
    the line loop, and the properties of the parser and of the page loop that follow from it. */
module VocabularyFacts {
  import opened Text
  import opened EntryFields
  import opened Vocabulary

  // ---------------------------------------------------------------------------
  // The reference: a page is a run of ignored lines, then blocks
  // ---------------------------------------------------------------------------

  /** Index of the first header line at or after `i`, or `|lines|` when there is none. */
  function NextHeader(lines: seq<Line>, i: nat): (j: nat)
    requires i <= |lines|
    ensures i <= j <= |lines|
    ensures forall k :: i <= k < j ==> !lines[k].HeaderLine?
    ensures j == |lines| || lines[j].HeaderLine?
    decreases |lines| - i
  {
    if i == |lines| || lines[i].HeaderLine? then i else NextHeader(lines, i + 1)
  }

  /** A header line's match and the continuation lines that follow it, up to the next header. */
  datatype Block = Block(head: Header, body: seq<Line>)

  /** The blocks of lines that start with a header line. */
  function Groups(lines: seq<Line>): seq<Block>
    requires lines == [] || lines[0].HeaderLine?
    decreases |lines|
  {
    if lines == [] then []
    else
      var n := NextHeader(lines, 1);
      [Block(lines[0].head, lines[1..n])] + Groups(lines[n..])
  }

  /** The blocks of a page; the lines before its first header line belong to none. */
  function Blocks(lines: seq<Line>): seq<Block> {
    Groups(lines[NextHeader(lines, 0)..])
  }

  /** What a body adds to the meaning: one space and the line, for every line without a
      Devanagari character. */
  function Appended(body: seq<Line>): string
    decreases |body|
  {
    if body == [] then []
    else
      var more := match body[|body| - 1] case MeaningLine(text) => " " + text case _ => [];
      Appended(body[..|body| - 1]) + more
  }

  /** The translation found on the last line of `body` that has one, or `none`. */
  function LatestHindi(body: seq<Line>, none: string): string
    decreases |body|
  {
    if body == [] then none
    else
      var last := body[|body| - 1];
      if last.TranslationLine? && last.hindi.Some? then last.hindi.value
      else LatestHindi(body[..|body| - 1], none)
  }

  /** The score found on the last line of `body` that has one, or `none`. */
  function LatestDifficulty(body: seq<Line>, none: string): string
    decreases |body|
  {
    if body == [] then none
    else
      var last := body[|body| - 1];
      if last.TranslationLine? && last.difficulty.Some? then last.difficulty.value
      else LatestDifficulty(body[..|body| - 1], none)
  }

  /** Entry `e` after the continuation lines `body`. */
  function Absorbed(e: Entry, body: seq<Line>): Entry {
    e.(meaning := e.meaning + Appended(body),
       hindi := LatestHindi(body, e.hindi),
       difficulty := LatestDifficulty(body, e.difficulty))
  }

  function EntryOf(b: Block): Entry {
    Absorbed(Opened(b.head), b.body)
  }

  function EntriesOf(bs: seq<Block>): (es: seq<Entry>)
    ensures |es| == |bs| && forall k :: 0 <= k < |bs| ==> es[k] == EntryOf(bs[k])
  {
    seq(|bs|, k requires 0 <= k < |bs| => EntryOf(bs[k]))
  }

  // ---------------------------------------------------------------------------
  // The line loop computes the reference
  // ---------------------------------------------------------------------------

  lemma {:induction false} ScanAppend(st: ScanState, a: seq<Line>, b: seq<Line>)
    ensures Scan(st, a + b) == Scan(Scan(st, a), b)
    decreases |a|
  {
    if a == [] {
      assert a + b == b;
    } else {
      assert (a + b)[0] == a[0] && (a + b)[1..] == a[1..] + b;
      ScanAppend(Step(st, a[0]), a[1..], b);
    }
  }

  lemma ScanSnoc(st: ScanState, a: seq<Line>, l: Line)
    ensures Scan(st, a + [l]) == Step(Scan(st, a), l)
  {
    ScanAppend(st, a, [l]);
    assert [l][1..] == [];
  }

  /** Lines without a header line leave the parser where it started. */
  lemma {:induction false} PreludeScan(lines: seq<Line>)
    requires forall k :: 0 <= k < |lines| ==> !lines[k].HeaderLine?
    ensures Scan(Start, lines) == Start
    decreases |lines|
  {
    if lines != [] {
      PreludeScan(lines[1..]);
    }
  }

  /** Continuation lines only ever update the open entry, as `Absorbed` says. */
  lemma {:induction false} BodyScan(closed: seq<Entry>, e: Entry, body: seq<Line>)
    requires forall k :: 0 <= k < |body| ==> !body[k].HeaderLine?
    ensures Scan(ScanState(closed, Some(e)), body) == ScanState(closed, Some(Absorbed(e, body)))
    decreases |body|
  {
    if body != [] {
      var p := body[..|body| - 1];
      var l := body[|body| - 1];
      assert body == p + [l];
      ScanSnoc(ScanState(closed, Some(e)), p, l);
      BodyScan(closed, e, p);
      assert body[..|body| - 1] == p;
      assert Continue(Absorbed(e, p), l) == Absorbed(e, body);
    } else {
      assert e.meaning + [] == e.meaning;
    }
  }

  lemma EntriesOfCons(b: Block, bs: seq<Block>)
    ensures EntriesOf([b] + bs) == [EntryOf(b)] + EntriesOf(bs)
  {
    assert forall k :: 1 <= k < |bs| + 1 ==> ([b] + bs)[k] == bs[k - 1];
  }

  /** The line loop takes a block's header line and its body to the state with the block's
      entry open. */
  lemma BlockScan(st: ScanState, lines: seq<Line>, n: nat)
    requires 1 <= n <= |lines| && lines[0].HeaderLine? && n == NextHeader(lines, 1)
    ensures Scan(st, lines)
            == Scan(ScanState(Flush(st), Some(EntryOf(Block(lines[0].head, lines[1..n])))), lines[n..])
  {
    var b := Block(lines[0].head, lines[1..n]);
    var st1 := ScanState(Flush(st), Some(Opened(b.head)));
    assert Scan(st, lines) == Scan(st1, lines[1..]);
    assert lines[1..] == b.body + lines[n..];
    ScanAppend(st1, b.body, lines[n..]);
    BodyScan(Flush(st), Opened(b.head), b.body);
  }

  lemma {:induction false} GroupsScan(st: ScanState, lines: seq<Line>)
    requires lines == [] || lines[0].HeaderLine?
    ensures Flush(Scan(st, lines)) == Flush(st) + EntriesOf(Groups(lines))
    decreases |lines|
  {
    if lines == [] {
      assert EntriesOf(Groups(lines)) == [];
    } else {
      var n := NextHeader(lines, 1);
      var b := Block(lines[0].head, lines[1..n]);
      BlockScan(st, lines, n);
      GroupsScan(ScanState(Flush(st), Some(EntryOf(b))), lines[n..]);
      assert Groups(lines) == [b] + Groups(lines[n..]);
      EntriesOfCons(b, Groups(lines[n..]));
    }
  }

  /** The line loop and the final append produce one entry per block, each built from its
      header line and continuation lines as `EntryOf` says. */
  lemma ScanBlocks(lines: seq<Line>)
    ensures Flush(Scan(Start, lines)) == EntriesOf(Blocks(lines))
  {
    var n := NextHeader(lines, 0);
    assert lines == lines[..n] + lines[n..];
    ScanAppend(Start, lines[..n], lines[n..]);
    PreludeScan(lines[..n]);
    GroupsScan(Start, lines[n..]);
  }

  /** The raw entries of a page are those of its blocks. */
  lemma ParsePageBlocks(text: string)
    ensures ParsePage(text) == EntriesOf(Blocks(Classified(PageLines(text))))
  {
    ScanBlocks(Classified(PageLines(text)));
  }

  // ---------------------------------------------------------------------------
  // Entries and header lines
  // ---------------------------------------------------------------------------

  /** The matches of the header lines among `lines`, in order. */
  function HeadersOf(lines: seq<string>): seq<Header>
    decreases |lines|
  {
    if lines == [] then []
    else (match MatchHeader(lines[0]) case Some(h) => [h] case None => []) + HeadersOf(lines[1..])
  }

  /** The same, on classified lines. */
  function HeadersIn(lines: seq<Line>): seq<Header>
    decreases |lines|
  {
    if lines == [] then []
    else (if lines[0].HeaderLine? then [lines[0].head] else []) + HeadersIn(lines[1..])
  }

  lemma {:induction false} HeadersOfClassified(lines: seq<string>)
    ensures HeadersOf(lines) == HeadersIn(Classified(lines))
    decreases |lines|
  {
    if lines != [] {
      assert Classified(lines)[1..] == Classified(lines[1..]);
      HeadersOfClassified(lines[1..]);
    }
  }

  function Heads(bs: seq<Block>): (hs: seq<Header>)
    ensures |hs| == |bs| && forall k :: 0 <= k < |bs| ==> hs[k] == bs[k].head
  {
    seq(|bs|, k requires 0 <= k < |bs| => bs[k].head)
  }

  lemma {:induction false} HeadersInAppend(a: seq<Line>, b: seq<Line>)
    ensures HeadersIn(a + b) == HeadersIn(a) + HeadersIn(b)
    decreases |a|
  {
    if a == [] {
      assert a + b == b;
    } else {
      assert (a + b)[0] == a[0] && (a + b)[1..] == a[1..] + b;
      HeadersInAppend(a[1..], b);
    }
  }

  lemma {:induction false} HeadersInNone(lines: seq<Line>)
    requires forall k :: 0 <= k < |lines| ==> !lines[k].HeaderLine?
    ensures HeadersIn(lines) == []
    decreases |lines|
  {
    if lines != [] {
      HeadersInNone(lines[1..]);
    }
  }

  lemma HeadsCons(b: Block, bs: seq<Block>)
    ensures Heads([b] + bs) == [b.head] + Heads(bs)
  {
    assert forall k :: 1 <= k < |bs| + 1 ==> ([b] + bs)[k] == bs[k - 1];
  }

  /** A block's body holds no header line, so the header lines after the block's own are
      those of the blocks that follow. */
  lemma HeadersAfterBlock(lines: seq<Line>, n: nat)
    requires 1 <= n <= |lines| && lines[0].HeaderLine? && n == NextHeader(lines, 1)
    ensures HeadersIn(lines) == [lines[0].head] + HeadersIn(lines[n..])
  {
    assert lines[1..] == lines[1..n] + lines[n..];
    HeadersInAppend(lines[1..n], lines[n..]);
    HeadersInNone(lines[1..n]);
  }

  lemma {:induction false} GroupsHeads(lines: seq<Line>)
    requires lines == [] || lines[0].HeaderLine?
    ensures Heads(Groups(lines)) == HeadersIn(lines)
    decreases |lines|
  {
    if lines != [] {
      var n := NextHeader(lines, 1);
      var b := Block(lines[0].head, lines[1..n]);
      HeadersAfterBlock(lines, n);
      GroupsHeads(lines[n..]);
      assert Groups(lines) == [b] + Groups(lines[n..]);
      HeadsCons(b, Groups(lines[n..]));
    }
  }

  /** The blocks correspond one to one, in order, to the header lines. */
  lemma BlocksHeads(lines: seq<Line>)
    ensures Heads(Blocks(lines)) == HeadersIn(lines)
  {
    var n := NextHeader(lines, 0);
    assert lines == lines[..n] + lines[n..];
    HeadersInAppend(lines[..n], lines[n..]);
    HeadersInNone(lines[..n]);
    GroupsHeads(lines[n..]);
  }

  /** `process_page_text` returns one entry per header line of the page, in order; each
      entry's serial and word are the two groups of that line's match, which the clean-up
      leaves alone, and each meaning is clean. */
  lemma ProcessPageHeaders(text: string)
    ensures |ProcessPage(text)| == |HeadersOf(PageLines(text))|
    ensures forall k :: 0 <= k < |ProcessPage(text)| ==>
              && ProcessPage(text)[k].sno == HeadersOf(PageLines(text))[k].sno
              && ProcessPage(text)[k].word == HeadersOf(PageLines(text))[k].word
              && AllOf(NotDevanagari, ProcessPage(text)[k].meaning)
              && Stripped(ProcessPage(text)[k].meaning)
  {
    var lines := Classified(PageLines(text));
    ParsePageBlocks(text);
    BlocksHeads(lines);
    HeadersOfClassified(PageLines(text));
  }

  /** A page without a header line gives no entries. */
  lemma NoHeaderNoEntries(text: string)
    requires HeadersOf(PageLines(text)) == []
    ensures ProcessPage(text) == []
  {
    ProcessPageHeaders(text);
  }

  /** The empty page: `''.split('\n')` is `['']`, which is not a header line. */
  lemma EmptyPage()
    ensures ProcessPage("") == []
  {
    assert Split("", '\n') == [""];
    assert PageLines("") == [""];
    assert MatchHeader("") == None;
    assert HeadersOf([""]) == [];
    NoHeaderNoEntries("");
  }

  lemma ClassifiedAppend(a: seq<string>, b: seq<string>)
    ensures Classified(a + b) == Classified(a) + Classified(b)
  {
  }

  /** Lines before the first header line contribute nothing. */
  lemma LinesBeforeHeader(before: seq<string>, lines: seq<string>)
    requires forall k :: 0 <= k < |before| ==> MatchHeader(before[k]).None?
    ensures ParseLines(before + lines) == ParseLines(lines)
  {
    ClassifiedAppend(before, lines);
    ScanAppend(Start, Classified(before), Classified(lines));
    PreludeScan(Classified(before));
  }

  // ---------------------------------------------------------------------------
  // Continuation lines
  // ---------------------------------------------------------------------------

  /** An entry is open exactly when a header line has been seen. */
  lemma {:induction false} OpenIffHeader(lines: seq<Line>)
    ensures Scan(Start, lines).open.Some? <==> HeadersIn(lines) != []
    decreases |lines|
  {
    if lines != [] {
      var p := lines[..|lines| - 1];
      var l := lines[|lines| - 1];
      assert lines == p + [l];
      ScanSnoc(Start, p, l);
      HeadersInAppend(p, [l]);
      OpenIffHeader(p);
    }
  }

  function Last(es: seq<Entry>): Entry
    requires es != []
  {
    es[|es| - 1]
  }

  lemma ScanContinue(lines: seq<Line>, l: Line)
    requires HeadersIn(lines) != [] && !l.HeaderLine?
    ensures |Flush(Scan(Start, lines + [l]))| == |Flush(Scan(Start, lines))| > 0
    ensures Flush(Scan(Start, lines + [l]))[..|Flush(Scan(Start, lines))| - 1]
            == Flush(Scan(Start, lines))[..|Flush(Scan(Start, lines))| - 1]
    ensures Last(Flush(Scan(Start, lines + [l]))) == Continue(Last(Flush(Scan(Start, lines))), l)
  {
    OpenIffHeader(lines);
    ScanSnoc(Start, lines, l);
  }

  /** After a header line, a line that is not a header line changes only the last entry,
      and changes it as `Continue` says. */
  lemma ContinuationLine(lines: seq<string>, line: string)
    requires HeadersOf(lines) != [] && MatchHeader(line).None?
    ensures |ParseLines(lines + [line])| == |ParseLines(lines)| > 0
    ensures ParseLines(lines + [line])[..|ParseLines(lines)| - 1] == ParseLines(lines)[..|ParseLines(lines)| - 1]
    ensures Last(ParseLines(lines + [line])) == Continue(Last(ParseLines(lines)), Classify(line))
  {
    HeadersOfClassified(lines);
    ClassifiedAppend(lines, [line]);
    assert Classified([line]) == [Classify(line)];
    ScanContinue(Classified(lines), Classify(line));
  }

  /** A continuation line without a Devanagari character is never dropped: it is appended to
      the last entry's meaning after a single space, and nothing else changes. */
  lemma PlainLineAppends(lines: seq<string>, line: string)
    requires HeadersOf(lines) != []
    requires MatchHeader(line).None? && !HasDevanagari(line)
    ensures |ParseLines(lines + [line])| == |ParseLines(lines)| > 0
    ensures ParseLines(lines + [line])[..|ParseLines(lines)| - 1] == ParseLines(lines)[..|ParseLines(lines)| - 1]
    ensures Last(ParseLines(lines + [line]))
            == Last(ParseLines(lines)).(meaning := Last(ParseLines(lines)).meaning + " " + line)
  {
    ContinuationLine(lines, line);
  }

  /** A line with a Devanagari character always has a first run of Devanagari or whitespace. */
  lemma HindiRunExists(line: string)
    requires HasDevanagari(line)
    ensures FirstHindiRun(line).Some?
  {
    var k :| 0 <= k < |line| && !NotDevanagari(line[k]);
    assert InHindiRun(line[k]);
  }

  /** A continuation line with a Devanagari character never changes the meaning; it
      overwrites the translation with its stripped first run, and the score with its
      trailing digits only when it ends in a digit. */
  lemma TranslationLineSets(lines: seq<string>, line: string)
    requires HeadersOf(lines) != []
    requires MatchHeader(line).None? && HasDevanagari(line)
    ensures FirstHindiRun(line).Some?
    ensures |ParseLines(lines + [line])| == |ParseLines(lines)| > 0
    ensures ParseLines(lines + [line])[..|ParseLines(lines)| - 1] == ParseLines(lines)[..|ParseLines(lines)| - 1]
    ensures Last(ParseLines(lines + [line]))
            == Last(ParseLines(lines)).(hindi := Strip(FirstHindiRun(line).value),
                                        difficulty := OrElse(TrailingDigits(line), Last(ParseLines(lines)).difficulty))
  {
    HindiRunExists(line);
    ContinuationLine(lines, line);
  }

  // ---------------------------------------------------------------------------
  // Translation and score: only continuation lines set them, and the last one wins
  // ---------------------------------------------------------------------------

  /** Without a translation line in the body, translation and score keep their start value. */
  lemma {:induction false} LatestNone(body: seq<Line>, none: string)
    requires forall k :: 0 <= k < |body| ==> !body[k].TranslationLine?
    ensures LatestHindi(body, none) == none && LatestDifficulty(body, none) == none
    decreases |body|
  {
    if body != [] {
      LatestNone(body[..|body| - 1], none);
    }
  }

  /** A classified line with a Devanagari character always carries a translation. */
  lemma ClassifyTranslation(line: string)
    requires Classify(line).TranslationLine?
    ensures Classify(line).hindi.Some?
  {
    HindiRunExists(line);
  }

  /** The translation comes from the last translation line that found one. */
  lemma {:induction false} LatestHindiWins(body: seq<Line>, k: nat, none: string)
    requires k < |body| && body[k].TranslationLine? && body[k].hindi.Some?
    requires forall j :: k < j < |body| ==> !body[j].TranslationLine?
    ensures LatestHindi(body, none) == body[k].hindi.value
    decreases |body|
  {
    if k < |body| - 1 {
      var p := body[..|body| - 1];
      assert p[k] == body[k];
      LatestHindiWins(p, k, none);
    }
  }

  /** The score comes from the last translation line that ends in digits. */
  lemma {:induction false} LatestDifficultyWins(body: seq<Line>, k: nat, none: string)
    requires k < |body| && body[k].TranslationLine? && body[k].difficulty.Some?
    requires forall j :: k < j < |body| ==> !(body[j].TranslationLine? && body[j].difficulty.Some?)
    ensures LatestDifficulty(body, none) == body[k].difficulty.value
    decreases |body|
  {
    if k < |body| - 1 {
      var p := body[..|body| - 1];
      assert p[k] == body[k];
      LatestDifficultyWins(p, k, none);
    }
  }

  /** Translation and score start empty on the header line and only continuation lines set
      them: a block with no translation line gives an entry with both empty. */
  lemma OnlyContinuationSets(lines: seq<Line>, k: nat)
    requires k < |Blocks(lines)|
    requires forall j :: 0 <= j < |Blocks(lines)[k].body| ==> !Blocks(lines)[k].body[j].TranslationLine?
    ensures k < |Flush(Scan(Start, lines))|
    ensures Flush(Scan(Start, lines))[k].hindi == [] && Flush(Scan(Start, lines))[k].difficulty == []
  {
    ScanBlocks(lines);
    LatestNone(Blocks(lines)[k].body, []);
  }

  // ---------------------------------------------------------------------------
  // The page loop of `extract_vocabulary_from_pdf`
  // ---------------------------------------------------------------------------

  /** The entries of every page in order, each page's after those of the pages before it. */
  function Concat(results: seq<seq<Entry>>): seq<Entry>
    decreases |results|
  {
    if results == [] then [] else results[0] + Concat(results[1..])
  }

  lemma {:induction false} ConcatSnoc(results: seq<seq<Entry>>, r: seq<Entry>)
    ensures Concat(results + [r]) == Concat(results) + r
    decreases |results|
  {
    if results == [] {
      assert results + [r] == [r];
    } else {
      assert (results + [r])[0] == results[0] && (results + [r])[1..] == results[1..] + [r];
      ConcatSnoc(results[1..], r);
    }
  }

  lemma {:induction false} UptoPrefix(results: seq<seq<Entry>>, m: nat)
    requires m <= |results|
    ensures Gather(results, Upto(m)) == Concat(results[..m])
    decreases m
  {
    if m > 0 {
      assert Upto(m)[..m - 1] == Upto(m - 1);
      UptoPrefix(results, m - 1);
      assert results[..m] == results[..m - 1] + [results[m - 1]];
      ConcatSnoc(results[..m - 1], results[m - 1]);
    }
  }

  /** Without page numbers, every page is processed, in order. */
  lemma AllPages(pages: seq<string>)
    ensures Gather(PageResults(pages), Selected(|pages|, None)) == Concat(PageResults(pages))
  {
    var results := PageResults(pages);
    UptoPrefix(results, |results|);
    assert results[..|results|] == results;
  }

  /** The result for a list of page numbers is the concatenation of the results for its parts. */
  lemma {:induction false} GatherAppend(results: seq<seq<Entry>>, a: seq<nat>, b: seq<nat>)
    ensures Gather(results, a + b) == Gather(results, a) + Gather(results, b)
    decreases |b|
  {
    if b == [] {
      assert a + b == a;
    } else {
      var c := b[..|b| - 1];
      var n := b[|b| - 1];
      var more := if n < |results| then results[n] else [];
      var ab := a + b;
      assert ab[..|ab| - 1] == a + c;
      assert ab[|ab| - 1] == n;
      assert Gather(results, ab) == Gather(results, a + c) + more;
      assert Gather(results, b) == Gather(results, c) + more;
      GatherAppend(results, a, c);
    }
  }

  /** What each page number in `order` contributes: the entries of the page it names, or
      nothing when it is past the last page. */
  function Contributions(results: seq<seq<Entry>>, order: seq<nat>): seq<seq<Entry>> {
    seq(|order|, k requires 0 <= k < |order| => if order[k] < |results| then results[order[k]] else [])
  }

  /** The page loop's result is the contributions of the page numbers, concatenated in the
      order given. */
  lemma {:induction false} GatherConcat(results: seq<seq<Entry>>, order: seq<nat>)
    ensures Gather(results, order) == Concat(Contributions(results, order))
    decreases |order|
  {
    if order != [] {
      var m := |order| - 1;
      var init := order[..m];
      var cs := Contributions(results, order);
      GatherConcat(results, init);
      assert cs == Contributions(results, init) + [cs[m]];
      ConcatSnoc(Contributions(results, init), cs[m]);
    }
  }

  /** A page number that names a page contributes exactly that page's entries, and one past
      the last page contributes nothing. */
  lemma OnePage(pages: seq<string>, n: nat)
    ensures Gather(PageResults(pages), [n]) == if n < |pages| then ProcessPage(pages[n]) else []
  {
    assert [n][..0] == [];
  }

  /** A page number past the last page can be dropped from the list. */
  lemma SkipsMissingPage(results: seq<seq<Entry>>, a: seq<nat>, n: nat, b: seq<nat>)
    requires n >= |results|
    ensures Gather(results, a + [n] + b) == Gather(results, a + b)
  {
    var an := a + [n];
    GatherAppend(results, an, b);
    GatherAppend(results, a, [n]);
    GatherAppend(results, a, b);
    SkipOne(results, n);
  }

  lemma SkipOne(results: seq<seq<Entry>>, n: nat)
    requires n >= |results|
    ensures Gather(results, [n]) == []
  {
    assert [n][..0] == [];
  }
}
