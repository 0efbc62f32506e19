/** Worked cases of `process_page_text` (tesscreact.py): what the parser and its clean-up do
    on small inputs. Devanagari text is written with escapes: "सेब" is `Seb`. */
module WorkedCases {
  import opened Text
  import opened EntryFields
  import opened Vocabulary

  /** "सेब" (apple). */
  const Seb: string := "\U{0938}\U{0947}\U{092C}"

  lemma FilterGap(p: char -> bool, a: string, d: string, b: string)
    requires AllOf(p, a) && AllOf(p, b)
    requires forall k :: 0 <= k < |d| ==> !p(d[k])
    ensures Filter(p, a + d + b) == a + b
  {
    var ad := a + d;
    FilterAppend(p, a, d);
    FilterNone(p, d);
    assert Filter(p, ad) == a;
    FilterAppend(p, ad, b);
  }

  const OneNumber: string := "a" + " 1"
  const TwoNumbers: string := OneNumber + " 2"

  lemma CleanTwoNumbers()
    ensures CleanMeaning(TwoNumbers) == OneNumber
  {
    assert AllOf(IsSpace, " 2"[..1]) && AllOf(IsDigit, " 2"[1..]);
    CleanMeaningDropsNumber(OneNumber, " 2");
  }

  lemma CleanOneNumber()
    ensures CleanMeaning(OneNumber) == "a"
  {
    assert AllOf(IsSpace, " 1"[..1]) && AllOf(IsDigit, " 1"[1..]);
    CleanMeaningDropsNumber("a", " 1");
  }

  /** The clean-up removes one trailing number only, so applying it again can change the
      result: "a 1 2" becomes "a 1", which becomes "a". */
  lemma CleanMeaningNotIdempotent()
    ensures CleanMeaning(TwoNumbers) == OneNumber
    ensures CleanMeaning(CleanMeaning(TwoNumbers)) == "a"
    ensures CleanMeaning(TwoNumbers) != CleanMeaning(CleanMeaning(TwoNumbers))
  {
    CleanTwoNumbers();
    CleanOneNumber();
    assert |OneNumber| == 3;
  }

  /** A header line that also carries a translation and a score: "12 Apple red सेब 5". */
  const AppleRest: string := "red " + Seb + " 5"
  const AppleLine: string := "12 Apple " + AppleRest

  lemma AppleHeader()
    ensures MatchHeader(AppleLine) == Some(Header("12", "Apple", AppleRest))
  {
    assert HeaderLayout(AppleLine, "12", " ", "Apple", " ", AppleRest);
    MatchHeaderComplete(AppleLine, "12", " ", "Apple", " ", AppleRest);
  }

  lemma AppleMeaning()
    ensures CleanMeaning(AppleRest) == "red"
  {
    AppleBase();
    AppleCut();
    StripStripped("red");
  }

  lemma AppleBase()
    ensures Filter(NotDevanagari, AppleRest) == "red" + "  5"
  {
    assert AllOf(NotDevanagari, "red ") && AllOf(NotDevanagari, " 5");
    assert forall k :: 0 <= k < |Seb| ==> !NotDevanagari(Seb[k]);
    FilterGap(NotDevanagari, "red ", Seb, " 5");
    assert "red " + " 5" == "red" + "  5";
  }

  lemma AppleCut()
    ensures DropTrailingNumber(Strip("red" + "  5")) == "red"
  {
    StripStripped("red" + "  5");
    assert AllOf(IsSpace, "  5"[..2]) && AllOf(IsDigit, "  5"[2..]);
    DropTrailingNumberExact("red", "  5");
  }

  /** A stripped line without line breaks is a page of one line. */
  lemma PageOfOne(a: string)
    requires '\n' !in a && Stripped(a)
    ensures PageLines(a) == [a]
  {
    SplitJoin([a], '\n');
    StripStripped(a);
  }

  /** A page whose one line is a header line gives the entry that line opens. */
  lemma ParseHeaderOnly(text: string, h: Header)
    requires PageLines(text) == [text] && MatchHeader(text) == Some(h)
    ensures ParsePage(text) == [Opened(h)]
  {
    assert Classified([text]) == [HeaderLine(h)];
    assert Scan(Start, [HeaderLine(h)]) == ScanState([], Some(Opened(h)));
  }

  lemma ApplePage()
    ensures PageLines(AppleLine) == [AppleLine]
  {
    assert forall k :: 0 <= k < |AppleLine| ==> AppleLine[k] != '\n';
    assert AppleLine[0] == '1' && AppleLine[|AppleLine| - 1] == '5';
    PageOfOne(AppleLine);
  }

  lemma OneLineParse()
    ensures ParsePage(AppleLine) == [Opened(Header("12", "Apple", AppleRest))]
  {
    ApplePage();
    AppleHeader();
    ParseHeaderOnly(AppleLine, Header("12", "Apple", AppleRest));
  }

  /** A translation and a score on the header line itself never reach the Hindi and
      Difficulty columns: the clean-up deletes them from the meaning instead. */
  lemma OneLineEntry()
    ensures ProcessPage(AppleLine) == [Entry("12", "Apple", "red", "", "")]
  {
    OneLineParse();
    AppleMeaning();
  }

  /** The translation search takes the first run of Devanagari or whitespace characters,
      which can be a lone space before the Devanagari text: the line "a b सेब" sets the
      translation to the empty string. */
  lemma BlankTranslation()
    ensures FirstHindiRun("a b " + Seb) == Some(" ")
    ensures Classify("a b " + Seb) == TranslationLine(Some(""), None)
  {
    var s := "a b " + Seb;
    SkipWhileExact(NotInHindiRun, s, 0, 1);
    SkipWhileExact(InHindiRun, s, 1, 2);
    assert s[1..2] == " ";
    assert FirstHindiRun(s) == Some(s[1..2]);
    assert !NotDevanagari(s[4]);
    StripAllSpace(" ");
  }

  // ---------------------------------------------------------------------------
  // A page of three lines: a header, a translation line and a meaning line
  // ---------------------------------------------------------------------------

  const Line1: string := "12 Apple red"
  const Line2: string := Seb + " 5"
  const Line3: string := "fruit"

  lemma JoinThree(a: string, b: string, c: string)
    ensures Join([a, b, c], '\n') == a + "\n" + b + "\n" + c
  {
    var lines := [a, b, c];
    assert lines[1..][1..] == [c];
    assert Join(lines[1..], '\n') == b + ['\n'] + c;
    assert a + ['\n'] + (b + ['\n'] + c) == a + "\n" + b + "\n" + c;
  }

  /** A page of three stripped lines without line breaks splits back into those lines. */
  lemma PageOfThree(a: string, b: string, c: string)
    requires '\n' !in a && '\n' !in b && '\n' !in c
    requires Stripped(a) && Stripped(b) && Stripped(c)
    ensures PageLines(a + "\n" + b + "\n" + c) == [a, b, c]
  {
    JoinThree(a, b, c);
    SplitJoin([a, b, c], '\n');
    StripStripped(a);
    StripStripped(b);
    StripStripped(c);
  }

  lemma ThreeLines()
    ensures PageLines(Line1 + "\n" + Line2 + "\n" + Line3) == [Line1, Line2, Line3]
  {
    assert Stripped(Line2) by {
      assert Line2[0] == '\U{0938}' && Line2[|Line2| - 1] == '5';
    }
    assert forall k :: 0 <= k < |Line2| ==> Line2[k] != '\n';
    PageOfThree(Line1, Line2, Line3);
  }

  lemma ClassifyLine1()
    ensures Classify(Line1) == HeaderLine(Header("12", "Apple", "red"))
  {
    assert HeaderLayout(Line1, "12", " ", "Apple", " ", "red");
    MatchHeaderComplete(Line1, "12", " ", "Apple", " ", "red");
  }

  lemma Line2Run()
    ensures FirstHindiRun(Line2) == Some(Seb + " ")
  {
    SkipWhileExact(NotInHindiRun, Line2, 0, 0);
    SkipWhileExact(InHindiRun, Line2, 0, 4);
    assert Line2[0..4] == Seb + " ";
  }

  lemma StripSeb()
    ensures Strip(Seb + " ") == Seb
  {
    var s := Seb + " ";
    SkipWhileExact(IsSpace, s, 0, 0);
    RunBeforeExact(IsSpace, s, 3, 4);
    assert s[0..3] == Seb;
  }

  lemma Line2Score()
    ensures TrailingDigits(Line2) == Some("5")
  {
    RunBeforeExact(IsDigit, Line2, 4, 5);
    assert Line2[4..] == "5";
  }

  lemma ClassifyLine2()
    ensures Classify(Line2) == TranslationLine(Some(Seb), Some("5"))
  {
    assert SkipWhile(IsDigit, Line2, 0) == 0;
    assert MatchHeader(Line2) == None;
    assert !NotDevanagari(Line2[0]);
    Line2Run();
    StripSeb();
    Line2Score();
  }

  lemma ClassifyLine3()
    ensures Classify(Line3) == MeaningLine(Line3)
  {
    assert SkipWhile(IsDigit, Line3, 0) == 0;
    assert AllOf(NotDevanagari, Line3);
  }

  lemma KeptMeaning()
    ensures CleanMeaning("red" + " " + Line3) == "red fruit"
  {
    var m := "red" + " " + Line3;
    assert m == "red fruit";
    assert AllOf(NotDevanagari, m);
    StripStripped(m);
    assert RunBefore(IsDigit, m, |m|) == |m|;
    assert DropTrailingNumber(m) == m;
  }

  lemma ThreeLineScan(h: Header, e: Entry)
    requires e == Opened(h)
    ensures Flush(Scan(Start, [HeaderLine(h), TranslationLine(Some(Seb), Some("5")), MeaningLine(Line3)]))
            == [e.(meaning := e.meaning + " " + Line3, hindi := Seb, difficulty := "5")]
  {
    var ls := [HeaderLine(h), TranslationLine(Some(Seb), Some("5")), MeaningLine(Line3)];
    var e1 := e.(hindi := Seb, difficulty := "5");
    var e2 := e1.(meaning := e1.meaning + " " + Line3);
    assert Step(Start, ls[0]) == ScanState([], Some(e));
    assert Step(ScanState([], Some(e)), ls[1]) == ScanState([], Some(e1));
    assert Step(ScanState([], Some(e1)), ls[2]) == ScanState([], Some(e2));
    ScanOne(Start, ls, 0);
    ScanOne(ScanState([], Some(e)), ls, 1);
    ScanOne(ScanState([], Some(e1)), ls, 2);
    assert ls[0..] == ls && ls[3..] == [];
  }

  const Page: string := Line1 + "\n" + Line2 + "\n" + Line3

  lemma ClassifiedOfThree(lines: seq<string>, x: Line, y: Line, z: Line)
    requires |lines| == 3 && Classify(lines[0]) == x && Classify(lines[1]) == y && Classify(lines[2]) == z
    ensures Classified(lines) == [x, y, z]
  {
    var cs := Classified(lines);
    assert cs[0] == x && cs[1] == y && cs[2] == z;
  }

  lemma ThreeClassified()
    ensures Classified(PageLines(Page))
            == [HeaderLine(Header("12", "Apple", "red")), TranslationLine(Some(Seb), Some("5")), MeaningLine(Line3)]
  {
    ThreeLines();
    ClassifyLine1();
    ClassifyLine2();
    ClassifyLine3();
    ClassifiedOfThree([Line1, Line2, Line3], HeaderLine(Header("12", "Apple", "red")),
      TranslationLine(Some(Seb), Some("5")), MeaningLine(Line3));
  }

  lemma ThreeLineParse()
    ensures ParsePage(Page) == [Entry("12", "Apple", "red" + " " + Line3, Seb, "5")]
  {
    var h := Header("12", "Apple", "red");
    ThreeClassified();
    ThreeLineScan(h, Opened(h));
  }

  /** The translation and score come from the continuation line that carries Devanagari
      text, and the plain continuation line is appended to the meaning. */
  lemma ThreeLineEntry()
    ensures ProcessPage(Page) == [Entry("12", "Apple", "red fruit", Seb, "5")]
  {
    ThreeLineParse();
    KeptMeaning();
  }
}
