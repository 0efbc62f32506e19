/** The regular expressions that `process_page_text` (tesscreact.py) applies to one stripped
    line, written out as functions, and the clean-up it applies to each entry's meaning. */
module EntryFields {
  import opened Text

  datatype Option<T> = None | Some(value: T)

  predicate IsUpper(c: char) { 'A' <= c <= 'Z' }

  predicate IsLower(c: char) { 'a' <= c <= 'z' }

  /** `[A-Z][a-z]+`: one ASCII capital followed by at least one ASCII small letter. */
  predicate IsWord(w: string) {
    |w| >= 2 && IsUpper(w[0]) && forall k :: 1 <= k < |w| ==> IsLower(w[k])
  }

  // ---------------------------------------------------------------------------
  // The entry header `^(\d+)\s+([A-Z][a-z]+)\s+`
  // ---------------------------------------------------------------------------

  /** The two groups of a header match, and `line[match.end():]`. */
  datatype Header = Header(sno: string, word: string, rest: string)

  /** `line` reads: serial digits, whitespace, a capitalised word, whitespace, then `rest`.
      The greedy `\s+` consumes all of the second gap, so `rest` starts with no whitespace. */
  predicate HeaderLayout(line: string, sno: string, gap1: string, word: string, gap2: string, rest: string) {
    line == sno + gap1 + word + gap2 + rest
    && sno != [] && AllOf(IsDigit, sno)
    && gap1 != [] && AllOf(IsSpace, gap1)
    && IsWord(word)
    && gap2 != [] && AllOf(IsSpace, gap2)
    && (rest == [] || !IsSpace(rest[0]))
  }

  lemma Five(s: string, a: nat, b: nat, c: nat, d: nat)
    requires a <= b <= c <= d <= |s|
    ensures s == s[..a] + s[a..b] + s[b..c] + s[c..d] + s[d..]
  {
  }

  /** `re.compile(r'^(\d+)\s+([A-Z][a-z]+)\s+').match(line)`. Each run in the pattern is
      followed by a character class it does not share, so greedy matching never backtracks
      and each run is the maximal one. */
  function MatchHeader(line: string): Option<Header> {
    var d := SkipWhile(IsDigit, line, 0);
    var g := SkipWhile(IsSpace, line, d);
    if d == 0 || g == d || g == |line| || !IsUpper(line[g]) then None
    else
      var w := SkipWhile(IsLower, line, g + 1);
      var e := SkipWhile(IsSpace, line, w);
      if w == g + 1 || e == w then None
      else Some(Header(line[..d], line[g..w], line[e..]))
  }

  /** Whatever the matcher accepts is laid out as a header, and the groups it returns are
      the serial and the word of that layout, with `rest` what follows the match. */
  lemma MatchHeaderSound(line: string)
    requires MatchHeader(line).Some?
    ensures exists gap1, gap2 :: HeaderLayout(line, MatchHeader(line).value.sno, gap1, MatchHeader(line).value.word, gap2, MatchHeader(line).value.rest)
  {
    var d := SkipWhile(IsDigit, line, 0);
    var g := SkipWhile(IsSpace, line, d);
    var w := SkipWhile(IsLower, line, g + 1);
    var e := SkipWhile(IsSpace, line, w);
    var h := MatchHeader(line).value;
    assert h == Header(line[..d], line[g..w], line[e..]);
    HeaderFound(line, d, g, w, e, h);
  }

  lemma HeaderFound(line: string, d: nat, g: nat, w: nat, e: nat, h: Header)
    requires 0 < d < g < w - 1 && w < e <= |line|
    requires forall k :: 0 <= k < d ==> IsDigit(line[k])
    requires forall k :: d <= k < g ==> IsSpace(line[k])
    requires IsUpper(line[g]) && forall k :: g + 1 <= k < w ==> IsLower(line[k])
    requires forall k :: w <= k < e ==> IsSpace(line[k])
    requires e == |line| || !IsSpace(line[e])
    requires h == Header(line[..d], line[g..w], line[e..])
    ensures HeaderLayout(line, h.sno, line[d..g], h.word, line[w..e], h.rest)
  {
    Five(line, d, g, w, e);
    assert AllOf(IsDigit, line[..d]) && AllOf(IsSpace, line[d..g]) && AllOf(IsSpace, line[w..e]);
    assert IsWord(line[g..w]);
  }

  /** Where the runs of a header end, the matcher finds it with these groups. */
  lemma MatchHeaderAt(line: string, d: nat, g: nat, w: nat, e: nat, h: Header)
    requires 0 < d < g < w - 1 && w < e <= |line| && IsUpper(line[g])
    requires SkipWhile(IsDigit, line, 0) == d && SkipWhile(IsSpace, line, d) == g
    requires SkipWhile(IsLower, line, g + 1) == w && SkipWhile(IsSpace, line, w) == e
    requires h == Header(line[..d], line[g..w], line[e..])
    ensures MatchHeader(line) == Some(h)
  {
  }

  lemma LayoutRanges(line: string, sno: string, gap1: string, word: string, gap2: string, rest: string)
    requires HeaderLayout(line, sno, gap1, word, gap2, rest)
    ensures |line| == |sno| + |gap1| + |word| + |gap2| + |rest|
    ensures forall k :: 0 <= k < |sno| ==> IsDigit(line[k])
    ensures forall k :: |sno| <= k < |sno| + |gap1| ==> IsSpace(line[k])
    ensures forall k :: |sno| + |gap1| < k < |sno| + |gap1| + |word| ==> IsLower(line[k])
    ensures forall k :: |sno| + |gap1| + |word| <= k < |sno| + |gap1| + |word| + |gap2| ==> IsSpace(line[k])
    ensures IsUpper(line[|sno| + |gap1|])
    ensures |rest| > 0 ==> !IsSpace(line[|sno| + |gap1| + |word| + |gap2|])
  {
    var a := sno + gap1;
    var b := a + word;
    var c := b + gap2;
    assert line == c + rest;
    assert forall k :: 0 <= k < |c| ==> line[k] == c[k];
    assert forall k :: 0 <= k < |b| ==> c[k] == b[k];
    assert forall k :: 0 <= k < |a| ==> b[k] == a[k];
    assert forall k :: |b| <= k < |c| ==> c[k] == gap2[k - |b|];
    assert forall k :: |a| <= k < |b| ==> b[k] == word[k - |a|];
    assert forall k :: |sno| <= k < |a| ==> a[k] == gap1[k - |sno|];
    assert |rest| > 0 ==> line[|c|] == rest[0];
  }

  lemma LayoutRuns(line: string, sno: string, gap1: string, word: string, gap2: string, rest: string)
    requires HeaderLayout(line, sno, gap1, word, gap2, rest)
    ensures |line| == |sno| + |gap1| + |word| + |gap2| + |rest|
    ensures IsUpper(line[|sno| + |gap1|])
    ensures SkipWhile(IsDigit, line, 0) == |sno|
    ensures SkipWhile(IsSpace, line, |sno|) == |sno| + |gap1|
    ensures SkipWhile(IsLower, line, |sno| + |gap1| + 1) == |sno| + |gap1| + |word|
    ensures SkipWhile(IsSpace, line, |sno| + |gap1| + |word|) == |sno| + |gap1| + |word| + |gap2|
  {
    LayoutRanges(line, sno, gap1, word, gap2, rest);
    RunsEnd(line, |sno|, |sno| + |gap1|, |sno| + |gap1| + |word|, |sno| + |gap1| + |word| + |gap2|);
  }

  lemma RunsEnd(line: string, d: nat, g: nat, w: nat, e: nat)
    requires 0 < d < g < w - 1 && w < e <= |line|
    requires forall k :: 0 <= k < d ==> IsDigit(line[k])
    requires forall k :: d <= k < g ==> IsSpace(line[k])
    requires IsUpper(line[g]) && forall k :: g < k < w ==> IsLower(line[k])
    requires forall k :: w <= k < e ==> IsSpace(line[k])
    requires e == |line| || !IsSpace(line[e])
    ensures SkipWhile(IsDigit, line, 0) == d && SkipWhile(IsSpace, line, d) == g
    ensures SkipWhile(IsLower, line, g + 1) == w && SkipWhile(IsSpace, line, w) == e
  {
    SkipWhileExact(IsDigit, line, 0, d);
    SkipWhileExact(IsSpace, line, d, g);
    SkipWhileExact(IsLower, line, g + 1, w);
    SkipWhileExact(IsSpace, line, w, e);
  }

  lemma LayoutSlices(line: string, sno: string, gap1: string, word: string, gap2: string, rest: string)
    requires HeaderLayout(line, sno, gap1, word, gap2, rest)
    ensures line[..|sno|] == sno
    ensures line[|sno| + |gap1|..|sno| + |gap1| + |word|] == word
    ensures line[|sno| + |gap1| + |word| + |gap2|..] == rest
  {
    var a := sno + gap1;
    var b := a + word;
    var c := b + gap2;
    assert line == c + rest && c == b + gap2 && b == a + word && a == sno + gap1;
  }

  /** Every line laid out as a header is matched, with exactly its serial, word and rest. */
  lemma MatchHeaderComplete(line: string, sno: string, gap1: string, word: string, gap2: string, rest: string)
    requires HeaderLayout(line, sno, gap1, word, gap2, rest)
    ensures MatchHeader(line) == Some(Header(sno, word, rest))
  {
    LayoutRuns(line, sno, gap1, word, gap2, rest);
    LayoutSlices(line, sno, gap1, word, gap2, rest);
    var d := |sno|;
    var g := d + |gap1|;
    var w := g + |word|;
    var e := w + |gap2|;
    MatchHeaderAt(line, d, g, w, e, Header(sno, word, rest));
  }

  // ---------------------------------------------------------------------------
  // The translation `re.search(r'([ऀ-ॿ\s]+)', line)`
  // ---------------------------------------------------------------------------

  predicate InHindiRun(c: char) { IsDevanagari(c) || IsSpace(c) }

  predicate NotInHindiRun(c: char) { !InHindiRun(c) }

  /** `re.search(r'([ऀ-ॿ\s]+)', line)`: the leftmost maximal run of Devanagari or
      whitespace characters, or nothing when the line has neither. */
  function FirstHindiRun(line: string): (r: Option<string>)
    ensures r.None? <==> AllOf(NotInHindiRun, line)
    ensures r.Some? ==>
              exists i, j :: 0 <= i < j <= |line| && r.value == line[i..j]
                && AllOf(NotInHindiRun, line[..i]) && AllOf(InHindiRun, line[i..j])
                && (j == |line| || !InHindiRun(line[j]))
  {
    var i := SkipWhile(NotInHindiRun, line, 0);
    if i == |line| then
      None
    else
      var j := SkipWhile(InHindiRun, line, i);
      assert AllOf(NotInHindiRun, line[..i]) && AllOf(InHindiRun, line[i..j]);
      Some(line[i..j])
  }

  // ---------------------------------------------------------------------------
  // The score `re.search(r'(\d+)$', line)`
  // ---------------------------------------------------------------------------

  /** `re.search(r'(\d+)$', line)` on a line without line breaks: the maximal digit run
      that ends the line, or nothing when the line does not end in a digit. */
  function TrailingDigits(line: string): (r: Option<string>)
    ensures r.None? <==> (line == [] || !IsDigit(line[|line| - 1]))
    ensures r.Some? ==>
              && r.value != [] && |r.value| <= |line| && AllOf(IsDigit, r.value)
              && line[|line| - |r.value|..] == r.value
              && (|r.value| == |line| || !IsDigit(line[|line| - |r.value| - 1]))
  {
    var i := RunBefore(IsDigit, line, |line|);
    if i == |line| then
      None
    else
      assert AllOf(IsDigit, line[i..]);
      Some(line[i..])
  }

  // ---------------------------------------------------------------------------
  // The clean-up of a meaning
  // ---------------------------------------------------------------------------

  /** `t` is what `\s+\d+$` matches: at least one whitespace character, then at least one
      digit up to the end. */
  predicate IsSpacedNumber(t: string) {
    exists k :: 0 < k < |t| && AllOf(IsSpace, t[..k]) && AllOf(IsDigit, t[k..])
  }

  /** `re.sub(r'\s+\d+$', '', m)` on a text without line breaks. The only place the pattern
      can match is the end; its leftmost match starts the last whitespace run, when the digit
      run that ends `m` follows it. */
  function DropTrailingNumber(m: string): (r: string)
    ensures r <= m
    ensures r != m ==> IsSpacedNumber(m[|r|..]) && (r == [] || !IsSpace(r[|r| - 1]))
  {
    var t := RunBefore(IsDigit, m, |m|);
    var g := RunBefore(IsSpace, m, t);
    if t == |m| || g == t then
      m
    else
      SpacedNumberAt(m, g, t);
      m[..g]
  }

  /** When nothing is deleted, no suffix of the text is a whitespace-and-digits group. */
  lemma DropTrailingNumberNoMatch(m: string)
    requires DropTrailingNumber(m) == m
    ensures forall i :: 0 <= i <= |m| ==> !IsSpacedNumber(m[i..])
  {
    NoOtherNumber(m, RunBefore(IsDigit, m, |m|), RunBefore(IsSpace, m, RunBefore(IsDigit, m, |m|)));
  }

  lemma SpacedNumberAt(m: string, g: nat, t: nat)
    requires g < t < |m|
    requires forall k :: g <= k < t ==> IsSpace(m[k])
    requires forall k :: t <= k < |m| ==> IsDigit(m[k])
    ensures IsSpacedNumber(m[g..])
  {
    var u := m[g..];
    var gap, num := u[..t - g], u[t - g..];
    assert forall k :: 0 <= k < |gap| ==> gap[k] == m[g + k];
    assert forall k :: 0 <= k < |num| ==> num[k] == m[t + k];
    assert AllOf(IsSpace, gap) && AllOf(IsDigit, num);
  }

  lemma NoOtherNumber(m: string, t: nat, g: nat)
    requires t == RunBefore(IsDigit, m, |m|) && g == RunBefore(IsSpace, m, t)
    ensures forall i :: 0 <= i <= |m| && IsSpacedNumber(m[i..]) ==> t < |m| && g < t && g <= i
  {
    forall i | 0 <= i <= |m| && IsSpacedNumber(m[i..])
      ensures t < |m| && g < t && g <= i
    {
      var k := SpacedNumberSplit(m, i);
      assert !IsDigit(m[i + k - 1]);
    }
  }

  lemma SpacedNumberSplit(m: string, i: nat) returns (k: nat)
    requires i <= |m| && IsSpacedNumber(m[i..])
    ensures 0 < k < |m| - i
    ensures forall q :: i <= q < i + k ==> IsSpace(m[q])
    ensures forall q :: i + k <= q < |m| ==> IsDigit(m[q])
  {
    var u := m[i..];
    k :| 0 < k < |u| && AllOf(IsSpace, u[..k]) && AllOf(IsDigit, u[k..]);
    assert forall q :: i <= q < i + k ==> m[q] == u[..k][q - i];
    assert forall q :: i + k <= q < |m| ==> m[q] == u[k..][q - i - k];
  }

  /** The substitution deletes exactly a trailing whitespace-and-digits group that does not
      follow whitespace. */
  lemma DropTrailingNumberExact(a: string, t: string)
    requires IsSpacedNumber(t) && (a == [] || !IsSpace(a[|a| - 1]))
    ensures DropTrailingNumber(a + t) == a
  {
    var m := a + t;
    assert m[|a|..] == t;
    assert |a| == 0 || m[|a| - 1] == a[|a| - 1];
    var k := SpacedNumberRuns(m, |a|);
    DropAt(m, |a| + k, |a|);
    assert m[..|a|] == a;
  }

  lemma DropAt(m: string, t: nat, g: nat)
    requires g < t < |m| && t == RunBefore(IsDigit, m, |m|) && g == RunBefore(IsSpace, m, t)
    ensures DropTrailingNumber(m) == m[..g]
  {
  }

  lemma SpacedNumberRuns(m: string, n: nat) returns (k: nat)
    requires n <= |m| && IsSpacedNumber(m[n..]) && (n == 0 || !IsSpace(m[n - 1]))
    ensures 0 < k < |m| - n
    ensures RunBefore(IsDigit, m, |m|) == n + k
    ensures RunBefore(IsSpace, m, n + k) == n
  {
    k := SpacedNumberSplit(m, n);
    RunBeforeExact(IsDigit, m, n + k, |m|);
    RunBeforeExact(IsSpace, m, n, n + k);
  }

  /** `re.sub(r'[ऀ-ॿ]+', '', m).strip()`: the meaning with every Devanagari
      character deleted, then stripped. */
  function MeaningBase(m: string): string {
    Strip(Filter(NotDevanagari, m))
  }

  /** What `process_page_text` leaves of a meaning: no Devanagari character, no whitespace at
      either end, and at most one trailing whitespace-and-number group fewer than the
      Devanagari-free text had. */
  function CleanMeaning(m: string): (r: string)
    ensures AllOf(NotDevanagari, r)
    ensures Stripped(r)
    ensures r <= MeaningBase(m)
    ensures r != MeaningBase(m) ==> IsSpacedNumber(MeaningBase(m)[|r|..])
  {
    var cut := DropTrailingNumber(MeaningBase(m));
    CutStripped(m, cut);
    Strip(cut)
  }

  lemma CutStripped(m: string, cut: string)
    requires cut == DropTrailingNumber(MeaningBase(m))
    ensures Stripped(cut) && Strip(cut) == cut && AllOf(NotDevanagari, cut)
  {
    var s := MeaningBase(m);
    StripAllOf(NotDevanagari, Filter(NotDevanagari, m));
    assert cut <= s;
    assert forall k :: 0 <= k < |cut| ==> cut[k] == s[k];
    StripStripped(cut);
  }

  /** A stripped meaning without Devanagari characters that ends in a whitespace-and-digits
      group after a non-whitespace character loses exactly that group. */
  lemma CleanMeaningDropsNumber(a: string, t: string)
    requires AllOf(NotDevanagari, a + t) && Stripped(a + t)
    requires IsSpacedNumber(t) && (a == [] || !IsSpace(a[|a| - 1])) && Stripped(a)
    ensures CleanMeaning(a + t) == a
  {
    StripStripped(a + t);
    assert MeaningBase(a + t) == a + t;
    DropTrailingNumberExact(a, t);
    StripStripped(a);
  }
}
