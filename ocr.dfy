/** `clean_text` of ocr.py: four string rewrites applied one after the other to the
    text extracted from the whole document. */
module Ocr {
  import opened Text

  // ---------------------------------------------------------------------------
  // Step 1: `re.sub(r"\(cid:\d+\)", "", text)`
  // ---------------------------------------------------------------------------

  /** `s` starts with "(cid:". */
  predicate CidOpen(s: string) {
    |s| >= 5 && s[0] == '(' && s[1] == 'c' && s[2] == 'i' && s[3] == 'd' && s[4] == ':'
  }

  /** A whole glyph placeholder: "(cid:", one or more digits, ")". */
  predicate IsCidToken(t: string) {
    |t| >= 7 && CidOpen(t) && t[|t| - 1] == ')' && forall k :: 5 <= k < |t| - 1 ==> IsDigit(t[k])
  }

  /** Length of the placeholder that `s` starts with, or 0 when it starts with none.
      At most one prefix of `s` is a placeholder, so the match is unique. */
  function CidAt(s: string): (n: nat)
    ensures n > 0 ==> n <= |s| && IsCidToken(s[..n])
    ensures forall k :: 0 < k <= |s| && IsCidToken(s[..k]) ==> k == n
  {
    if |s| >= 7 && CidOpen(s) then
      var d := SkipWhile(IsDigit, s, 5);
      CidAtUnique(s, d);
      if d > 5 && d < |s| && s[d] == ')' then d + 1 else 0
    else 0
  }

  lemma CidAtUnique(s: string, d: nat)
    requires |s| >= 7 && CidOpen(s)
    requires d == SkipWhile(IsDigit, s, 5)
    ensures forall k :: 0 < k <= |s| && IsCidToken(s[..k]) ==> k == d + 1 && d > 5 && d < |s| && s[d] == ')'
  {
    forall k | 0 < k <= |s| && IsCidToken(s[..k])
      ensures k == d + 1 && d > 5 && d < |s| && s[d] == ')'
    {
      var t := s[..k];
      assert forall m :: 5 <= m < k - 1 ==> t[m] == s[m] && IsDigit(s[m]);
      assert s[k - 1] == t[k - 1] == ')';
      assert !IsDigit(s[k - 1]);
    }
  }

  /** `re.sub(r"\(cid:\d+\)", "", s)`: one left-to-right pass that deletes each placeholder
      it meets and resumes scanning right after it. */
  function RemoveCid(s: string): string
    decreases |s|
  {
    if s == [] then []
    else
      var n := CidAt(s);
      if n > 0 then RemoveCid(s[n..]) else [s[0]] + RemoveCid(s[1..])
  }

  /** Characters that can never be part of a placeholder. */
  predicate OutsideCid(c: char) {
    !(c == '(' || c == 'c' || c == 'i' || c == 'd' || c == ':' || c == ')' || IsDigit(c))
  }

  lemma CidTokenInside(t: string)
    requires IsCidToken(t)
    ensures Filter(OutsideCid, t) == []
  {
    assert forall k :: 0 <= k < |t| ==> !OutsideCid(t[k]);
  }

  /** Nothing but placeholder text is deleted: every character that cannot belong to a
      placeholder (line breaks, spaces, letters other than c, i, d, ...) survives, in order. */
  lemma {:induction false} RemoveCidKeeps(s: string)
    ensures Filter(OutsideCid, RemoveCid(s)) == Filter(OutsideCid, s)
    decreases |s|
  {
    if s != [] {
      var n := CidAt(s);
      if n > 0 {
        assert s == s[..n] + s[n..];
        FilterAppend(OutsideCid, s[..n], s[n..]);
        CidTokenInside(s[..n]);
        RemoveCidKeeps(s[n..]);
      } else {
        assert s == [s[0]] + s[1..];
        FilterAppend(OutsideCid, [s[0]], s[1..]);
        FilterAppend(OutsideCid, [s[0]], RemoveCid(s[1..]));
        RemoveCidKeeps(s[1..]);
      }
    }
  }

  /** A placeholder is deleted, and the text before it kept, when no placeholder starts inside
      that text (it may hold '(' that starts none). */
  lemma {:induction false} RemoveCidDeletes(a: string, t: string, b: string)
    requires forall i :: 0 <= i < |a| ==> CidAt((a + t + b)[i..]) == 0
    requires IsCidToken(t)
    ensures RemoveCid(a + t + b) == a + RemoveCid(b)
    decreases |a|
  {
    if a == [] {
      assert a + t + b == t + b;
      CidTokenFirst(t, b);
    } else {
      var rest := RemoveCid(a[1..] + t + b);
      assert RemoveCid(a + t + b) == [a[0]] + rest && rest == a[1..] + RemoveCid(b) by {
        CidFreeFirst(a, t, b);
        RemoveCidDeletes(a[1..], t, b);
      }
      ConsRegroup(RemoveCid(a + t + b), a, rest, RemoveCid(b));
    }
  }

  lemma ConsRegroup(r: string, a: string, rest: string, rb: string)
    requires a != [] && r == [a[0]] + rest && rest == a[1..] + rb
    ensures r == a + rb
  {
    assert a == [a[0]] + a[1..];
  }

  lemma CidTokenFirst(t: string, b: string)
    requires IsCidToken(t)
    ensures RemoveCid(t + b) == RemoveCid(b)
  {
    var s := t + b;
    assert s[..|t|] == t && s[|t|..] == b;
    assert CidAt(s) == |t|;
  }

  /** The first character of a placeholder-free prefix is kept, and the rest of the prefix is
      placeholder-free too. */
  lemma CidFreeFirst(a: string, t: string, b: string)
    requires a != []
    requires forall i :: 0 <= i < |a| ==> CidAt((a + t + b)[i..]) == 0
    ensures RemoveCid(a + t + b) == [a[0]] + RemoveCid(a[1..] + t + b)
    ensures forall i :: 0 <= i < |a[1..]| ==> CidAt((a[1..] + t + b)[i..]) == 0
  {
    var s := a + t + b;
    assert CidAt(s) == 0 by {
      assert s[0..] == s;
    }
    var s' := a[1..] + t + b;
    assert s[1..] == s';
    assert forall i :: 0 <= i < |a| - 1 ==> s'[i..] == s[i + 1..];
  }

  /** A '(' that opens no placeholder does not stop the one after it from being deleted. */
  lemma RemoveCidAfterParen()
    ensures RemoveCid("(a" + "(cid:1)") == "(a"
  {
    var a, t: string := "(a", "(cid:1)";
    var s := a + t + [];
    assert s == a + t;
    assert IsCidToken(t);
    forall i | 0 <= i < |a|
      ensures CidAt(s[i..]) == 0
    {
      assert s[i..][0] == s[i] && s[i..][1] == s[i + 1];
    }
    RemoveCidDeletes(a, t, []);
  }

  /** Text in which no placeholder starts passes unchanged. */
  lemma {:induction false} RemoveCidNone(s: string)
    requires forall i :: 0 <= i < |s| ==> CidAt(s[i..]) == 0
    ensures RemoveCid(s) == s
    decreases |s|
  {
    if s != [] {
      assert CidAt(s) == 0 by {
        assert s[0..] == s;
      }
      assert forall i :: 0 <= i < |s| - 1 ==> s[1..][i..] == s[i + 1..];
      RemoveCidNone(s[1..]);
      assert s == [s[0]] + s[1..];
    }
  }

  /** Text without '(' holds no placeholder and passes unchanged. */
  lemma {:induction false} RemoveCidNoParen(s: string)
    requires '(' !in s
    ensures RemoveCid(s) == s
    decreases |s|
  {
    if s != [] {
      assert s[0] != '(';
      assert CidAt(s) == 0;
      RemoveCidNoParen(s[1..]);
    }
  }

  /** The pass is single: deleting "(cid:1)" out of "((cid:1)cid:2)" joins the remaining
      characters into a new placeholder, which survives. */
  lemma RemoveCidSinglePass()
    ensures RemoveCid("((cid:1)cid:2)") == "(cid:2)"
    ensures IsCidToken("(cid:2)")
  {
    var t, b := "(cid:1)", "cid:2)";
    SinglePassPieces();
    assert RemoveCid(t + b) == RemoveCid(b) by {
      RemoveCidDeletes([], t, b);
    }
    RemoveCidNoParen(b);
  }

  lemma SinglePassPieces()
    ensures "((cid:1)cid:2)"[0] == '(' && "((cid:1)cid:2)"[1..] == "(cid:1)" + "cid:2)"
    ensures CidAt("((cid:1)cid:2)") == 0
    ensures IsCidToken("(cid:1)") && IsCidToken("(cid:2)")
    ensures [] + "(cid:1)" + "cid:2)" == "(cid:1)" + "cid:2)"
    ensures '(' !in "cid:2)" && "(" + "cid:2)" == "(cid:2)"
  {
  }

  // ---------------------------------------------------------------------------
  // Step 2: `re.sub(r"Â©.*", "", text)`
  // ---------------------------------------------------------------------------

  /** "Â©" (U+00C2 U+00A9) starts at position `i` of `s`. */
  predicate CopyrightAt(s: string, i: int) {
    0 <= i && i + 1 < |s| && s[i] == '\U{00C2}' && s[i + 1] == '\U{00A9}'
  }

  /** `re.sub(r"Â©.*", "", s)`: each match runs from "Â©" up to, not including, the next
      line break (`.` does not match one), or to the end of `s`; scanning resumes after it. */
  function RemoveCopyright(s: string): string
    decreases |s|
  {
    if s == [] then []
    else if CopyrightAt(s, 0) then
      var j := SkipWhile(NotNewline, s, 0);
      RemoveCopyright(s[j..])
    else [s[0]] + RemoveCopyright(s[1..])
  }

  /** What the substitution leaves of a single line: the part before its first "Â©". */
  function CutLine(l: string): (r: string)
    ensures r <= l
    ensures forall i :: !CopyrightAt(r, i)
    ensures r == l || CopyrightAt(l, |r|)
  {
    if l == [] then []
    else if CopyrightAt(l, 0) then []
    else
      var r' := CutLine(l[1..]);
      assert forall i :: 1 <= i ==> (CopyrightAt([l[0]] + r', i) ==> CopyrightAt(r', i - 1));
      assert r' != [] ==> r'[0] == l[1];
      assert CopyrightAt([l[0]] + r', 0) ==> CopyrightAt(l, 0);
      [l[0]] + r'
  }

  function CutLines(ls: seq<string>): (rs: seq<string>)
    ensures |rs| == |ls|
    ensures forall k :: 0 <= k < |ls| ==> rs[k] == CutLine(ls[k])
  {
    if ls == [] then [] else [CutLine(ls[0])] + CutLines(ls[1..])
  }

  lemma {:induction false} RemoveCopyrightLine(l: string, rest: string)
    requires '\n' !in l
    requires rest == [] || rest[0] == '\n'
    ensures RemoveCopyright(l + rest) == CutLine(l) + RemoveCopyright(rest)
    decreases |l|
  {
    var s := l + rest;
    if l == [] {
      assert s == rest;
    } else if CopyrightAt(l, 0) {
      assert CopyrightAt(s, 0);
      assert forall k :: 0 <= k < |l| ==> s[k] == l[k] && NotNewline(s[k]);
      assert |l| == |s| || s[|l|] == rest[0] == '\n';
      assert SkipWhile(NotNewline, s, 0) == |l|;
      assert s[|l|..] == rest;
    } else {
      assert !CopyrightAt(s, 0);
      assert s[1..] == l[1..] + rest;
      RemoveCopyrightLine(l[1..], rest);
    }
  }

  lemma {:induction false} RemoveCopyrightJoin(ls: seq<string>)
    requires forall k :: 0 <= k < |ls| ==> '\n' !in ls[k]
    ensures RemoveCopyright(Join(ls, '\n')) == Join(CutLines(ls), '\n')
    decreases |ls|
  {
    if |ls| == 1 {
      assert ls[0] + [] == ls[0];
      RemoveCopyrightLine(ls[0], []);
    } else if |ls| > 1 {
      var rest := Join(ls[1..], '\n');
      assert Join(ls, '\n') == ls[0] + (['\n'] + rest);
      RemoveCopyrightLine(ls[0], ['\n'] + rest);
      assert (['\n'] + rest)[1..] == rest;
      RemoveCopyrightJoin(ls[1..]);
      assert CutLines(ls)[1..] == CutLines(ls[1..]);
    }
  }

  /** Line by line, the substitution deletes everything from the first "Â©" to the end of
      that line; every line break is kept, so the text of later lines survives. */
  lemma RemoveCopyrightPerLine(s: string)
    ensures Split(RemoveCopyright(s), '\n') == CutLines(Split(s, '\n'))
  {
    var ls := Split(s, '\n');
    RemoveCopyrightJoin(ls);
    var cut := CutLines(ls);
    forall k | 0 <= k < |cut| ensures '\n' !in cut[k] {
      assert cut[k] <= ls[k];
      assert forall m :: 0 <= m < |cut[k]| ==> cut[k][m] == ls[k][m] && ls[k][m] in ls[k];
    }
    SplitJoin(cut, '\n');
  }

  /** Text without 'Â' holds no copyright notice and passes unchanged. */
  lemma {:induction false} RemoveCopyrightNone(s: string)
    requires '\U{00C2}' !in s
    ensures RemoveCopyright(s) == s
    decreases |s|
  {
    if s != [] {
      RemoveCopyrightNone(s[1..]);
    }
  }

  // ---------------------------------------------------------------------------
  // Step 3: `text.replace("\n", " ")`
  // ---------------------------------------------------------------------------

  /** `s.replace("\n", " ")`: no line break is left, and only whitespace is touched. */
  function NewlinesToSpaces(s: string): (r: string)
    ensures |r| == |s| && '\n' !in r
    ensures forall k :: 0 <= k < |s| ==> (IsSpace(r[k]) <==> IsSpace(s[k]))
    ensures forall k :: 0 <= k < |s| && !IsSpace(s[k]) ==> r[k] == s[k]
  {
    seq(|s|, k requires 0 <= k < |s| => if s[k] == '\n' then ' ' else s[k])
  }

  lemma {:induction false} SameSpacesSameFilter(s: string, r: string)
    requires |r| == |s|
    requires forall k :: 0 <= k < |s| ==> (IsSpace(r[k]) <==> IsSpace(s[k]))
    requires forall k :: 0 <= k < |s| && !IsSpace(s[k]) ==> r[k] == s[k]
    ensures Filter(NotSpace, r) == Filter(NotSpace, s)
    decreases |s|
  {
    if s != [] {
      SameSpacesSameFilter(s[1..], r[1..]);
    }
  }

  // ---------------------------------------------------------------------------
  // Step 4: `re.sub(r"\s+", " ", text).strip()`
  // ---------------------------------------------------------------------------

  /** Every whitespace character is a plain space, and no two whitespace characters are adjacent. */
  predicate SingleSpaced(r: string) {
    (forall k :: 0 <= k < |r| && IsSpace(r[k]) ==> r[k] == ' ')
    && (forall k :: 0 < k < |r| && IsSpace(r[k]) ==> !IsSpace(r[k - 1]))
  }

  /** `re.sub(r"\s+", " ", s)`: each maximal run of whitespace becomes one space. */
  function CollapseSpaces(s: string): (r: string)
    ensures |r| <= |s|
    ensures r == [] <==> s == []
    ensures s != [] ==> (IsSpace(r[0]) <==> IsSpace(s[0]))
    ensures SingleSpaced(r)
    decreases |s|
  {
    if s == [] then []
    else if IsSpace(s[0]) then
      var j := SkipWhile(IsSpace, s, 0);
      [' '] + CollapseSpaces(s[j..])
    else [s[0]] + CollapseSpaces(s[1..])
  }

  /** Collapsing only rewrites whitespace: the other characters come out exactly, in order. */
  lemma {:induction false} CollapseKeeps(s: string)
    ensures Filter(NotSpace, CollapseSpaces(s)) == Filter(NotSpace, s)
    decreases |s|
  {
    if s != [] {
      if IsSpace(s[0]) {
        var j := SkipWhile(IsSpace, s, 0);
        assert s == s[..j] + s[j..];
        FilterAppend(NotSpace, s[..j], s[j..]);
        assert Filter(NotSpace, s[..j]) == [];
        FilterAppend(NotSpace, [' '], CollapseSpaces(s[j..]));
        CollapseKeeps(s[j..]);
      } else {
        assert s == [s[0]] + s[1..];
        FilterAppend(NotSpace, [s[0]], s[1..]);
        FilterAppend(NotSpace, [s[0]], CollapseSpaces(s[1..]));
        CollapseKeeps(s[1..]);
      }
    }
  }

  /** Single-spaced text is left as it is. */
  lemma {:induction false} CollapseFixed(s: string)
    requires SingleSpaced(s)
    ensures CollapseSpaces(s) == s
    decreases |s|
  {
    if s != [] {
      assert SingleSpaced(s[1..]);
      if IsSpace(s[0]) {
        assert s[0] == ' ';
        assert SkipWhile(IsSpace, s, 0) == 1 by {
          if |s| > 1 { assert !IsSpace(s[1]); }
        }
      }
      CollapseFixed(s[1..]);
    }
  }

  lemma SingleSpacedSlice(c: string, i: nat, j: nat)
    requires i <= j <= |c| && SingleSpaced(c)
    ensures SingleSpaced(c[i..j])
  {
    assert forall k :: 0 <= k < j - i ==> c[i..j][k] == c[i + k];
  }

  /** `re.sub(r"\s+", " ", s).strip()` */
  function CollapseAndStrip(s: string): string {
    Strip(CollapseSpaces(s))
  }

  /** The collapse-and-strip step leaves no whitespace at either end, only single spaces
      between words, and every other character of its input in order. */
  lemma CollapseAndStripShape(s: string)
    ensures CollapseAndStrip(s) == Join(Words(s), ' ')
    ensures Stripped(CollapseAndStrip(s))
    ensures SingleSpaced(CollapseAndStrip(s))
    ensures Filter(NotSpace, CollapseAndStrip(s)) == Filter(NotSpace, s)
  {
    CollapseAndStripWords(s);
    var c := CollapseSpaces(s);
    var r := Strip(c);
    var i, j :| 0 <= i <= j <= |c| && r == c[i..j] && AllOf(IsSpace, c[..i]) && AllOf(IsSpace, c[j..]);
    SingleSpacedSlice(c, i, j);
    StripKeeps(c);
    CollapseKeeps(s);
  }

  /** Python's `s.split()`: the maximal runs of non-whitespace characters, in order. */
  function Words(s: string): (ws: seq<string>)
    ensures forall k :: 0 <= k < |ws| ==> ws[k] != [] && AllOf(NotSpace, ws[k])
    decreases |s|
  {
    var i := SkipWhile(IsSpace, s, 0);
    if i == |s| then []
    else
      var j := SkipWhile(NotSpace, s, i);
      assert AllOf(NotSpace, s[i..j]);
      [s[i..j]] + Words(s[j..])
  }

  /** The space that a leading whitespace run collapses to. */
  function Lead(s: string): string {
    if s != [] && IsSpace(s[0]) then " " else []
  }

  /** The space that a trailing whitespace run after the last word collapses to. */
  function Trail(s: string): string {
    if s != [] && IsSpace(s[|s| - 1]) && Words(s) != [] then " " else []
  }

  /** A run of non-whitespace characters passes the collapse unchanged. */
  lemma {:induction false} CollapseWord(w: string, r: string)
    requires AllOf(NotSpace, w)
    ensures CollapseSpaces(w + r) == w + CollapseSpaces(r)
    decreases |w|
  {
    if w == [] {
      assert w + r == r;
    } else {
      assert (w + r)[0] == w[0] && (w + r)[1..] == w[1..] + r;
      CollapseWord(w[1..], r);
    }
  }

  lemma JoinCons(w: string, ws: seq<string>, sep: char)
    requires ws != []
    ensures Join([w] + ws, sep) == w + [sep] + Join(ws, sep)
  {
    assert ([w] + ws)[1..] == ws;
  }

  /** The first word of `s` runs from `i` to `j`; what follows it is empty or starts with
      whitespace. */
  lemma FirstWord(s: string, i: nat, j: nat)
    requires i == SkipWhile(IsSpace, s, 0) && i < |s| && j == SkipWhile(NotSpace, s, i)
    ensures i < j
    ensures Words(s) == [s[i..j]] + Words(s[j..])
    ensures s[j..] == [] || IsSpace(s[j..][0])
    ensures s[j..] == [] ==> !IsSpace(s[|s| - 1])
    ensures s[j..] != [] ==> s[|s| - 1] == s[j..][|s[j..]| - 1]
  {
  }

  /** The whitespace before the first word collapses to `Lead(s)` and the word is kept. */
  lemma FirstWordCollapse(s: string, i: nat, j: nat)
    requires i == SkipWhile(IsSpace, s, 0) && i < j <= |s|
    requires AllOf(NotSpace, s[i..j])
    ensures CollapseSpaces(s) == Lead(s) + s[i..j] + CollapseSpaces(s[j..])
  {
    LeadCollapse(s, i);
    WordAfterLead(s, i, j);
    Regroup3(CollapseSpaces(s), Lead(s), CollapseSpaces(s[i..]), s[i..j], CollapseSpaces(s[j..]));
  }

  lemma Regroup3(cs: string, lead: string, cx: string, w: string, cr: string)
    requires cs == lead + cx && cx == w + cr
    ensures cs == lead + w + cr
  {
  }

  /** The leading whitespace run collapses to `Lead(s)`. */
  lemma LeadCollapse(s: string, i: nat)
    requires i == SkipWhile(IsSpace, s, 0) && i < |s|
    ensures CollapseSpaces(s) == Lead(s) + CollapseSpaces(s[i..])
  {
    if i == 0 {
      assert s[i..] == s;
    }
  }

  /** A word at the front of `s[i..]` passes the collapse unchanged. */
  lemma WordAfterLead(s: string, i: nat, j: nat)
    requires i <= j <= |s| && AllOf(NotSpace, s[i..j])
    ensures CollapseSpaces(s[i..]) == s[i..j] + CollapseSpaces(s[j..])
  {
    assert s[i..] == s[i..j] + s[j..];
    CollapseWord(s[i..j], s[j..]);
  }

  lemma NoWords(r: string)
    requires Words(r) == []
    ensures AllOf(IsSpace, r)
  {
  }

  /** The collapse of the text after the first word, put back behind that word. */
  lemma Recombine(s: string, w: string, r: string)
    requires w != []
    requires Words(s) == [w] + Words(r)
    requires CollapseSpaces(s) == Lead(s) + w + CollapseSpaces(r)
    requires CollapseSpaces(r) == Lead(r) + Join(Words(r), ' ') + Trail(r)
    requires r == [] || IsSpace(r[0])
    requires r == [] ==> s != [] && !IsSpace(s[|s| - 1])
    requires r != [] ==> s != [] && s[|s| - 1] == r[|r| - 1]
    ensures CollapseSpaces(s) == Lead(s) + Join(Words(s), ' ') + Trail(s)
  {
    if r == [] {
      RecombineLast(s, w, r);
    } else if Words(r) == [] {
      NoWords(r);
      RecombineTrailing(s, w, r);
    } else {
      RecombineMore(s, w, r);
    }
  }

  lemma RecombineLast(s: string, w: string, r: string)
    requires w != [] && r == [] && s != [] && !IsSpace(s[|s| - 1])
    requires Words(s) == [w] + Words(r)
    requires CollapseSpaces(s) == Lead(s) + w + CollapseSpaces(r)
    ensures CollapseSpaces(s) == Lead(s) + Join(Words(s), ' ') + Trail(s)
  {
    assert Words(r) == [];
    assert Words(s) == [w];
    assert Trail(s) == [];
  }

  lemma RecombineTrailing(s: string, w: string, r: string)
    requires w != [] && r != [] && IsSpace(r[0]) && Words(r) == [] && AllOf(IsSpace, r)
    requires s != [] && s[|s| - 1] == r[|r| - 1]
    requires Words(s) == [w] + Words(r)
    requires CollapseSpaces(s) == Lead(s) + w + CollapseSpaces(r)
    requires CollapseSpaces(r) == Lead(r) + Join(Words(r), ' ') + Trail(r)
    ensures CollapseSpaces(s) == Lead(s) + Join(Words(s), ' ') + Trail(s)
  {
    assert Lead(r) == " " && Trail(r) == [];
    assert Words(s) == [w];
    assert Trail(s) == " ";
  }

  lemma RecombineMore(s: string, w: string, r: string)
    requires w != [] && r != [] && IsSpace(r[0]) && Words(r) != []
    requires s != [] && s[|s| - 1] == r[|r| - 1]
    requires Words(s) == [w] + Words(r)
    requires CollapseSpaces(s) == Lead(s) + w + CollapseSpaces(r)
    requires CollapseSpaces(r) == Lead(r) + Join(Words(r), ' ') + Trail(r)
    ensures CollapseSpaces(s) == Lead(s) + Join(Words(s), ' ') + Trail(s)
  {
    JoinCons(w, Words(r), ' ');
    assert Lead(r) == " ";
    assert Trail(s) == Trail(r);
    Regroup(CollapseSpaces(s), Lead(s), w, CollapseSpaces(r), Join(Words(r), ' '), Trail(r),
      Join(Words(s), ' '));
  }

  lemma Regroup(cs: string, lead: string, w: string, cr: string, jr: string, tr: string, js: string)
    requires cs == lead + w + cr && cr == " " + jr + tr && js == w + [' '] + jr
    ensures cs == lead + js + tr
  {
  }

  /** `re.sub(r"\s+", " ", s)` is the words of `s` joined by single spaces, with one more
      space where `s` starts with whitespace and one where it ends with whitespace after a
      word. */
  lemma {:induction false} CollapseWords(s: string)
    ensures CollapseSpaces(s) == Lead(s) + Join(Words(s), ' ') + Trail(s)
    decreases |s|
  {
    var i := SkipWhile(IsSpace, s, 0);
    if i == |s| {
      CollapseBlankRun(s);
    } else {
      var j := SkipWhile(NotSpace, s, i);
      FirstWord(s, i, j);
      FirstWordCollapse(s, i, j);
      CollapseWords(s[j..]);
      Recombine(s, s[i..j], s[j..]);
    }
  }

  /** Text of whitespace only collapses to one space, or to nothing when empty. */
  lemma CollapseBlankRun(s: string)
    requires SkipWhile(IsSpace, s, 0) == |s|
    ensures CollapseSpaces(s) == Lead(s) + Join(Words(s), ' ') + Trail(s)
  {
    if s != [] {
      assert s[|s|..] == [];
      assert CollapseSpaces(s) == " ";
    }
    assert Words(s) == [];
  }

  /** Words joined by single spaces neither start nor end with whitespace. */
  lemma {:induction false} JoinWordsStripped(ws: seq<string>)
    requires forall k :: 0 <= k < |ws| ==> ws[k] != [] && AllOf(NotSpace, ws[k])
    ensures Stripped(Join(ws, ' '))
    ensures ws != [] ==> Join(ws, ' ') != [] && Join(ws, ' ')[0] == ws[0][0]
    decreases |ws|
  {
    if |ws| > 1 {
      JoinWordsStripped(ws[1..]);
      var rest := Join(ws[1..], ' ');
      assert Join(ws, ' ') == ws[0] + [' '] + rest;
    }
  }

  lemma StripPadded(x: string, m: string, y: string)
    requires AllOf(IsSpace, x) && AllOf(IsSpace, y) && Stripped(m)
    ensures Strip(x + m + y) == m
  {
    var s := x + m + y;
    if m == [] {
      assert s == x + y;
      StripAllSpace(x + y);
    } else {
      SkipWhileExact(IsSpace, s, 0, |x|);
      RunBeforeExact(IsSpace, s, |x| + |m|, |s|);
      assert s[|x|..|x| + |m|] == m;
    }
  }

  /** `re.sub(r"\s+", " ", s).strip() == " ".join(s.split())`: every whitespace run between
      two words becomes exactly one space, and the runs at either end disappear. */
  lemma CollapseAndStripWords(s: string)
    ensures CollapseAndStrip(s) == Join(Words(s), ' ')
  {
    var lead, m, tr := Lead(s), Join(Words(s), ' '), Trail(s);
    assert CollapseSpaces(s) == lead + m + tr by {
      CollapseWords(s);
    }
    assert Stripped(m) by {
      JoinWordsStripped(Words(s));
    }
    assert AllOf(IsSpace, lead) && AllOf(IsSpace, tr);
    StripPadded(lead, m, tr);
  }

  /** Texts that have whitespace at the same places and agree everywhere else have the
      same words. */
  lemma {:induction false} WordsSameSpaces(s: string, r: string)
    requires |r| == |s|
    requires forall k :: 0 <= k < |s| ==> (IsSpace(r[k]) <==> IsSpace(s[k]))
    requires forall k :: 0 <= k < |s| && !IsSpace(s[k]) ==> r[k] == s[k]
    ensures Words(r) == Words(s)
    decreases |s|
  {
    var i := SkipWhile(IsSpace, s, 0);
    SkipWhileExact(IsSpace, r, 0, i);
    if i < |s| {
      var j := SkipWhile(NotSpace, s, i);
      SkipWhileExact(NotSpace, r, i, j);
      assert r[i..j] == s[i..j];
      SameSpacesSuffix(s, r, j);
      WordsSameSpaces(s[j..], r[j..]);
    }
  }

  lemma SameSpacesSuffix(s: string, r: string, j: nat)
    requires |r| == |s| && j <= |s|
    requires forall k :: 0 <= k < |s| ==> (IsSpace(r[k]) <==> IsSpace(s[k]))
    requires forall k :: 0 <= k < |s| && !IsSpace(s[k]) ==> r[k] == s[k]
    ensures |r[j..]| == |s[j..]|
    ensures forall k :: 0 <= k < |s[j..]| ==> (IsSpace(r[j..][k]) <==> IsSpace(s[j..][k]))
    ensures forall k :: 0 <= k < |s[j..]| && !IsSpace(s[j..][k]) ==> r[j..][k] == s[j..][k]
  {
    var s', r' := s[j..], r[j..];
    assert forall k :: 0 <= k < |s'| ==> s'[k] == s[j + k] && r'[k] == r[j + k];
  }

  /** Collapsing and stripping twice is the same as once. */
  lemma CollapseAndStripIdempotent(s: string)
    ensures CollapseAndStrip(CollapseAndStrip(s)) == CollapseAndStrip(s)
  {
    var r := CollapseAndStrip(s);
    CollapseAndStripShape(s);
    CollapseFixed(r);
    StripStripped(r);
  }

  /** Whitespace-only text (the empty text included) collapses to "". */
  lemma CollapseAndStripBlank(s: string)
    requires AllOf(IsSpace, s)
    ensures CollapseAndStrip(s) == []
  {
    var c := CollapseSpaces(s);
    if s != [] {
      assert SkipWhile(IsSpace, s, 0) == |s|;
      assert c == [' '];
    }
    StripAllSpace(c);
  }

  // ---------------------------------------------------------------------------
  // The whole of `clean_text`
  // ---------------------------------------------------------------------------

  /** `clean_text(text)` of ocr.py. */
  function CleanText(s: string): string {
    CollapseAndStrip(NewlinesToSpaces(RemoveCopyright(RemoveCid(s))))
  }

  /** The cleaned text is the words left by the two deletions, joined by single spaces. */
  lemma CleanTextWords(s: string)
    ensures CleanText(s) == Join(Words(RemoveCopyright(RemoveCid(s))), ' ')
  {
    var d := RemoveCopyright(RemoveCid(s));
    var n := NewlinesToSpaces(d);
    CollapseAndStripWords(n);
    WordsSameSpaces(d, n);
  }

  /** The cleaned text is the words left by the two deletions joined by single spaces: so it
      holds no line break, no whitespace at either end, never two whitespace characters in a
      row, only plain spaces as whitespace; and its other characters are exactly those left by
      the two deletions, in order. */
  lemma CleanTextShape(s: string)
    ensures CleanText(s) == Join(Words(RemoveCopyright(RemoveCid(s))), ' ')
    ensures '\n' !in CleanText(s)
    ensures Stripped(CleanText(s)) && SingleSpaced(CleanText(s))
    ensures Filter(NotSpace, CleanText(s)) == Filter(NotSpace, RemoveCopyright(RemoveCid(s)))
  {
    var d := RemoveCopyright(RemoveCid(s));
    var n := NewlinesToSpaces(d);
    CollapseAndStripShape(n);
    SameSpacesSameFilter(d, n);
    CleanTextWords(s);
    var r := CleanText(s);
    assert forall k :: 0 <= k < |r| ==> r[k] != '\n';
  }

  /** Empty or whitespace-only text cleans to "". */
  lemma CleanTextBlank(s: string)
    requires AllOf(IsSpace, s)
    ensures CleanText(s) == []
  {
    assert '(' !in s && '\U{00C2}' !in s by {
      forall k | 0 <= k < |s| ensures s[k] != '(' && s[k] != '\U{00C2}' {
        assert IsSpace(s[k]);
      }
    }
    RemoveCidNoParen(s);
    RemoveCopyrightNone(s);
    CollapseAndStripBlank(NewlinesToSpaces(s));
  }
}
