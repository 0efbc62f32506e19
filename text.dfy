/** Character classes and string helpers shared by the page parser and the text cleaner.
    Python's `str` is a sequence of code points, modelled here as `seq<char>`. */
module Text {

  /** What Python's `str.isspace()` accepts, which is also what `\s` matches in a `str` pattern:
      tab, line feed, vertical tab, form feed, carriage return, the four information separators,
      space, next line, no-break space and the Unicode space separators. */
  predicate IsSpace(c: char) {
    ('\t' <= c <= '\r') || ('\U{001C}' <= c <= '\U{001F}') || c == ' '
    || c == '\U{0085}' || c == '\U{00A0}' || c == '\U{1680}'
    || ('\U{2000}' <= c <= '\U{200A}') || c == '\U{2028}' || c == '\U{2029}'
    || c == '\U{202F}' || c == '\U{205F}' || c == '\U{3000}'
  }

  predicate NotSpace(c: char) { !IsSpace(c) }

  /** `\d`: the ASCII digits and the Devanagari digits (U+0966 to U+096F). */
  predicate IsDigit(c: char) {
    ('0' <= c <= '9') || ('\U{0966}' <= c <= '\U{096F}')
  }

  /** The Devanagari block of the Unicode Standard, U+0900 to U+097F. */
  predicate IsDevanagari(c: char) {
    '\U{0900}' <= c <= '\U{097F}'
  }

  predicate NotDevanagari(c: char) { !IsDevanagari(c) }

  predicate NotNewline(c: char) { c != '\n' }

  /** Every character of `s` satisfies `p`. */
  predicate AllOf(p: char -> bool, s: string) {
    forall k :: 0 <= k < |s| ==> p(s[k])
  }

  /** End of the maximal run of `p`-characters that starts at `i`. */
  function SkipWhile(p: char -> bool, s: string, i: nat): (j: nat)
    requires i <= |s|
    ensures i <= j <= |s|
    ensures forall k :: i <= k < j ==> p(s[k])
    ensures j == |s| || !p(s[j])
    decreases |s| - i
  {
    if i == |s| || !p(s[i]) then i else SkipWhile(p, s, i + 1)
  }

  /** The maximal run is the only one: any end that satisfies the run conditions is the one found. */
  lemma SkipWhileExact(p: char -> bool, s: string, i: nat, j: nat)
    requires i <= j <= |s|
    requires forall k :: i <= k < j ==> p(s[k])
    requires j == |s| || !p(s[j])
    ensures SkipWhile(p, s, i) == j
  {
  }

  /** Start of the maximal run of `p`-characters that ends just before `j`. */
  function RunBefore(p: char -> bool, s: string, j: nat): (i: nat)
    requires j <= |s|
    ensures i <= j
    ensures forall k :: i <= k < j ==> p(s[k])
    ensures i == 0 || !p(s[i - 1])
    decreases j
  {
    if j == 0 || !p(s[j - 1]) then j else RunBefore(p, s, j - 1)
  }

  /** The backward run is the only one: any start that satisfies the run conditions is the one found. */
  lemma {:induction false} RunBeforeExact(p: char -> bool, s: string, i: nat, j: nat)
    requires i <= j <= |s|
    requires forall k :: i <= k < j ==> p(s[k])
    requires i == 0 || !p(s[i - 1])
    ensures RunBefore(p, s, j) == i
    decreases j - i
  {
    if i < j {
      RunBeforeExact(p, s, i, j - 1);
    }
  }

  /** The characters of `s` that satisfy `p`, in order. */
  function Filter(p: char -> bool, s: string): (r: string)
    ensures |r| <= |s|
    ensures AllOf(p, r)
    ensures AllOf(p, s) ==> r == s
    ensures (forall k :: 0 <= k < |s| ==> !p(s[k])) ==> r == []
  {
    if s == [] then [] else (if p(s[0]) then [s[0]] else []) + Filter(p, s[1..])
  }

  lemma {:induction false} FilterAppend(p: char -> bool, a: string, b: string)
    ensures Filter(p, a + b) == Filter(p, a) + Filter(p, b)
  {
    if a != [] {
      assert (a + b)[0] == a[0] && (a + b)[1..] == a[1..] + b;
      FilterAppend(p, a[1..], b);
    } else {
      assert a + b == b;
    }
  }

  lemma Pieces(s: string, i: nat, j: nat)
    requires i <= j <= |s|
    ensures s == s[..i] + s[i..j] + s[j..]
  {
  }

  lemma FilterThree(p: char -> bool, s: string, i: nat, j: nat)
    requires i <= j <= |s|
    ensures Filter(p, s) == Filter(p, s[..i]) + Filter(p, s[i..j]) + Filter(p, s[j..])
  {
    Pieces(s, i, j);
    FilterAppend(p, s[..i] + s[i..j], s[j..]);
    FilterAppend(p, s[..i], s[i..j]);
  }

  /** Python's `str.strip()`: `s` without its leading and trailing whitespace. */
  function Strip(s: string): (r: string)
    ensures r == [] || (!IsSpace(r[0]) && !IsSpace(r[|r| - 1]))
    ensures exists i, j :: 0 <= i <= j <= |s| && r == s[i..j] && AllOf(IsSpace, s[..i]) && AllOf(IsSpace, s[j..])
  {
    var i := SkipWhile(IsSpace, s, 0);
    var j := RunBefore(IsSpace, s, |s|);
    if i == |s| then
      assert s[i..i] == [] && AllOf(IsSpace, s[..i]) && AllOf(IsSpace, s[i..]);
      []
    else
      assert !IsSpace(s[i]);
      assert AllOf(IsSpace, s[..i]) && AllOf(IsSpace, s[j..]);
      s[i..j]
  }

  lemma FilterNone(p: char -> bool, s: string)
    requires forall k :: 0 <= k < |s| ==> !p(s[k])
    ensures Filter(p, s) == []
  {
  }

  /** Stripping deletes whitespace only. */
  lemma StripKeeps(s: string)
    ensures Filter(NotSpace, Strip(s)) == Filter(NotSpace, s)
  {
    var i := SkipWhile(IsSpace, s, 0);
    var j := RunBefore(IsSpace, s, |s|);
    if i == |s| {
      assert Strip(s) == [];
      FilterNone(NotSpace, s);
    } else {
      assert Strip(s) == s[i..j] by {
        assert !IsSpace(s[i]);
      }
      StripKeepsAt(s, i, j);
    }
  }

  lemma StripKeepsAt(s: string, i: nat, j: nat)
    requires i <= j <= |s| && AllOf(IsSpace, s[..i]) && AllOf(IsSpace, s[j..])
    ensures Filter(NotSpace, s[i..j]) == Filter(NotSpace, s)
  {
    FilterThree(NotSpace, s, i, j);
    FilterNone(NotSpace, s[..i]);
    FilterNone(NotSpace, s[j..]);
  }

  /** Stripping keeps every property that all characters share. */
  lemma StripAllOf(p: char -> bool, s: string)
    requires AllOf(p, s)
    ensures AllOf(p, Strip(s))
  {
    var r := Strip(s);
    var i, j :| 0 <= i <= j <= |s| && r == s[i..j] && AllOf(IsSpace, s[..i]) && AllOf(IsSpace, s[j..]);
    assert forall k :: 0 <= k < |r| ==> r[k] == s[i + k];
  }

  /** A string already free of leading and trailing whitespace. */
  predicate Stripped(s: string) {
    s == [] || (!IsSpace(s[0]) && !IsSpace(s[|s| - 1]))
  }

  /** Stripping a stripped string changes nothing. */
  lemma StripStripped(s: string)
    requires Stripped(s)
    ensures Strip(s) == s
  {
    if s != [] {
      assert SkipWhile(IsSpace, s, 0) == 0;
      assert RunBefore(IsSpace, s, |s|) == |s|;
    }
  }

  /** A whitespace-only string strips to the empty string. */
  lemma StripAllSpace(s: string)
    requires AllOf(IsSpace, s)
    ensures Strip(s) == []
  {
    assert SkipWhile(IsSpace, s, 0) == |s|;
  }

  /** Python's `str.join` with a one-character separator. */
  function Join(parts: seq<string>, sep: char): string {
    if parts == [] then []
    else if |parts| == 1 then parts[0]
    else parts[0] + [sep] + Join(parts[1..], sep)
  }

  /** Python's `s.split(sep)` for a one-character separator: never empty, and joining it back gives `s`. */
  function Split(s: string, sep: char): (parts: seq<string>)
    ensures |parts| >= 1
    ensures forall k :: 0 <= k < |parts| ==> sep !in parts[k]
    ensures Join(parts, sep) == s
    decreases |s|
  {
    var i := SkipWhile(c => c != sep, s, 0);
    if i == |s| then
      assert sep !in s by {
        forall k | 0 <= k < |s| ensures s[k] != sep { }
      }
      [s]
    else
      var head := s[..i];
      var tail := Split(s[i + 1..], sep);
      assert sep !in head by {
        forall k | 0 <= k < |head| ensures head[k] != sep { }
      }
      assert s == head + [sep] + s[i + 1..];
      [head] + tail
  }

  /** Splitting a join of separator-free parts gives the parts back. */
  lemma {:induction false} SplitJoin(parts: seq<string>, sep: char)
    requires |parts| >= 1
    requires forall k :: 0 <= k < |parts| ==> sep !in parts[k]
    ensures Split(Join(parts, sep), sep) == parts
  {
    var s := Join(parts, sep);
    var i := SkipWhile(c => c != sep, s, 0);
    if |parts| == 1 {
      assert forall k :: 0 <= k < |s| ==> s[k] != sep;
    } else {
      var p0 := parts[0];
      assert s == p0 + [sep] + Join(parts[1..], sep);
      assert forall k :: 0 <= k < |p0| ==> s[k] == p0[k] && s[k] != sep;
      assert s[|p0|] == sep;
      assert i == |p0|;
      assert s[..i] == p0;
      assert s[i + 1..] == Join(parts[1..], sep);
      SplitJoin(parts[1..], sep);
    }
  }
}
