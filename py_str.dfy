/** The Python string built-ins the essay scraper relies on: `str.isspace`
    (the whitespace class shared by `str.split()`, `str.strip()` and the
    regular-expression class `\s`), `startswith`/`endswith`, `strip`,
    `split`, `replace`, slicing `s[:n]` and `str(n)` for a natural number. */
module PyStr {

  datatype Option<T> = None | Some(value: T)

  /** Python's `str.isspace()` for a single character. */
  predicate IsSpace(c: char) {
    c == ' ' || ('\t' <= c <= '\r') || ('\U{1c}' <= c <= '\U{1f}')
    || c == '\U{85}' || c == '\U{a0}' || c == '\U{1680}'
    || ('\U{2000}' <= c <= '\U{200a}') || c == '\U{2028}' || c == '\U{2029}'
    || c == '\U{202f}' || c == '\U{205f}' || c == '\U{3000}'
  }

  predicate AllSpace(s: string) {
    forall i :: 0 <= i < |s| ==> IsSpace(s[i])
  }

  predicate NoSpace(s: string) {
    forall i :: 0 <= i < |s| ==> !IsSpace(s[i])
  }

  /** `s.startswith(p)` */
  predicate StartsWith(s: string, p: string) {
    |p| <= |s| && s[..|p|] == p
  }

  /** `s.endswith(p)` */
  predicate EndsWith(s: string, p: string) {
    |p| <= |s| && s[|s| - |p|..] == p
  }

  /** `s[:n]`: the first n characters, or all of s when it is shorter. */
  function Take(s: string, n: nat): (r: string)
    ensures |r| == if |s| <= n then |s| else n
    ensures r == s[..|r|]
  {
    if |s| <= n then s else s[..n]
  }

  /** The number of whitespace characters s starts with, which is where
      `s.strip()` and the first word of `s.split()` start. */
  function LeadingSpaces(s: string): (k: nat)
    ensures k <= |s|
    ensures forall i :: 0 <= i < k ==> IsSpace(s[i])
    ensures k < |s| ==> !IsSpace(s[k])
  {
    if s != [] && IsSpace(s[0]) then 1 + LeadingSpaces(s[1..]) else 0
  }

  /** Where the whitespace s ends with begins. */
  function TrailingStart(s: string): (e: nat)
    ensures e <= |s|
    ensures forall i :: e <= i < |s| ==> IsSpace(s[i])
    ensures e > 0 ==> !IsSpace(s[e - 1])
  {
    if s != [] && IsSpace(s[|s| - 1]) then TrailingStart(s[..|s| - 1]) else |s|
  }

  /** Where `s.strip()` ends inside s: the trailing whitespace is looked for
      only after the leading whitespace, so blank text gives an empty result. */
  function StripEnd(s: string): (e: nat)
    ensures LeadingSpaces(s) <= e <= |s|
  {
    LeadingSpaces(s) + TrailingStart(s[LeadingSpaces(s)..])
  }

  /** `s.strip()` */
  function Strip(s: string): string {
    s[LeadingSpaces(s)..StripEnd(s)]
  }

  /** `s.strip()` drops only whitespace, from both ends, and what it keeps
      neither starts nor ends with whitespace. */
  lemma StripSpec(s: string)
    ensures AllSpace(s[..LeadingSpaces(s)]) && AllSpace(s[StripEnd(s)..])
    ensures Strip(s) != [] ==> !IsSpace(Strip(s)[0]) && !IsSpace(Strip(s)[|Strip(s)| - 1])
  {
    var k := LeadingSpaces(s);
    var t := s[k..];
    var e := TrailingStart(t);
    TrailingOfSuffix(s, k, t, e);
    assert StripEnd(s) == k + e;
    InfixBetweenSpaces(s, k, k + e);
  }

  /** The trailing whitespace of the suffix t of s, in positions of s. */
  lemma TrailingOfSuffix(s: string, k: nat, t: string, e: nat)
    requires k <= |s| && t == s[k..] && e <= |t|
    requires forall i :: e <= i < |t| ==> IsSpace(t[i])
    requires e > 0 ==> !IsSpace(t[e - 1])
    ensures forall i :: k + e <= i < |s| ==> IsSpace(s[i])
    ensures e > 0 ==> !IsSpace(s[k + e - 1])
  {
    forall i | k + e <= i < |s| ensures IsSpace(s[i]) {
      assert s[i] == t[i - k];
    }
    if e > 0 {
      assert s[k + e - 1] == t[e - 1];
    }
  }

  /** An infix of s whose surroundings are whitespace and whose ends are not. */
  lemma InfixBetweenSpaces(s: string, k: nat, m: nat)
    requires k <= m <= |s|
    requires forall i :: 0 <= i < k ==> IsSpace(s[i])
    requires forall i :: m <= i < |s| ==> IsSpace(s[i])
    requires k < m ==> !IsSpace(s[k]) && !IsSpace(s[m - 1])
    ensures AllSpace(s[..k]) && AllSpace(s[m..])
    ensures s[k..m] != [] ==> !IsSpace(s[k..m][0]) && !IsSpace(s[k..m][m - k - 1])
  {
    forall j | 0 <= j < |s| - m ensures IsSpace(s[m..][j]) {
      assert s[m..][j] == s[m + j];
    }
  }

  /** `s.strip()` is empty exactly when s is blank. */
  lemma StripEmptyIffBlank(s: string)
    ensures Strip(s) == [] <==> AllSpace(s)
  {
    if Strip(s) == [] {
      assert LeadingSpaces(s) == |s|;
    }
  }

  /** `s.strip()` is idempotent. */
  lemma StripIdempotent(s: string)
    ensures Strip(Strip(s)) == Strip(s)
  {
    StripSpec(s);
    var r := Strip(s);
    assert r[0..] == r;
  }

  /** The longest prefix of s without whitespace. */
  function LeadingWord(s: string): (w: string)
    ensures |w| <= |s| && w == s[..|w|] && NoSpace(w)
    ensures |w| < |s| ==> IsSpace(s[|w|])
  {
    if s == [] || IsSpace(s[0]) then [] else [s[0]] + LeadingWord(s[1..])
  }

  /** `s.split()` with no separator: the maximal runs of non-whitespace, in order. */
  function Split(s: string): (ws: seq<string>)
    ensures forall i :: 0 <= i < |ws| ==> ws[i] != [] && NoSpace(ws[i])
    decreases |s|
  {
    var t := s[LeadingSpaces(s)..];
    if t == [] then []
    else
      var w := LeadingWord(t);
      assert w != [] by { assert !IsSpace(t[0]); }
      [w] + Split(t[|w|..])
  }

  /** s with every whitespace character deleted. */
  function RemoveSpaces(s: string): string {
    if s == [] then []
    else (if IsSpace(s[0]) then [] else [s[0]]) + RemoveSpaces(s[1..])
  }

  function Concat(ws: seq<string>): string {
    if ws == [] then [] else ws[0] + Concat(ws[1..])
  }

  lemma {:induction false} RemoveSpacesAppend(a: string, b: string)
    ensures RemoveSpaces(a + b) == RemoveSpaces(a) + RemoveSpaces(b)
  {
    if a != [] {
      assert (a + b)[1..] == a[1..] + b;
      RemoveSpacesAppend(a[1..], b);
    } else {
      assert a + b == b;
    }
  }

  lemma {:induction false} RemoveSpacesOfSpace(s: string)
    requires AllSpace(s)
    ensures RemoveSpaces(s) == []
  {
    if s != [] { RemoveSpacesOfSpace(s[1..]); }
  }

  lemma {:induction false} RemoveSpacesOfWord(s: string)
    requires NoSpace(s)
    ensures RemoveSpaces(s) == s
  {
    if s != [] { RemoveSpacesOfWord(s[1..]); }
  }

  /** The words of `s.split()` are exactly the non-whitespace characters of
      s, in order: splitting loses only whitespace. */
  lemma {:induction false} SplitKeepsText(s: string)
    ensures Concat(Split(s)) == RemoveSpaces(s)
    decreases |s|
  {
    var t := s[LeadingSpaces(s)..];
    if t == [] {
      SplitBlank(s);
    } else {
      var w := LeadingWord(t);
      SplitHead(s);
      SplitKeepsText(t[|w|..]);
      ConcatCons(w, Split(t[|w|..]));
    }
  }

  lemma SplitBlank(s: string)
    requires s[LeadingSpaces(s)..] == []
    ensures Split(s) == [] && RemoveSpaces(s) == []
  {
    assert s == s[..|s|] + ([] + []);
    RemoveSpacesOfParts(s[..|s|], [], []);
  }

  /** What the first word of `split()` takes from the text, and what is left. */
  lemma SplitHead(s: string)
    requires s[LeadingSpaces(s)..] != []
    ensures var t := s[LeadingSpaces(s)..]; var w := LeadingWord(t);
      Split(s) == [w] + Split(t[|w|..]) && RemoveSpaces(s) == w + RemoveSpaces(t[|w|..])
  {
    var t := s[LeadingSpaces(s)..];
    var w := LeadingWord(t);
    var rest := t[|w|..];
    var k := LeadingSpaces(s);
    SplitUnfold(s);
    ThreeParts(s, k, |w|);
    RemoveSpacesOfParts(s[..k], w, rest);
  }

  lemma SplitUnfold(s: string)
    requires s[LeadingSpaces(s)..] != []
    ensures Split(s) == [LeadingWord(s[LeadingSpaces(s)..])] + Split(s[LeadingSpaces(s)..][|LeadingWord(s[LeadingSpaces(s)..])|..])
  {
  }

  /** s cut at k, and its suffix from k cut again after n characters. */
  lemma ThreeParts(s: string, k: nat, n: nat)
    requires k + n <= |s|
    ensures s == s[..k] + (s[k..][..n] + s[k..][n..])
  {
    assert s[k..] == s[k..][..n] + s[k..][n..];
    assert s == s[..k] + s[k..];
  }

  /** Deleting the whitespace of blank text, then of a word, then of the rest. */
  lemma RemoveSpacesOfParts(a: string, w: string, rest: string)
    requires AllSpace(a) && NoSpace(w)
    ensures RemoveSpaces(a + (w + rest)) == w + RemoveSpaces(rest)
  {
    RemoveSpacesAppend(a, w + rest);
    RemoveSpacesAppend(w, rest);
    RemoveSpacesOfSpace(a);
    RemoveSpacesOfWord(w);
  }

  lemma ConcatCons(w: string, ws: seq<string>)
    ensures Concat([w] + ws) == w + Concat(ws)
  {
    assert ([w] + ws)[1..] == ws;
  }

  /** `s.split()` is empty exactly when s is blank. */
  lemma SplitEmptyIffBlank(s: string)
    ensures Split(s) == [] <==> AllSpace(s)
  {
    var k := LeadingSpaces(s);
    if k == |s| {
      assert s == s[..k];
    }
  }

  /** The number of word starts in s: characters that are not whitespace and
      come first or right after whitespace. `afterSpace` says whether the
      character before s, if any, is whitespace. */
  function WordStarts(s: string, afterSpace: bool): nat {
    if s == [] then 0
    else (if afterSpace && !IsSpace(s[0]) then 1 else 0) + WordStarts(s[1..], IsSpace(s[0]))
  }

  /** `len(s.split())` is the number of word starts of s. */
  lemma {:induction false} SplitCountsWords(s: string)
    ensures |Split(s)| == WordStarts(s, true)
    decreases |s|
  {
    var k := LeadingSpaces(s);
    var t := s[LeadingSpaces(s)..];
    WordStartsAfterBlank(s, k);
    if t != [] {
      var w := LeadingWord(t);
      SplitUnfold(s);
      assert t[0] == s[k];
      assert forall i :: 0 <= i < |w| ==> !IsSpace(t[i]) by {
        forall i | 0 <= i < |w| ensures !IsSpace(t[i]) { assert t[i] == w[i]; }
      }
      WordStartsInWord(t, |w|, true);
      WordStartsAtSpace(t[|w|..], false);
      SplitCountsWords(t[|w|..]);
    }
  }

  lemma {:induction false} WordStartsAfterBlank(s: string, n: nat)
    requires n <= |s| && forall i :: 0 <= i < n ==> IsSpace(s[i])
    ensures WordStarts(s, true) == WordStarts(s[n..], true)
  {
    if n > 0 {
      assert s[1..][n - 1..] == s[n..];
      WordStartsAfterBlank(s[1..], n - 1);
    }
  }

  lemma {:induction false} WordStartsInWord(s: string, n: nat, afterSpace: bool)
    requires 0 < n <= |s| && forall i :: 0 <= i < n ==> !IsSpace(s[i])
    ensures WordStarts(s, afterSpace) == (if afterSpace then 1 else 0) + WordStarts(s[n..], false)
  {
    if n > 1 {
      assert s[1..][n - 1..] == s[n..];
      WordStartsInWord(s[1..], n - 1, false);
    }
  }

  lemma WordStartsAtSpace(s: string, afterSpace: bool)
    requires s == [] || IsSpace(s[0])
    ensures WordStarts(s, afterSpace) == WordStarts(s, true)
  {
  }

  /** `s.replace(pat, rep)` for a non-empty pattern: occurrences are
      replaced left to right, without overlapping. */
  function Replace(s: string, pat: string, rep: string): string
    requires pat != []
    decreases |s|
  {
    if |s| < |pat| then s
    else if s[..|pat|] == pat then rep + Replace(s[|pat|..], pat, rep)
    else [s[0]] + Replace(s[1..], pat, rep)
  }

  /** pat occurs nowhere in s. */
  predicate Free(s: string, pat: string) {
    forall i :: 0 <= i <= |s| ==> !OccursAt(s, pat, i)
  }

  predicate OccursAt(s: string, pat: string, i: nat) {
    i + |pat| <= |s| && s[i..i + |pat|] == pat
  }

  /** A pattern absent from s is absent from its tail. */
  lemma FreeTail(s: string, pat: string)
    requires s != [] && Free(s, pat)
    ensures Free(s[1..], pat)
  {
    forall i | 0 <= i <= |s[1..]| ensures !OccursAt(s[1..], pat, i) {
      assert !OccursAt(s, pat, i + 1);
      if i + |pat| <= |s[1..]| { assert s[1..][i..i + |pat|] == s[i + 1..i + 1 + |pat|]; }
    }
  }

  /** Removing a suffix ".md" with `replace(".md", "")` gives back the stem
      when the stem holds no ".md": no occurrence can straddle the border,
      since neither "d" nor "md" starts with ".". */
  lemma {:induction false} ReplaceSuffixMd(stem: string)
    requires Free(stem, ".md")
    ensures Replace(stem + ".md", ".md", "") == stem
    decreases |stem|
  {
    var s := stem + ".md";
    if stem == [] {
      assert s[..3] == ".md";
      assert s[3..] == [];
    } else {
      assert s[..3] != ".md" by {
        if |stem| >= 3 { assert !OccursAt(stem, ".md", 0); assert s[..3] == stem[0..3]; }
        else if |stem| == 2 { assert s[2] == '.'; }
        else { assert s[1] == '.'; }
      }
      FreeTail(stem, ".md");
      ReplaceSuffixMd(stem[1..]);
      assert s[1..] == stem[1..] + ".md";
      assert Replace(s, ".md", "") == [s[0]] + Replace(s[1..], ".md", "");
      assert stem == [stem[0]] + stem[1..];
    }
  }

  function DigitChar(d: nat): char
    requires d < 10
  {
    (('0' as int) + d) as char
  }

  predicate IsDigit(c: char) {
    '0' <= c <= '9'
  }

  function DigitValue(c: char): nat
    requires IsDigit(c)
  {
    (c as int) - ('0' as int)
  }

  /** `str(n)` for a natural number: its decimal digits, no leading zero. */
  function NatToString(n: nat): (r: string)
    ensures r != [] && forall i :: 0 <= i < |r| ==> IsDigit(r[i])
    ensures |r| > 1 ==> r[0] != '0'
  {
    if n < 10 then [DigitChar(n)] else NatToString(n / 10) + [DigitChar(n % 10)]
  }

  /** The value of a string of decimal digits. */
  function DigitsValue(s: string): nat
    requires forall i :: 0 <= i < |s| ==> IsDigit(s[i])
  {
    if s == [] then 0 else 10 * DigitsValue(s[..|s| - 1]) + DigitValue(s[|s| - 1])
  }

  /** `int(s)` for a non-empty string of decimal digits; None otherwise. */
  function ParseNat(s: string): Option<nat> {
    if s != [] && forall i :: 0 <= i < |s| ==> IsDigit(s[i]) then Some(DigitsValue(s)) else None
  }

  /** Reading back `str(n)` gives n. */
  lemma {:induction false} NatToStringRoundTrip(n: nat)
    ensures ParseNat(NatToString(n)) == Some(n)
  {
    var s := NatToString(n);
    if n >= 10 {
      NatToStringRoundTrip(n / 10);
      assert s[..|s| - 1] == NatToString(n / 10);
      assert DigitValue(s[|s| - 1]) == n % 10;
      assert DigitsValue(s) == 10 * (n / 10) + n % 10;
    }
  }
}
