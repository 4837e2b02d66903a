/** `scrape_essay` without the network: the clean-up of the extracted
    Markdown, the word count, the reading time, the date fields and the
    record it returns. */
module EssayText {
  import opened PyStr
  import opened ContentSelection

  const BaseUrl: string := "https://paulgraham.com"
  const WordsPerMinute: nat := 230

  /** No three consecutive newlines anywhere in s. */
  predicate NoTripleNewline(s: string) {
    forall i :: 0 <= i < |s| - 2 ==> !(s[i] == '\n' && s[i + 1] == '\n' && s[i + 2] == '\n')
  }

  /** The number of newlines s starts with. */
  function NewlineRun(s: string): (k: nat)
    ensures k <= |s| && (forall i :: 0 <= i < k ==> s[i] == '\n')
    ensures k < |s| ==> s[k] != '\n'
  {
    if s != [] && s[0] == '\n' then 1 + NewlineRun(s[1..]) else 0
  }

  function Newlines(n: nat): (r: string)
    ensures |r| == n && forall i :: 0 <= i < n ==> r[i] == '\n'
  {
    seq(n, _ => '\n')
  }

  /** `re.sub(r"\n{3,}", "\n\n", s)`: the scan goes left to right and the
      repetition is greedy, so each maximal run of three or more newlines
      becomes exactly two, and shorter runs stay as they are. */
  function CollapseNewlines(s: string): string
    decreases |s|
  {
    if s == [] then []
    else if s[0] == '\n' then
      var k := NewlineRun(s);
      Newlines(if k >= 3 then 2 else k) + CollapseNewlines(s[k..])
    else [s[0]] + CollapseNewlines(s[1..])
  }

  lemma NoTripleCons(c: char, t: string)
    requires c != '\n' && NoTripleNewline(t)
    ensures NoTripleNewline([c] + t)
  {
    var r := [c] + t;
    forall i | 1 <= i < |r| - 2 ensures !(r[i] == '\n' && r[i + 1] == '\n' && r[i + 2] == '\n') {
      assert r[i] == t[i - 1] && r[i + 1] == t[i] && r[i + 2] == t[i + 1];
    }
  }

  lemma NoTripleAfterShortRun(m: nat, t: string)
    requires m <= 2 && NoTripleNewline(t) && (t == [] || t[0] != '\n')
    ensures NoTripleNewline(Newlines(m) + t)
  {
    var r := Newlines(m) + t;
    forall i | 0 <= i < |r| - 2 ensures !(r[i] == '\n' && r[i + 1] == '\n' && r[i + 2] == '\n') {
      if i >= m {
        assert r[i] == t[i - m] && r[i + 1] == t[i - m + 1] && r[i + 2] == t[i - m + 2];
      } else {
        assert r[m] == t[0];
      }
    }
  }

  lemma NoTripleInfix(s: string, i: nat, j: nat)
    requires i <= j <= |s| && NoTripleNewline(s)
    ensures NoTripleNewline(s[i..j])
  {
    var r := s[i..j];
    forall p | 0 <= p < |r| - 2 ensures !(r[p] == '\n' && r[p + 1] == '\n' && r[p + 2] == '\n') {
      assert r[p] == s[i + p] && r[p + 1] == s[i + p + 1] && r[p + 2] == s[i + p + 2];
    }
  }

  /** After the collapse no run of three newlines is left. */
  lemma {:induction false} CollapseLeavesNoTriple(s: string)
    ensures NoTripleNewline(CollapseNewlines(s))
    decreases |s|
  {
    if s != [] {
      if s[0] == '\n' {
        var k := NewlineRun(s);
        CollapseLeavesNoTriple(s[k..]);
        var t := CollapseNewlines(s[k..]);
        if s[k..] != [] {
          assert s[k..][0] == s[k];
          assert t == [s[k]] + CollapseNewlines(s[k + 1..]) by {
            assert s[k..][1..] == s[k + 1..];
          }
        }
        NoTripleAfterShortRun(if k >= 3 then 2 else k, t);
      } else {
        CollapseLeavesNoTriple(s[1..]);
        NoTripleCons(s[0], CollapseNewlines(s[1..]));
      }
    }
  }

  /** Text without a run of three newlines passes through unchanged. */
  lemma {:induction false} CollapseKeepsClean(s: string)
    requires NoTripleNewline(s)
    ensures CollapseNewlines(s) == s
    decreases |s|
  {
    if s != [] {
      if s[0] == '\n' {
        var k := NewlineRun(s);
        assert |s| >= 3 ==> !(s[0] == '\n' && s[1] == '\n' && s[2] == '\n');
        assert k < 3;
        assert Newlines(k) == s[..k];
        NoTripleInfix(s, k, |s|);
        CollapseKeepsClean(s[k..]);
        assert s == s[..k] + s[k..];
      } else {
        NoTripleInfix(s, 1, |s|);
        CollapseKeepsClean(s[1..]);
        assert s == [s[0]] + s[1..];
      }
    }
  }

  /** The collapse is idempotent. */
  lemma CollapseIdempotent(s: string)
    ensures CollapseNewlines(CollapseNewlines(s)) == CollapseNewlines(s)
  {
    CollapseLeavesNoTriple(s);
    CollapseKeepsClean(CollapseNewlines(s));
  }

  /** s without its newlines. */
  function DropNewlines(s: string): string {
    if s == [] then [] else (if s[0] == '\n' then [] else [s[0]]) + DropNewlines(s[1..])
  }

  lemma {:induction false} DropNewlinesAppend(a: string, b: string)
    ensures DropNewlines(a + b) == DropNewlines(a) + DropNewlines(b)
  {
    if a != [] {
      assert (a + b)[1..] == a[1..] + b;
      DropNewlinesAppend(a[1..], b);
    } else {
      assert a + b == b;
    }
  }

  lemma {:induction false} DropNewlinesOfNewlines(s: string)
    requires forall i :: 0 <= i < |s| ==> s[i] == '\n'
    ensures DropNewlines(s) == []
  {
    if s != [] { DropNewlinesOfNewlines(s[1..]); }
  }

  /** Every character other than a newline survives the collapse, in order. */
  lemma {:induction false} CollapseKeepsText(s: string)
    ensures DropNewlines(CollapseNewlines(s)) == DropNewlines(s)
    decreases |s|
  {
    if s != [] {
      if s[0] == '\n' {
        var k := NewlineRun(s);
        var m := if k >= 3 then 2 else k;
        CollapseKeepsText(s[k..]);
        DropNewlinesAppend(Newlines(m), CollapseNewlines(s[k..]));
        DropNewlinesOfNewlines(Newlines(m));
        assert s == s[..k] + s[k..];
        DropNewlinesAppend(s[..k], s[k..]);
        DropNewlinesOfNewlines(s[..k]);
      } else {
        CollapseKeepsText(s[1..]);
        DropNewlinesAppend([s[0]], CollapseNewlines(s[1..]));
      }
    }
  }

  /** `re.sub(r"\|\s*$", "", s)`. A match needs a `|` with nothing but
      whitespace after it (the greedy `\s*` then reaches the very end, so the
      two readings of `$` agree); only the last `|` of s can be such a bar,
      and the rest of s is cut from there. */
  function RemoveTrailingPipe(s: string): string {
    var j := TrailingStart(s);
    if j > 0 && s[j - 1] == '|' then s[..j - 1] else s
  }

  /** The pipe removal cuts s before a `|` followed only by whitespace when
      there is one, and otherwise leaves s alone. */
  lemma TrailingPipeSpec(s: string)
    ensures |RemoveTrailingPipe(s)| <= |s| && RemoveTrailingPipe(s) == s[..|RemoveTrailingPipe(s)|]
    ensures |RemoveTrailingPipe(s)| < |s| ==>
      s[|RemoveTrailingPipe(s)|] == '|' && AllSpace(s[|RemoveTrailingPipe(s)| + 1..])
    ensures |RemoveTrailingPipe(s)| == |s| ==>
      forall p :: 0 <= p < |s| && s[p] == '|' ==> !AllSpace(s[p + 1..])
  {
    var j := TrailingStart(s);
    var r := RemoveTrailingPipe(s);
    if |r| == |s| {
      forall p | j <= p < |s| ensures s[p] != '|' {
        assert IsSpace(s[p]);
      }
      forall p | 0 <= p < |s| && s[p] == '|' ensures !AllSpace(s[p + 1..]) {
        assert s[p + 1..][j - 1 - (p + 1)] == s[j - 1];
      }
    } else {
      forall i | 0 <= i < |s[j..]| ensures IsSpace(s[j..][i]) {
        assert s[j..][i] == s[j + i];
      }
    }
  }

  /** The clean-up in `scrape_essay`, in order: collapse newline runs, drop a
      trailing table bar, strip. */
  function CleanContent(raw: string): string {
    Strip(RemoveTrailingPipe(CollapseNewlines(raw)))
  }

  /** Cleaned content has no run of three newlines. */
  lemma CleanContentNoTriple(raw: string)
    ensures NoTripleNewline(CleanContent(raw))
  {
    CollapseLeavesNoTriple(raw);
    PipeKeepsNoTriple(CollapseNewlines(raw));
    StripKeepsNoTriple(RemoveTrailingPipe(CollapseNewlines(raw)));
  }

  lemma PipeKeepsNoTriple(s: string)
    requires NoTripleNewline(s)
    ensures NoTripleNewline(RemoveTrailingPipe(s))
  {
    var r := RemoveTrailingPipe(s);
    TrailingPipeSpec(s);
    NoTripleInfix(s, 0, |r|);
    assert s[0..|r|] == r;
  }

  lemma StripKeepsNoTriple(s: string)
    requires NoTripleNewline(s)
    ensures NoTripleNewline(Strip(s))
  {
    NoTripleInfix(s, LeadingSpaces(s), StripEnd(s));
  }

  /** Cleaned content has no whitespace at either end: stripping it again
      changes nothing. */
  lemma CleanContentStripped(raw: string)
    ensures Strip(CleanContent(raw)) == CleanContent(raw)
  {
    StripIdempotent(RemoveTrailingPipe(CollapseNewlines(raw)));
  }

  /** `max(1, math.ceil(words / WORDS_PER_MINUTE))`, in integer arithmetic:
      at least one minute, and otherwise the least number of whole minutes
      that covers the words. */
  function ReadingTime(words: nat): (rt: nat)
    ensures rt >= 1
    ensures words == 0 ==> rt == 1
    ensures words > 0 ==> (rt - 1) * WordsPerMinute < words <= rt * WordsPerMinute
  {
    var minutes := (words + WordsPerMinute - 1) / WordsPerMinute;
    if minutes > 1 then minutes else 1
  }

  /** More words never take less time to read. */
  lemma ReadingTimeMonotone(a: nat, b: nat)
    requires a <= b
    ensures ReadingTime(a) <= ReadingTime(b)
  {
  }

  /** `len(content.split())` */
  function WordCount(content: string): nat {
    |Split(content)|
  }

  /** The two date fields: `dateISO` is the first seven characters of the
      date htmldate found ("YYYY-MM"), and `date` the month-and-year
      rendering of it when it parses as "%Y-%m-%d", else the found text.
      `monthYear` is what `strptime`/`strftime` give for the found date. */
  datatype Dates = Dates(date: string, dateIso: string)

  function DatesOf(found: Option<string>, monthYear: Option<string>): (d: Dates)
    ensures (found.None? || found.value == "") ==> d == Dates("", "")
    ensures found.Some? ==> |d.dateIso| <= 7 && |d.dateIso| <= |found.value| && d.dateIso == found.value[..|d.dateIso|]
    ensures found.Some? ==> |d.dateIso| == if |found.value| < 7 then |found.value| else 7
    ensures found.Some? && found.value != "" && monthYear.None? ==> d.date == found.value
    ensures found.Some? && found.value != "" && monthYear.Some? ==> d.date == monthYear.value
  {
    match found
    case None => Dates("", "")
    case Some(f) =>
      if f == "" then Dates("", "")
      else
        var date := match monthYear case Some(m) => m case None => f;
        Dates(date, Take(f, 7))
  }

  /** What `scrape_essay` sees of a fetched page: the date htmldate finds,
      its month-and-year rendering when it parses, and the body. */
  datatype Page = Page(foundDate: Option<string>, monthYear: Option<string>, body: Option<Body>)

  /** The dictionary `scrape_essay` returns. */
  datatype EssayData = EssayData(
    content: string, date: string, dateIso: string, sourceUrl: string,
    wordCount: nat, readingTime: nat)

  /** `scrape_essay` once the page is in hand. */
  function ScrapeEssay(href: string, page: Page): EssayData {
    var dates := DatesOf(page.foundDate, page.monthYear);
    var content := CleanContent(ExtractContent(page.body));
    var words := WordCount(content);
    EssayData(content, dates.date, dates.dateIso, BaseUrl + "/" + href, words, ReadingTime(words))
  }

  /** The record `scrape_essay` returns: the source URL of the essay, content
      without runs of three newlines and without surrounding whitespace,
      which is empty exactly when it has no words, a reading time of at least
      a minute that covers the words, and a `dateISO` of at most seven
      characters. */
  lemma ScrapeEssaySpec(href: string, page: Page)
    ensures ScrapeEssay(href, page).sourceUrl == BaseUrl + "/" + href
    ensures NoTripleNewline(ScrapeEssay(href, page).content)
    ensures Strip(ScrapeEssay(href, page).content) == ScrapeEssay(href, page).content
    ensures ScrapeEssay(href, page).content == "" <==> ScrapeEssay(href, page).wordCount == 0
    ensures ScrapeEssay(href, page).readingTime >= 1
    ensures var d := ScrapeEssay(href, page);
      d.wordCount > 0 ==> (d.readingTime - 1) * WordsPerMinute < d.wordCount <= d.readingTime * WordsPerMinute
    ensures |ScrapeEssay(href, page).dateIso| <= 7
  {
    var content := CleanContent(ExtractContent(page.body));
    CleanContentNoTriple(ExtractContent(page.body));
    CleanContentStripped(ExtractContent(page.body));
    StrippedBlankIsEmpty(content);
  }

  /** Stripped text has words exactly when it is not empty. */
  lemma StrippedBlankIsEmpty(s: string)
    requires Strip(s) == s
    ensures s == "" <==> WordCount(s) == 0
  {
    SplitEmptyIffBlank(s);
    StripEmptyIffBlank(s);
  }
}
