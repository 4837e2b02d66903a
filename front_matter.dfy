/** `write_essay`: the Markdown file with its YAML front matter, as the text
    that is written. Beside it, a reader for that layout, which gives back
    every field and the content, so the layout is shown to lose nothing. */
module FrontMatter {
  import opened PyStr
  import opened EssayText

  /** `title.replace('"', '\\"')` */
  function EscapeTitle(title: string): string {
    Replace(title, "\"", "\\\"")
  }

  /** Undoes the escaping: a backslash directly before a quote is dropped. */
  function UnescapeTitle(e: string): string
    decreases |e|
  {
    if |e| >= 2 && e[0] == '\\' && e[1] == '"' then "\"" + UnescapeTitle(e[2..])
    else if e == [] then []
    else [e[0]] + UnescapeTitle(e[1..])
  }

  function CountQuotes(s: string): nat {
    if s == [] then 0 else (if s[0] == '"' then 1 else 0) + CountQuotes(s[1..])
  }

  lemma EscapeTitleUnfold(t: string)
    requires t != []
    ensures EscapeTitle(t) == (if t[0] == '"' then "\\\"" else [t[0]]) + EscapeTitle(t[1..])
  {
    assert t[..1] == [t[0]];
  }

  /** The escaped title is the title with one backslash put before each
      quote: it is longer by exactly the number of quotes, and each quote in
      it directly follows a backslash. */
  lemma {:induction false} EscapeTitleShape(t: string)
    ensures |EscapeTitle(t)| == |t| + CountQuotes(t)
    ensures forall i :: 0 <= i < |EscapeTitle(t)| && EscapeTitle(t)[i] == '"' ==>
      i > 0 && EscapeTitle(t)[i - 1] == '\\'
  {
    if t != [] {
      EscapeTitleUnfold(t);
      EscapeTitleShape(t[1..]);
      var head: string := if t[0] == '"' then "\\\"" else [t[0]];
      var rest := EscapeTitle(t[1..]);
      var e := EscapeTitle(t);
      forall i | 0 <= i < |e| && e[i] == '"' ensures i > 0 && e[i - 1] == '\\' {
        if i >= |head| {
          assert e[i] == rest[i - |head|];
          if i - |head| > 0 { assert e[i - 1] == rest[i - |head| - 1]; }
        }
      }
    }
  }

  /** Deleting the inserted backslashes gives back the title. */
  lemma {:induction false} UnescapeEscapeTitle(t: string)
    ensures UnescapeTitle(EscapeTitle(t)) == t
  {
    if t != [] {
      EscapeTitleUnfold(t);
      EscapeTitleShape(t[1..]);
      UnescapeEscapeTitle(t[1..]);
      var rest := EscapeTitle(t[1..]);
      if t[0] == '"' {
        assert ("\\\"" + rest)[2..] == rest;
      } else {
        assert ([t[0]] + rest)[1..] == rest;
        assert rest != [] ==> rest[0] != '"';
      }
      assert t == [t[0]] + t[1..];
    }
  }

  predicate NoNewline(s: string) {
    forall i :: 0 <= i < |s| ==> s[i] != '\n'
  }

  lemma {:induction false} EscapeTitleNoNewline(t: string)
    requires NoNewline(t)
    ensures NoNewline(EscapeTitle(t))
  {
    if t != [] {
      EscapeTitleUnfold(t);
      EscapeTitleNoNewline(t[1..]);
      var head: string := if t[0] == '"' then "\\\"" else [t[0]];
      var e := EscapeTitle(t);
      forall i | 0 <= i < |e| ensures e[i] != '\n' {
        if i >= |head| { assert e[i] == EscapeTitle(t[1..])[i - |head|]; }
      }
    }
  }

  /** `key: "value"` */
  function QuotedLine(key: string, value: string): string {
    key + ": \"" + value + "\""
  }

  /** `key: value` */
  function PlainLine(key: string, value: string): string {
    key + ": " + value
  }

  /** The lines of the front matter, in their fixed order. */
  function HeaderLines(slug: string, title: string, data: EssayData): seq<string> {
    [ "---",
      QuotedLine("title", EscapeTitle(title)),
      QuotedLine("date", data.date),
      QuotedLine("dateISO", data.dateIso),
      QuotedLine("slug", slug),
      QuotedLine("sourceUrl", data.sourceUrl),
      PlainLine("wordCount", NatToString(data.wordCount)),
      PlainLine("readingTime", NatToString(data.readingTime)),
      "---" ]
  }

  /** `"\n".join(lines)` */
  function JoinLines(lines: seq<string>): string {
    if |lines| <= 1 then (if lines == [] then "" else lines[0])
    else lines[0] + "\n" + JoinLines(lines[1..])
  }

  /** The front matter string. */
  function FrontMatterText(slug: string, title: string, data: EssayData): string {
    JoinLines(HeaderLines(slug, title, data))
  }

  /** The text written to `<slug>.md`. */
  function EssayFile(slug: string, title: string, data: EssayData): string {
    FrontMatterText(slug, title, data) + "\n\n" + data.content
  }

  // ---- Reading the file back ----

  /** The first line of s and what follows its newline; None when s holds
      no newline. */
  function NextLine(s: string): Option<(string, string)> {
    if s == [] then None
    else if s[0] == '\n' then Some(([], s[1..]))
    else
      match NextLine(s[1..])
      case None => None
      case Some(lr) => Some(([s[0]] + lr.0, lr.1))
  }

  /** The first n newline-terminated lines of s and the rest. */
  function ReadLines(s: string, n: nat): (r: Option<(seq<string>, string)>)
    ensures r.Some? ==> |r.value.0| == n
    decreases n
  {
    if n == 0 then Some(([], s))
    else
      match NextLine(s)
      case None => None
      case Some(lr) =>
        match ReadLines(lr.1, n - 1)
        case None => None
        case Some(more) => Some(([lr.0] + more.0, more.1))
  }

  function QuotedValue(key: string, line: string): Option<string> {
    var p := key + ": \"";
    if |line| > |p| && line[..|p|] == p && line[|line| - 1] == '"' then Some(line[|p|..|line| - 1])
    else None
  }

  function NatValue(key: string, line: string): Option<nat> {
    var p := key + ": ";
    if StartsWith(line, p) then ParseNat(line[|p|..]) else None
  }

  /** The front-matter fields, with the title unescaped. */
  datatype Header = Header(
    title: string, date: string, dateIso: string, slug: string, sourceUrl: string,
    wordCount: nat, readingTime: nat)

  function ReadHeader(ls: seq<string>): Option<Header>
    requires |ls| == 10
  {
    var title := QuotedValue("title", ls[1]);
    var date := QuotedValue("date", ls[2]);
    var dateIso := QuotedValue("dateISO", ls[3]);
    var slug := QuotedValue("slug", ls[4]);
    var url := QuotedValue("sourceUrl", ls[5]);
    var words := NatValue("wordCount", ls[6]);
    var minutes := NatValue("readingTime", ls[7]);
    if ls[0] == "---" && ls[8] == "---" && ls[9] == ""
      && title.Some? && date.Some? && dateIso.Some? && slug.Some? && url.Some?
      && words.Some? && minutes.Some?
    then Some(Header(UnescapeTitle(title.value), date.value, dateIso.value, slug.value,
                     url.value, words.value, minutes.value))
    else None
  }

  /** Parses an essay file: nine front-matter lines, an empty line, then the
      content. */
  function ReadEssayFile(text: string): Option<(Header, string)> {
    match ReadLines(text, 10)
    case None => None
    case Some(r) =>
      match ReadHeader(r.0)
      case None => None
      case Some(h) => Some((h, r.1))
  }

  // ---- The round trip ----

  /** Each line followed by a newline. */
  function Terminated(lines: seq<string>): string {
    if lines == [] then "" else lines[0] + "\n" + Terminated(lines[1..])
  }

  lemma {:induction false} JoinThenNewline(lines: seq<string>)
    requires lines != []
    ensures JoinLines(lines) + "\n" == Terminated(lines)
  {
    if |lines| > 1 {
      JoinThenNewline(lines[1..]);
    }
  }

  lemma {:induction false} NextLineOf(line: string, rest: string)
    requires NoNewline(line)
    ensures NextLine(line + "\n" + rest) == Some((line, rest))
  {
    if line != [] {
      assert (line + "\n" + rest)[1..] == line[1..] + "\n" + rest;
      NextLineOf(line[1..], rest);
      assert [line[0]] + line[1..] == line;
    } else {
      assert (line + "\n" + rest)[1..] == rest;
    }
  }

  lemma {:induction false} ReadLinesOf(lines: seq<string>, rest: string)
    requires forall i :: 0 <= i < |lines| ==> NoNewline(lines[i])
    ensures ReadLines(Terminated(lines) + rest, |lines|) == Some((lines, rest))
  {
    if lines != [] {
      var tail := Terminated(lines[1..]) + rest;
      assert Terminated(lines) + rest == lines[0] + "\n" + tail;
      NextLineOf(lines[0], tail);
      ReadLinesOf(lines[1..], rest);
      assert ReadLines(tail, |lines| - 1) == Some((lines[1..], rest));
      assert [lines[0]] + lines[1..] == lines;
      assert ReadLines(lines[0] + "\n" + tail, |lines|) == Some(([lines[0]] + lines[1..], rest));
    } else {
      assert Terminated(lines) + rest == rest;
    }
  }

  lemma QuotedValueOf(key: string, value: string)
    ensures QuotedValue(key, QuotedLine(key, value)) == Some(value)
  {
    var p := key + ": \"";
    var line := QuotedLine(key, value);
    assert line == p + value + "\"";
    assert line[..|p|] == p;
    assert line[|p|..|line| - 1] == value;
  }

  lemma NatValueOf(key: string, n: nat)
    ensures NatValue(key, PlainLine(key, NatToString(n))) == Some(n)
  {
    var p := key + ": ";
    var line := PlainLine(key, NatToString(n));
    assert line[..|p|] == p;
    assert line[|p|..] == NatToString(n);
    NatToStringRoundTrip(n);
  }

  lemma NoNewlineConcat(a: string, b: string)
    requires NoNewline(a) && NoNewline(b)
    ensures NoNewline(a + b)
  {
    forall i | 0 <= i < |a + b| ensures (a + b)[i] != '\n' {
      if i < |a| { assert (a + b)[i] == a[i]; } else { assert (a + b)[i] == b[i - |a|]; }
    }
  }

  lemma QuotedLineNoNewline(key: string, value: string)
    requires NoNewline(key) && NoNewline(value)
    ensures NoNewline(QuotedLine(key, value))
  {
    NoNewlineConcat(key, ": \"");
    NoNewlineConcat(key + ": \"", value);
    NoNewlineConcat(key + ": \"" + value, "\"");
  }

  lemma PlainLineNoNewline(key: string, n: nat)
    requires NoNewline(key)
    ensures NoNewline(PlainLine(key, NatToString(n)))
  {
    NoNewlineConcat(key, ": ");
    NoNewlineConcat(key + ": ", NatToString(n));
  }

  /** Reading back a written essay file gives every front-matter field, the
      title as it was before escaping, and the content, provided no string
      field spans several lines. */
  lemma ReadWrittenEssay(slug: string, title: string, data: EssayData)
    requires NoNewline(title) && NoNewline(data.date) && NoNewline(data.dateIso)
    requires NoNewline(slug) && NoNewline(data.sourceUrl)
    ensures ReadEssayFile(EssayFile(slug, title, data)) ==
      Some((Header(title, data.date, data.dateIso, slug, data.sourceUrl,
                   data.wordCount, data.readingTime), data.content))
  {
    var hs := HeaderLines(slug, title, data);
    var ls := hs + [""];
    JoinThenNewline(hs);
    assert Terminated([""]) == "\n";
    TerminatedAppend(hs, [""]);
    assert EssayFile(slug, title, data) == Terminated(ls) + data.content;
    EscapeTitleNoNewline(title);
    QuotedLineNoNewline("title", EscapeTitle(title));
    QuotedLineNoNewline("date", data.date);
    QuotedLineNoNewline("dateISO", data.dateIso);
    QuotedLineNoNewline("slug", slug);
    QuotedLineNoNewline("sourceUrl", data.sourceUrl);
    PlainLineNoNewline("wordCount", data.wordCount);
    PlainLineNoNewline("readingTime", data.readingTime);
    ReadLinesOf(ls, data.content);
    QuotedValueOf("title", EscapeTitle(title));
    QuotedValueOf("date", data.date);
    QuotedValueOf("dateISO", data.dateIso);
    QuotedValueOf("slug", slug);
    QuotedValueOf("sourceUrl", data.sourceUrl);
    NatValueOf("wordCount", data.wordCount);
    NatValueOf("readingTime", data.readingTime);
    UnescapeEscapeTitle(title);
  }

  lemma {:induction false} TerminatedAppend(a: seq<string>, b: seq<string>)
    ensures Terminated(a + b) == Terminated(a) + Terminated(b)
  {
    if a != [] {
      assert (a + b)[1..] == a[1..] + b;
      TerminatedAppend(a[1..], b);
    } else {
      assert a + b == b;
    }
  }

  /** The file opens with the `---` line, and the front matter closes with
      `---`, followed by one empty line and the content. */
  lemma EssayFileShape(slug: string, title: string, data: EssayData)
    ensures StartsWith(EssayFile(slug, title, data), "---\ntitle: \"")
    ensures EndsWith(FrontMatterText(slug, title, data), "\n---")
  {
    var hs := HeaderLines(slug, title, data);
    assert JoinLines(hs) == "---" + "\n" + JoinLines(hs[1..]);
    assert JoinLines(hs[1..]) == hs[1] + "\n" + JoinLines(hs[2..]);
    JoinLastLine(hs);
  }

  lemma {:induction false} JoinLastLine(lines: seq<string>)
    requires |lines| >= 2
    ensures JoinLines(lines) == JoinLines(lines[..|lines| - 1]) + "\n" + lines[|lines| - 1]
  {
    if |lines| > 2 {
      JoinLastLine(lines[1..]);
      assert lines[1..][..|lines| - 2] == lines[..|lines| - 1][1..];
    }
  }
}
