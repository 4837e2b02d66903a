/** The choice `extract_content` makes among PG's page layouts: the `<font>`
    element with the most text, else the `<td>` with the most text, else the
    whole `<body>`. HTML parsing and the Markdown conversion are not modelled:
    each element is described by the two text lengths the rule looks at and
    by the Markdown `html_to_markdown` would produce for it. */
module ContentSelection {
  import opened PyStr

  /** An element: `len(e.get_text())`, `len(e.get_text(strip=True))` and the
      Markdown the converter makes of it. */
  datatype Element = Element(textLen: nat, strippedLen: nat, markdown: string)

  /** The `<body>` after scripts, styles and images are removed: its `<font>`
      and `<td>` elements in document order, and its own Markdown. */
  datatype Body = Body(fonts: seq<Element>, tds: seq<Element>, markdown: string)

  /** Which strategy `extract_content` returns from. */
  datatype Choice = NoBody | BestFont(index: nat) | BestTd(index: nat) | WholeBody

  /** An element qualifies when its stripped text is longer than this. */
  const MinStrippedLen: nat := 200

  /** `max(es, key=lambda e: len(e.get_text()))`: the index of the first
      element of greatest text length (Python's `max` keeps the first of
      equal maxima). */
  function FirstLongest(es: seq<Element>): (k: nat)
    requires es != []
    ensures k < |es|
    ensures forall j :: 0 <= j < |es| ==> es[j].textLen <= es[k].textLen
    ensures forall j :: 0 <= j < k ==> es[j].textLen < es[k].textLen
  {
    if |es| == 1 then 0
    else
      var k := FirstLongest(es[..|es| - 1]);
      if es[|es| - 1].textLen > es[k].textLen then |es| - 1 else k
  }

  /** The first longest element is the only index with those two properties. */
  lemma FirstLongestUnique(es: seq<Element>, k: nat)
    requires k < |es|
    requires forall j :: 0 <= j < |es| ==> es[j].textLen <= es[k].textLen
    requires forall j :: 0 <= j < k ==> es[j].textLen < es[k].textLen
    ensures k == FirstLongest(es)
  {
  }

  /** The best of a kind qualifies when it exists and its stripped text is
      longer than the threshold. */
  predicate BestQualifies(es: seq<Element>) {
    es != [] && es[FirstLongest(es)].strippedLen > MinStrippedLen
  }

  /** Strategies 1 to 3 of `extract_content`, and the early return when the
      page has no `<body>`. */
  function Select(body: Option<Body>): Choice {
    match body
    case None => NoBody
    case Some(b) =>
      if BestQualifies(b.fonts) then BestFont(FirstLongest(b.fonts))
      else if BestQualifies(b.tds) then BestTd(FirstLongest(b.tds))
      else WholeBody
  }

  /** The Markdown `extract_content` returns: that of the chosen element,
      or the empty string for a page without a body. */
  function ExtractContent(body: Option<Body>): (r: string)
    ensures body.None? ==> r == ""
  {
    match Select(body)
    case NoBody => ""
    case BestFont(i) => body.value.fonts[i].markdown
    case BestTd(i) => body.value.tds[i].markdown
    case WholeBody => body.value.markdown
  }

  /** The selection rule in full: it takes the first longest `<font>` when its
      stripped text is long enough; failing that, the first longest `<td>`
      under the same test; failing both, the whole body. No element whose
      stripped text has at most 200 characters is ever chosen, and a
      qualifying `<font>` always beats any `<td>`. */
  lemma SelectSpec(b: Body)
    ensures match Select(Some(b))
      case BestFont(i) =>
        i < |b.fonts| && b.fonts[i].strippedLen > MinStrippedLen
        && (forall j :: 0 <= j < |b.fonts| ==> b.fonts[j].textLen <= b.fonts[i].textLen)
        && (forall j :: 0 <= j < i ==> b.fonts[j].textLen < b.fonts[i].textLen)
        && ExtractContent(Some(b)) == b.fonts[i].markdown
      case BestTd(i) =>
        !BestQualifies(b.fonts)
        && i < |b.tds| && b.tds[i].strippedLen > MinStrippedLen
        && (forall j :: 0 <= j < |b.tds| ==> b.tds[j].textLen <= b.tds[i].textLen)
        && (forall j :: 0 <= j < i ==> b.tds[j].textLen < b.tds[i].textLen)
        && ExtractContent(Some(b)) == b.tds[i].markdown
      case WholeBody =>
        !BestQualifies(b.fonts) && !BestQualifies(b.tds)
        && ExtractContent(Some(b)) == b.markdown
      case NoBody => false
  {
  }

  /** A page whose elements are all short falls back to the whole body. */
  lemma {:induction false} ShortElementsFallBack(b: Body)
    requires forall j :: 0 <= j < |b.fonts| ==> b.fonts[j].strippedLen <= MinStrippedLen
    requires forall j :: 0 <= j < |b.tds| ==> b.tds[j].strippedLen <= MinStrippedLen
    ensures ExtractContent(Some(b)) == b.markdown
  {
    if b.fonts != [] { var k := FirstLongest(b.fonts); assert b.fonts[k].strippedLen <= MinStrippedLen; }
    if b.tds != [] { var k := FirstLongest(b.tds); assert b.tds[k].strippedLen <= MinStrippedLen; }
  }
}
