/** The essay-link filter of `get_essay_links`: from the anchors of the
    articles page, in page order, keep the internal links to essay pages. */
module EssayLinks {
  import opened PyStr

  /** An `<a>` element: its `href` attribute, when present, and its text
      with each string stripped (`get_text(strip=True)`). */
  datatype Anchor = Anchor(href: Option<string>, text: string)

  /** `{"title": title, "href": href}` */
  datatype Link = Link(title: string, href: string)

  /** `a.get("href", "")` */
  function HrefOf(a: Anchor): string {
    match a.href
    case Some(h) => h
    case None => ""
  }

  /** The test of the `if` in the anchor loop: a non-empty title and a
      non-empty relative `.html` target that is neither external, nor a
      fragment, nor the index page itself. */
  predicate IsEssayLink(title: string, href: string) {
    title != "" && href != ""
    && !StartsWith(href, "http") && !StartsWith(href, "#")
    && EndsWith(href, ".html") && href != "articles.html"
  }

  function LinkOf(a: Anchor): Link {
    Link(a.text, HrefOf(a))
  }

  predicate Accepted(a: Anchor) {
    IsEssayLink(a.text, HrefOf(a))
  }

  /** The links the loop appends, as a function of the anchors. */
  function EssayLinksOf(anchors: seq<Anchor>): seq<Link> {
    if anchors == [] then []
    else
      var init := EssayLinksOf(anchors[..|anchors| - 1]);
      var a := anchors[|anchors| - 1];
      if Accepted(a) then init + [LinkOf(a)] else init
  }

  /** The loop of `get_essay_links` over the anchors found on the page. */
  method GetEssayLinks(anchors: seq<Anchor>) returns (links: seq<Link>)
    ensures links == EssayLinksOf(anchors)
  {
    links := [];
    var i := 0;
    while i < |anchors|
      invariant 0 <= i <= |anchors|
      invariant links == EssayLinksOf(anchors[..i])
    {
      var href := HrefOf(anchors[i]);
      var title := anchors[i].text;
      if IsEssayLink(title, href) {
        links := links + [Link(title, href)];
      }
      assert anchors[..i + 1][..i] == anchors[..i];
      i := i + 1;
    }
    assert anchors[..i] == anchors;
  }

  /** sub is obtained from s by deleting elements, keeping the order. */
  predicate IsSubsequence(sub: seq<Link>, s: seq<Link>)
    decreases |s|
  {
    if s == [] then sub == []
    else
      (sub != [] && sub[|sub| - 1] == s[|s| - 1] && IsSubsequence(sub[..|sub| - 1], s[..|s| - 1]))
      || IsSubsequence(sub, s[..|s| - 1])
  }

  /** A link is kept exactly when the filter accepts its anchor, and every
      kept link comes from such an anchor. */
  lemma {:induction false} EssayLinksMembership(anchors: seq<Anchor>, l: Link)
    ensures l in EssayLinksOf(anchors) <==> exists a :: a in anchors && Accepted(a) && LinkOf(a) == l
  {
    if anchors != [] {
      var init := anchors[..|anchors| - 1];
      var last := anchors[|anchors| - 1];
      EssayLinksMembership(init, l);
      assert anchors == init + [last];
      if l in EssayLinksOf(anchors) && l !in EssayLinksOf(init) {
        assert Accepted(last) && LinkOf(last) == l;
      }
      if exists a :: a in anchors && Accepted(a) && LinkOf(a) == l {
        var a :| a in anchors && Accepted(a) && LinkOf(a) == l;
        if a != last { assert a in init; }
      }
    }
  }

  /** The kept links are the accepted anchors in page order: an
      order-preserving subsequence of the anchors' links. */
  lemma {:induction false} EssayLinksInPageOrder(anchors: seq<Anchor>)
    ensures IsSubsequence(EssayLinksOf(anchors), Links(anchors))
  {
    if anchors != [] {
      var init := anchors[..|anchors| - 1];
      EssayLinksInPageOrder(init);
      assert Links(anchors)[..|anchors| - 1] == Links(init);
      var r := EssayLinksOf(anchors);
      if Accepted(anchors[|anchors| - 1]) {
        assert r[..|r| - 1] == EssayLinksOf(init);
      }
    }
  }

  /** The positions of the anchors the filter accepts. */
  function AcceptedPositions(anchors: seq<Anchor>): set<int> {
    set i | 0 <= i < |anchors| && Accepted(anchors[i])
  }

  /** One link is kept per accepted anchor, so an essay linked twice on
      the page is kept twice. */
  lemma {:induction false} EssayLinksCount(anchors: seq<Anchor>)
    ensures |EssayLinksOf(anchors)| == |AcceptedPositions(anchors)|
  {
    if anchors != [] {
      var n := |anchors| - 1;
      EssayLinksCount(anchors[..n]);
      AcceptedPositionsStep(anchors);
    }
  }

  lemma AcceptedPositionsStep(anchors: seq<Anchor>)
    requires anchors != []
    ensures var n := |anchors| - 1;
      n !in AcceptedPositions(anchors[..n]) &&
      AcceptedPositions(anchors) ==
        AcceptedPositions(anchors[..n]) + if Accepted(anchors[n]) then {n} else {}
  {
    var n := |anchors| - 1;
    var init := anchors[..n];
    forall i | 0 <= i < n ensures init[i] == anchors[i] { }
  }

  /** The link of every anchor, accepted or not. */
  function Links(anchors: seq<Anchor>): (r: seq<Link>)
    ensures |r| == |anchors| && forall i :: 0 <= i < |anchors| ==> r[i] == LinkOf(anchors[i])
  {
    seq(|anchors|, i requires 0 <= i < |anchors| => LinkOf(anchors[i]))
  }

  /** Every kept link passes the test itself, so filtering the page a
      second time changes nothing. */
  lemma {:induction false} EssayLinksAllAccepted(anchors: seq<Anchor>)
    ensures forall i :: 0 <= i < |EssayLinksOf(anchors)| ==>
      IsEssayLink(EssayLinksOf(anchors)[i].title, EssayLinksOf(anchors)[i].href)
  {
    if anchors != [] {
      EssayLinksAllAccepted(anchors[..|anchors| - 1]);
    }
  }

  /** The filter never keeps more links than there are anchors. */
  lemma {:induction false} EssayLinksLength(anchors: seq<Anchor>)
    ensures |EssayLinksOf(anchors)| <= |anchors|
  {
    if anchors != [] {
      EssayLinksLength(anchors[..|anchors| - 1]);
    }
  }
}
