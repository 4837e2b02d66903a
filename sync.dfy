/** `main` and `get_existing_slugs`: which essays are scraped, the counter of
    essays written, and the essay directory as a map from file name to text.
    The network, `slugify` and the file system are inputs: the slug function,
    the outcome of fetching each link, and whether its file write succeeds. */
module Sync {
  import opened PyStr
  import opened EssayLinks
  import opened EssayText
  import opened FrontMatter

  /** What became of one link that was processed: `scrape_essay` raised
      (network error, HTTP error status), or it returned its record and the
      file write, if one is made, either succeeds or raises. */
  datatype Attempt = ScrapeFailed | Scraped(data: EssayData, writeOk: bool)

  /** `f"{slug}.md"` inside the essay directory. */
  function FileName(slug: string): string {
    slug + ".md"
  }

  /** `get_existing_slugs`: the names of the `.md` files with every ".md"
      removed (`f.replace(".md", "")`); `listing` is None when the directory
      does not exist yet, in which case it is created and nothing exists. */
  function ExistingSlugs(listing: Option<set<string>>): set<string> {
    match listing
    case None => {}
    case Some(names) => set f | f in names && EndsWith(f, ".md") :: Replace(f, ".md", "")
  }

  /** The `continue` test: a link is processed iff `--force` was given or
      its slug is not among the existing ones. */
  predicate Processed(force: bool, existing: set<string>, slug: string) {
    force || slug !in existing
  }

  /** Whether a processed link yields a written essay: the scrape returned,
      its content is not empty, and the write did not raise. */
  predicate Saves(a: Attempt) {
    a.Scraped? && a.data.content != "" && a.writeOk
  }

  predicate Counted(force: bool, existing: set<string>, slugify: string -> string, link: Link, a: Attempt) {
    Processed(force, existing, slugify(link.title)) && Saves(a)
  }

  /** `new_count` after the given links. */
  function NewCount(force: bool, existing: set<string>, slugify: string -> string,
                    links: seq<Link>, attempts: seq<Attempt>): nat
    requires |attempts| == |links|
  {
    if links == [] then 0
    else
      var n := |links| - 1;
      NewCount(force, existing, slugify, links[..n], attempts[..n])
      + (if Counted(force, existing, slugify, links[n], attempts[n]) then 1 else 0)
  }

  /** The essay directory after one more link. */
  function FilesStep(force: bool, existing: set<string>, slugify: string -> string,
                     link: Link, a: Attempt, files: map<string, string>): map<string, string>
  {
    if Counted(force, existing, slugify, link, a) then
      var slug := slugify(link.title);
      files[FileName(slug) := EssayFile(slug, link.title, a.data)]
    else files
  }

  /** The essay directory after the given links. */
  function FilesAfter(force: bool, existing: set<string>, slugify: string -> string,
                      links: seq<Link>, attempts: seq<Attempt>, files: map<string, string>): map<string, string>
    requires |attempts| == |links|
  {
    if links == [] then files
    else
      var n := |links| - 1;
      FilesStep(force, existing, slugify, links[n], attempts[n],
                FilesAfter(force, existing, slugify, links[..n], attempts[..n], files))
  }

  lemma PrefixStep(force: bool, existing: set<string>, slugify: string -> string,
                   links: seq<Link>, attempts: seq<Attempt>, files: map<string, string>, i: nat)
    requires |attempts| == |links| && i < |links|
    ensures NewCount(force, existing, slugify, links[..i + 1], attempts[..i + 1])
      == NewCount(force, existing, slugify, links[..i], attempts[..i])
         + (if Counted(force, existing, slugify, links[i], attempts[i]) then 1 else 0)
    ensures FilesAfter(force, existing, slugify, links[..i + 1], attempts[..i + 1], files)
      == FilesStep(force, existing, slugify, links[i], attempts[i],
                   FilesAfter(force, existing, slugify, links[..i], attempts[..i], files))
  {
    assert links[..i + 1][..i] == links[..i];
    assert attempts[..i + 1][..i] == attempts[..i];
  }

  /** The loop of `main` over the essay links. */
  method SyncEssays(force: bool, existing: set<string>, slugify: string -> string,
                    links: seq<Link>, attempts: seq<Attempt>, files: map<string, string>)
    returns (newCount: nat, written: map<string, string>)
    requires |attempts| == |links|
    ensures newCount == NewCount(force, existing, slugify, links, attempts)
    ensures written == FilesAfter(force, existing, slugify, links, attempts, files)
  {
    newCount := 0;
    written := files;
    var i := 0;
    while i < |links|
      invariant 0 <= i <= |links|
      invariant newCount == NewCount(force, existing, slugify, links[..i], attempts[..i])
      invariant written == FilesAfter(force, existing, slugify, links[..i], attempts[..i], files)
    {
      PrefixStep(force, existing, slugify, links, attempts, files, i);
      var link := links[i];
      var slug := slugify(link.title);
      if (force || slug !in existing) && attempts[i].Scraped? {
        var data := attempts[i].data;
        if data.content != "" && attempts[i].writeOk {
          written := written[FileName(slug) := EssayFile(slug, link.title, data)];
          newCount := newCount + 1;
        }
      }
      i := i + 1;
    }
    assert links[..i] == links;
    assert attempts[..i] == attempts;
  }

  /** The counter never exceeds the number of links, and counts no link that
      was skipped. */
  lemma {:induction false} NewCountBounds(force: bool, existing: set<string>, slugify: string -> string,
                                          links: seq<Link>, attempts: seq<Attempt>)
    requires |attempts| == |links|
    ensures NewCount(force, existing, slugify, links, attempts) <= |links|
    ensures (forall i :: 0 <= i < |links| ==> !Processed(force, existing, slugify(links[i].title))) ==>
      NewCount(force, existing, slugify, links, attempts) == 0
  {
    if links != [] {
      var n := |links| - 1;
      NewCountBounds(force, existing, slugify, links[..n], attempts[..n]);
    }
  }

  /** An essay that `scrape_essay` produced and that is counted has at least
      one word, so its front matter shows a positive word count. */
  lemma SavedEssayHasWords(link: Link, page: Page, writeOk: bool)
    requires Saves(Scraped(ScrapeEssay(link.href, page), writeOk))
    ensures ScrapeEssay(link.href, page).wordCount >= 1
  {
    ScrapeEssaySpec(link.href, page);
  }

  /** The names of the files the counted links write. */
  function CountedNames(force: bool, existing: set<string>, slugify: string -> string,
                        links: seq<Link>, attempts: seq<Attempt>): set<string>
    requires |attempts| == |links|
  {
    set i | 0 <= i < |links| && Counted(force, existing, slugify, links[i], attempts[i]) :: FileName(slugify(links[i].title))
  }

  lemma FilesStepKeys(force: bool, existing: set<string>, slugify: string -> string,
                      link: Link, a: Attempt, files: map<string, string>)
    ensures FilesStep(force, existing, slugify, link, a, files).Keys ==
      files.Keys + if Counted(force, existing, slugify, link, a) then {FileName(slugify(link.title))} else {}
  {
  }

  lemma CountedNamesStep(force: bool, existing: set<string>, slugify: string -> string,
                         links: seq<Link>, attempts: seq<Attempt>)
    requires |attempts| == |links| && links != []
    ensures CountedNames(force, existing, slugify, links, attempts) ==
      CountedNames(force, existing, slugify, links[..|links| - 1], attempts[..|links| - 1])
      + if Counted(force, existing, slugify, links[|links| - 1], attempts[|links| - 1])
        then {FileName(slugify(links[|links| - 1].title))} else {}
  {
    var n := |links| - 1;
    var ls, at := links[..n], attempts[..n];
    forall i | 0 <= i < n ensures ls[i] == links[i] && at[i] == attempts[i] { }
  }

  /** The directory after the loop holds exactly the files it had and those
      the counted links wrote. */
  lemma {:induction false} FilesAfterKeys(force: bool, existing: set<string>, slugify: string -> string,
                                          links: seq<Link>, attempts: seq<Attempt>, files: map<string, string>)
    requires |attempts| == |links|
    ensures FilesAfter(force, existing, slugify, links, attempts, files).Keys ==
      files.Keys + CountedNames(force, existing, slugify, links, attempts)
  {
    if links != [] {
      var n := |links| - 1;
      FilesAfterKeys(force, existing, slugify, links[..n], attempts[..n], files);
      FilesStepKeys(force, existing, slugify, links[n], attempts[n],
                    FilesAfter(force, existing, slugify, links[..n], attempts[..n], files));
      CountedNamesStep(force, existing, slugify, links, attempts);
    }
  }

  /** A file that no counted link writes keeps its text. */
  lemma {:induction false} FilesAfterUntouched(force: bool, existing: set<string>, slugify: string -> string,
                                               links: seq<Link>, attempts: seq<Attempt>, files: map<string, string>,
                                               name: string)
    requires |attempts| == |links|
    requires name in files && name !in CountedNames(force, existing, slugify, links, attempts)
    ensures var after := FilesAfter(force, existing, slugify, links, attempts, files);
      name in after && after[name] == files[name]
  {
    if links != [] {
      var n := |links| - 1;
      CountedNamesStep(force, existing, slugify, links, attempts);
      FilesAfterUntouched(force, existing, slugify, links[..n], attempts[..n], files, name);
    }
  }

  /** `<slug>.md` of a counted link holds that link's essay when no later
      counted link has the same slug: the last write of a file wins. */
  lemma {:induction false} FilesAfterWritten(force: bool, existing: set<string>, slugify: string -> string,
                                             links: seq<Link>, attempts: seq<Attempt>, files: map<string, string>,
                                             i: nat)
    requires |attempts| == |links| && i < |links|
    requires Counted(force, existing, slugify, links[i], attempts[i])
    requires forall j :: i < j < |links| && Counted(force, existing, slugify, links[j], attempts[j]) ==>
      slugify(links[j].title) != slugify(links[i].title)
    ensures var slug := slugify(links[i].title);
      var after := FilesAfter(force, existing, slugify, links, attempts, files);
      FileName(slug) in after && after[FileName(slug)] == EssayFile(slug, links[i].title, attempts[i].data)
  {
    var n := |links| - 1;
    if i < n {
      var ls, at := links[..n], attempts[..n];
      assert ls[i] == links[i] && at[i] == attempts[i];
      forall j | i < j < n ensures ls[j] == links[j] && at[j] == attempts[j] { }
      FilesAfterWritten(force, existing, slugify, ls, at, files, i);
      if Counted(force, existing, slugify, links[n], attempts[n]) {
        FileNameStem(slugify(links[n].title));
        FileNameStem(slugify(links[i].title));
      }
    }
  }

  /** The slug is the file name without its last three characters, so
      different slugs give different file names. */
  lemma FileNameStem(slug: string)
    ensures |FileName(slug)| == |slug| + 3 && FileName(slug)[..|slug|] == slug
  {
  }

  /** A file written as `<slug>.md` is read back by `get_existing_slugs` as
      that slug, as long as the slug itself holds no ".md". */
  lemma WrittenSlugExists(names: set<string>, slug: string)
    requires FileName(slug) in names && Free(slug, ".md")
    ensures slug in ExistingSlugs(Some(names))
  {
    ReplaceSuffixMd(slug);
    assert EndsWith(FileName(slug), ".md");
  }

  /** Without `--force` a second run over the directory the first run left
      skips every link the first run saved (slugs without ".md" in them). */
  lemma SecondRunSkipsSaved(force: bool, existing: set<string>, slugify: string -> string,
                            links: seq<Link>, attempts: seq<Attempt>, files: map<string, string>, i: nat)
    requires |attempts| == |links| && i < |links|
    requires Counted(force, existing, slugify, links[i], attempts[i])
    requires Free(slugify(links[i].title), ".md")
    ensures !Processed(false, ExistingSlugs(Some(FilesAfter(force, existing, slugify, links, attempts, files).Keys)),
                       slugify(links[i].title))
  {
    FilesAfterKeys(force, existing, slugify, links, attempts, files);
    assert FileName(slugify(links[i].title)) in CountedNames(force, existing, slugify, links, attempts);
    WrittenSlugExists(FilesAfter(force, existing, slugify, links, attempts, files).Keys, slugify(links[i].title));
  }
}
