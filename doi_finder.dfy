/**
 * `DOIFinder` (Scripts/DoiFinder.py): for each journal page of the OpenCitations website,
 * follows its `/id/` links and collects the list items that mention a DOI.
 *
 * Pages are not fetched: a page is given as a function from the URL to its parsed content,
 * `None` when the request failed, raised, or answered with a status other than 200.
 */
module DoiFinder {
  import opened Wrappers
  import opened Strings
  import opened Sequences

  const DoiOrg := "https://doi.org/"

  /** `doi_to_url`: the resolver URL, with the DOI appended unchanged. */
  function DoiToUrl(doi: string): (url: string)
    ensures StartsWith(url, DoiOrg) && url[|DoiOrg|..] == doi
  {
    DoiOrg + doi
  }

  /** Different DOIs give different URLs. */
  lemma DoiToUrlInjective(a: string, b: string)
    requires DoiToUrl(a) == DoiToUrl(b)
    ensures a == b
  {
    assert a == DoiToUrl(a)[|DoiOrg|..];
  }

  // ------------------------------------------------------------- id_checker

  /** An `<a>` tag, with its `href` attribute if it has one. */
  datatype Link = Link(href: Option<string>)

  /** `href.strip().replace('\n', '')`. */
  function CleanHref(href: string): (r: string)
    ensures '\n' !in r
    ensures |r| <= |href|
  {
    var s := Strip(href);
    RemoveCharGone(s, '\n');
    RemoveAll(s, "\n")
  }

  /** `link.get('href', '')`. */
  function Href(link: Link): string {
    link.href.GetOr("")
  }

  /** The link is kept: its `href` contains `/id/`. */
  predicate IsIdLink(link: Link) {
    Contains(Href(link), "/id/")
  }

  /** What a kept link contributes: its cleaned `href`. */
  function KeptHref(link: Link): string {
    CleanHref(Href(link))
  }

  /** The cleaned hrefs of the kept links, in order. */
  function Kept(links: seq<Link>): seq<string> {
    Filtered(IsIdLink, KeptHref, links)
  }

  /** `id_checker`: the loop filtering and cleaning the links. */
  method IdChecker(links: seq<Link>) returns (newList: seq<string>)
    ensures newList == Kept(links)
  {
    newList := [];
    var i := 0;
    while i < |links|
      invariant i <= |links|
      invariant newList == Kept(links[..i])
    {
      FilteredPrefix(IsIdLink, KeptHref, links, i);
      var href := links[i].href.GetOr("");
      if Contains(href, "/id/") {
        newList := newList + [CleanHref(href)];
      }
      i := i + 1;
    }
    assert links[..i] == links;
  }

  /** A link without `href` is never kept. */
  lemma NoHrefNotKept()
    ensures !IsIdLink(Link(None))
  {
    assert forall k: nat :: !OccursAt("", "/id/", k);
  }

  /** A string is kept iff it is the cleaned href of a link whose href contains `/id/`. */
  lemma KeptMembership(links: seq<Link>, x: string)
    ensures x in Kept(links) <==> exists k :: 0 <= k < |links| && IsIdLink(links[k]) && KeptHref(links[k]) == x
  {
    FilteredMembership(IsIdLink, KeptHref, links, x);
  }

  /** At most one href per link, none holding a newline. */
  lemma KeptShape(links: seq<Link>)
    ensures |Kept(links)| <= |links|
    ensures forall x :: x in Kept(links) ==> '\n' !in x
  {
    FilteredCount(IsIdLink, KeptHref, links);
    forall x | x in Kept(links) ensures '\n' !in x {
      KeptMembership(links, x);
      var k :| 0 <= k < |links| && IsIdLink(links[k]) && KeptHref(links[k]) == x;
    }
  }

  // ---------------------------------------------------- li_link_analyser

  /** An `<li>` element: `li.get_text()` and `li.get_text(strip=True)`. */
  datatype ListItem = ListItem(text: string, strippedText: string)

  /** The comprehension at line 119: the stripped text of the items whose raw text contains `10.`. */
  function DoiItems(items: seq<ListItem>): seq<string>
    decreases |items|
  {
    if items == [] then []
    else
      var last := items[|items| - 1];
      DoiItems(items[..|items| - 1]) + (if Contains(last.text, "10.") then [last.strippedText] else [])
  }

  /** An item is kept iff its raw text contains `10.`, and it is stored stripped. */
  lemma {:induction false} DoiItemsMembership(items: seq<ListItem>, x: string)
    ensures x in DoiItems(items) <==> exists k :: 0 <= k < |items| && Contains(items[k].text, "10.") && x == items[k].strippedText
    ensures |DoiItems(items)| <= |items|
    decreases |items|
  {
    if items != [] {
      var init := items[..|items| - 1];
      DoiItemsMembership(init, x);
      assert forall k :: 0 <= k < |init| ==> init[k] == items[k];
    }
  }

  /** The content extracted from a list of links, link by link; a failed page adds nothing. */
  function Extracted(links: seq<string>, page: string -> Option<seq<ListItem>>): seq<string>
    decreases |links|
  {
    if links == [] then []
    else Extracted(links[..|links| - 1], page) + DoiItems(page(links[|links| - 1]).GetOr([]))
  }

  /** `li_link_analyser`: the loop extending `extracted_content` page by page. */
  method LiLinkAnalyser(links: seq<string>, page: string -> Option<seq<ListItem>>) returns (extracted: seq<string>)
    ensures extracted == Extracted(links, page)
  {
    extracted := [];
    var i := 0;
    while i < |links|
      invariant i <= |links|
      invariant extracted == Extracted(links[..i], page)
    {
      var items := page(links[i]);
      if items.Some? {
        extracted := extracted + DoiItems(items.value);
      }
      assert links[..i + 1][..i] == links[..i];
      i := i + 1;
    }
    assert links[..i] == links;
  }

  /** `find_doi_links`: the `/id/` links of the journal page, then their DOI items; `[]` when the
      journal page itself could not be read. */
  method FindDoiLinks(initialUrl: string, anchors: string -> Option<seq<Link>>, page: string -> Option<seq<ListItem>>)
    returns (saved: seq<string>)
    ensures anchors(initialUrl).None? ==> saved == []
    ensures anchors(initialUrl).Some? ==> saved == Extracted(Kept(anchors(initialUrl).value), page)
  {
    var identifierLinks := anchors(initialUrl);
    if identifierLinks.None? {
      return [];
    }
    var doiLinks := IdChecker(identifierLinks.value);
    saved := LiLinkAnalyser(doiLinks, page);
  }

  // ------------------------------------------------------- the main loop

  /** `str(initial_url).strip()`; an empty cell arrives as NaN and prints as `nan`. */
  function SeedText(cell: Option<string>): string {
    Strip(cell.GetOr("nan"))
  }

  /** The test a seed must pass before its page is fetched. */
  predicate IsValidSeed(url: string) {
    url != [] && (StartsWith(url, "http://") || StartsWith(url, "https://"))
  }

  /** A valid seed begins with `http`. */
  lemma HttpPrefix(url: string)
    requires IsValidSeed(url)
    ensures url[..4] == "http"
  {
    var p := if StartsWith(url, "http://") then "http://" else "https://";
    assert url[..|p|] == p;
    assert url[..4] == p[..4];
  }

  /** An empty cell reads as `nan`, which never passes the test. */
  lemma EmptyCellInvalid()
    ensures SeedText(None) == "nan"
    ensures !IsValidSeed(SeedText(None))
  {
    assert Strip("nan") == "nan" by {
      assert !IsSpace('n');
    }
  }

  /** What the main loop does with one seed: the `journal_doi` cell it writes, if any. */
  function JournalDoiCell(cell: Option<string>, found: string -> seq<string>): (r: Option<string>)
    ensures r.Some? <==> IsValidSeed(SeedText(cell)) && found(SeedText(cell)) != []
  {
    var url := SeedText(cell);
    if IsValidSeed(url) && found(url) != [] then Some(Join(found(url), ", ")) else None
  }

  /** The main loop over the `journal` column: the `journal_doi` column it fills and the seeds it
      reports as invalid. `found(url)` is what `find_doi_links(url)` returns; the link finder
      is left abstract here, and `FindDoiLinks` states what it computes from the fetched pages. */
  method ProcessSeeds(cells: seq<Option<string>>, found: string -> seq<string>)
    returns (journalDoi: seq<Option<string>>, invalid: seq<string>)
    ensures journalDoi == Map(seed => JournalDoiCell(seed, found), cells)
    ensures invalid == InvalidSeeds(cells)
  {
    journalDoi := [];
    invalid := [];
    var i := 0;
    while i < |cells|
      invariant i <= |cells|
      invariant journalDoi == Map(seed => JournalDoiCell(seed, found), cells[..i])
      invariant invalid == InvalidSeeds(cells[..i])
    {
      FilteredPrefix(IsInvalidCell, SeedText, cells, i);
      MapPrefix(seed => JournalDoiCell(seed, found), cells, i);
      var url, cell := ProcessSeed(cells[i], found);
      if !IsValidSeed(url) {
        invalid := invalid + [url];
      }
      journalDoi := journalDoi + [cell];
      i := i + 1;
    }
    assert cells[..i] == cells;
  }

  /** One iteration of the main loop: the cleaned seed and the `journal_doi` cell it gives. */
  method ProcessSeed(seed: Option<string>, found: string -> seq<string>) returns (url: string, cell: Option<string>)
    ensures url == SeedText(seed)
    ensures cell == JournalDoiCell(seed, found)
  {
    url := SeedText(seed);
    cell := None;
    if IsValidSeed(url) {
      var links := found(url);
      if links != [] {
        cell := Some(Join(links, ", "));
      }
    }
  }

  /** The seed of the cell fails the test. */
  predicate IsInvalidCell(cell: Option<string>) {
    !IsValidSeed(SeedText(cell))
  }

  /** The cleaned seeds that fail the test, in order. */
  function InvalidSeeds(cells: seq<Option<string>>): seq<string> {
    Filtered(IsInvalidCell, SeedText, cells)
  }

  /** Every reported seed failed the test, and every seed is either reported or processed. */
  lemma InvalidSeedsMembership(cells: seq<Option<string>>, url: string)
    ensures url in InvalidSeeds(cells) <==> !IsValidSeed(url) && exists k :: 0 <= k < |cells| && SeedText(cells[k]) == url
  {
    FilteredMembership(IsInvalidCell, SeedText, cells, url);
  }
}
