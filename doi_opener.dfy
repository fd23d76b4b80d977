/**
 * `DOIOpener` (Scripts/doi_opener.py): opens, for each entry of a batch, its base URL and then
 * the resolver URL of every DOI of the entry, for a person to check by eye.
 *
 * The web browser is modelled as the log of the URLs it was asked to open.
 */
module DoiOpener {
  import opened Strings
  import opened Sequences

  const DoiOrg := "https://doi.org/"

  /** The browser: every `webbrowser.open` call appends its URL. */
  class Browser {
    var openedUrls: seq<string>

    constructor ()
      ensures openedUrls == []
    {
      openedUrls := [];
    }

    /** `webbrowser.open(url)`. */
    method Open(url: string)
      modifies this
      ensures openedUrls == old(openedUrls) + [url]
    {
      openedUrls := openedUrls + [url];
    }
  }

  predicate IsQuote(c: char) {
    c == '"'
  }

  /** `s.strip().strip('"')`: surrounding whitespace, then every surrounding double quote. */
  function Clean(s: string): (r: string)
    ensures r == [] || (r[0] != '"' && r[|r| - 1] != '"')
  {
    Trim(Strip(s), IsQuote)
  }

  /** The resolver URL of one comma-separated piece. */
  function DoiUrl(piece: string): string {
    DoiOrg + Strip(piece)
  }

  /** A DOI URL is the resolver prefix followed by the piece without surrounding whitespace,
      so pieces that differ only in that whitespace open the same URL. */
  lemma DoiUrlShape(piece: string)
    ensures StartsWith(DoiUrl(piece), DoiOrg) && DoiUrl(piece)[|DoiOrg|..] == Strip(piece)
    ensures DoiUrl(piece) == DoiUrl(Strip(piece))
  {
    StripIdempotent(piece);
  }

  /** The resolver URLs of the pieces, in order. */
  function PieceUrls(pieces: seq<string>): (urls: seq<string>)
    ensures |urls| == |pieces|
    ensures forall k :: 0 <= k < |pieces| ==> urls[k] == DoiUrl(pieces[k])
  {
    seq(|pieces|, k requires 0 <= k < |pieces| => DoiUrl(pieces[k]))
  }

  /** The URLs one entry opens: its base URL first, then the URL of every comma-separated
      piece of its second field. */
  function EntryUrls(entry: (string, string)): seq<string> {
    [Clean(entry.0)] + PieceUrls(Split(Clean(entry.1), ','))
  }

  /** The URLs a batch opens, entry after entry. */
  function OpenedUrls(batch: seq<(string, string)>): seq<string> {
    Concat(EntryUrls, batch)
  }

  class DoiOpener {
    var batchData: seq<(string, string)>

    constructor (batchData: seq<(string, string)>)
      ensures this.batchData == batchData
    {
      this.batchData := batchData;
    }

    /** `process_and_open_urls`: the browser receives the URLs of every entry, in batch order. */
    method ProcessAndOpenUrls(browser: Browser)
      modifies browser
      ensures browser.openedUrls == old(browser.openedUrls) + OpenedUrls(batchData)
    {
      var batch := batchData;
      for i := 0 to |batch|
        invariant browser.openedUrls == old(browser.openedUrls) + Concat(EntryUrls, batch[..i])
      {
        var entry := batch[i];
        ConcatPrefix(EntryUrls, batch, i);
        AppendAssociative(old(browser.openedUrls), Concat(EntryUrls, batch[..i]), EntryUrls(entry));
        OpenEntry(browser, entry);
      }
      assert batch[..|batch|] == batch;
    }
  }

  /** One iteration of `process_and_open_urls`: the cleaned base URL, then the URL of every
      piece of the cleaned DOI field. */
  method OpenEntry(browser: Browser, entry: (string, string))
    modifies browser
    ensures browser.openedUrls == old(browser.openedUrls) + EntryUrls(entry)
  {
    var baseUrl := Clean(entry.0);
    var dois := Split(Clean(entry.1), ',');
    browser.Open(baseUrl);
    OpenPieces(browser, dois);
    AppendAssociative(old(browser.openedUrls), [baseUrl], PieceUrls(dois));
  }

  /** Sequence concatenation is associative. */
  lemma AppendAssociative(a: seq<string>, b: seq<string>, c: seq<string>)
    ensures a + b + c == a + (b + c)
  {
  }

  /** The inner loop of `process_and_open_urls`: one resolver URL per piece, in order. */
  method OpenPieces(browser: Browser, dois: seq<string>)
    modifies browser
    ensures browser.openedUrls == old(browser.openedUrls) + PieceUrls(dois)
  {
    for j := 0 to |dois|
      invariant browser.openedUrls == old(browser.openedUrls) + PieceUrls(dois)[..j]
    {
      assert PieceUrls(dois)[..j + 1] == PieceUrls(dois)[..j] + [DoiUrl(dois[j])];
      browser.Open(DoiOrg + Strip(dois[j]));
    }
    assert PieceUrls(dois)[..|dois|] == PieceUrls(dois);
  }

  /** An entry opens its base URL and one DOI URL per comma plus one. */
  lemma EntryUrlsCount(entry: (string, string))
    ensures |EntryUrls(entry)| == CountChar(Clean(entry.1), ',') + 2
    ensures EntryUrls(entry)[0] == Clean(entry.0)
  {
    SplitCount(Clean(entry.1), ',');
  }

  /** An empty DOI field still opens the bare resolver URL. */
  lemma EmptyFieldOpensResolver(base: string, field: string)
    requires Clean(field) == []
    ensures |EntryUrls((base, field))| == 2
    ensures EntryUrls((base, field))[0] == Clean(base) && EntryUrls((base, field))[1] == DoiOrg
  {
    var pieces := Split(Clean(field), ',');
    assert pieces == [""];
    ResolverOnly(pieces);
  }

  /** The single empty piece opens the bare resolver URL. */
  lemma ResolverOnly(pieces: seq<string>)
    requires pieces == [""]
    ensures PieceUrls(pieces) == [DoiOrg]
  {
    assert Strip("") == [];
    assert DoiUrl("") == DoiOrg;
  }

  /** The double quotes are removed after the whitespace, so whitespace inside the quotes
      stays. */
  lemma QuotedKeepsInner(x: string)
    requires x != [] && !IsQuote(x[0]) && !IsQuote(x[|x| - 1])
    ensures Clean(['"'] + x + ['"']) == x
  {
    var q := ['"'] + x + ['"'];
    assert TrimLeft(q, IsSpace) == q;
    assert TrimRight(q, IsSpace) == q;
    assert q[1..] == x + ['"'];
    assert TrimLeft(x + ['"'], IsQuote) == x + ['"'];
    assert (x + ['"'])[..|x|] == x;
    assert TrimRight(x, IsQuote) == x;
  }

  /** Opening two batches one after the other opens the URLs of their concatenation. */
  lemma OpenedUrlsAppend(a: seq<(string, string)>, b: seq<(string, string)>)
    ensures OpenedUrls(a + b) == OpenedUrls(a) + OpenedUrls(b)
  {
    ConcatAppend(EntryUrls, a, b);
  }

  /** Every entry contributes its base URL and one DOI URL per piece. */
  lemma {:induction false} OpenedUrlsCount(batch: seq<(string, string)>)
    ensures |OpenedUrls(batch)| >= 2 * |batch|
    decreases |batch|
  {
    if batch != [] {
      OpenedUrlsCount(batch[..|batch| - 1]);
      EntryUrlsCount(batch[|batch| - 1]);
    }
  }
}
