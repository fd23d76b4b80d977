/**
 * `JournalIdentifierExtractor` (Scripts/pmid_issn_retriever.py): for each journal URL of the
 * `journal` column, reads the identifier links of the journal page and, from each identifier
 * page, the identifier value, keeping the pairs in `results` keyed by journal URL.
 *
 * The two scrapers are parameters: `identifiersOf(url)` is what `get_identifiers_from_journal`
 * returns (every `href`, `None` for an anchor without one; `[]` when the request or the parse
 * failed) and `idOf(href)` what `get_id_from_identifier_page` returns.
 */
module JournalIdentifiers {
  import opened Wrappers
  import opened Strings

  /** A cell of the `journal` column: a string, or anything else pandas produced (NaN for an
      empty cell). */
  datatype Cell = Str(s: string) | NotString

  /** One `{identifier_url, id}` entry. */
  datatype IdEntry = IdEntry(identifierUrl: string, id: string)

  /** `_load_journal_urls`: the column, or `[]` when reading the file raised. */
  function LoadJournalUrls(column: Option<seq<Cell>>): (urls: seq<Cell>)
    ensures column.None? ==> urls == []
  {
    column.GetOr([])
  }

  /** The skip test of `process_journals`. */
  predicate Skipped(cell: Cell) {
    !cell.Str? || Strip(cell.s) == []
  }

  /** The entries of one journal: the identifier links in page order, each paired with its id,
      dropping a missing link (`requests.get(None)` raises and gives `None`) and a falsy id. */
  function Entries(hrefs: seq<Option<string>>, idOf: string -> Option<string>): seq<IdEntry>
    decreases |hrefs|
  {
    if hrefs == [] then []
    else
      var h := hrefs[|hrefs| - 1];
      Entries(hrefs[..|hrefs| - 1], idOf)
        + (if h.Some? && idOf(h.value).Some? && idOf(h.value).value != [] then [IdEntry(h.value, idOf(h.value).value)] else [])
  }

  /** An entry is kept iff it pairs a present link with a non-empty id. */
  lemma {:induction false} EntriesMembership(hrefs: seq<Option<string>>, idOf: string -> Option<string>, e: IdEntry)
    ensures e in Entries(hrefs, idOf) <==>
      e.id != [] && idOf(e.identifierUrl) == Some(e.id) && Some(e.identifierUrl) in hrefs
    ensures |Entries(hrefs, idOf)| <= |hrefs|
    decreases |hrefs|
  {
    if hrefs != [] {
      var init := hrefs[..|hrefs| - 1];
      EntriesMembership(init, idOf, e);
      assert hrefs == init + [hrefs[|hrefs| - 1]];
    }
  }

  /** The results after processing `urls` starting from `results`. */
  function Processed(results: map<string, seq<IdEntry>>, urls: seq<Cell>, identifiersOf: string -> seq<Option<string>>, idOf: string -> Option<string>): map<string, seq<IdEntry>>
    decreases |urls|
  {
    if urls == [] then results
    else
      var before := Processed(results, urls[..|urls| - 1], identifiersOf, idOf);
      var cell := urls[|urls| - 1];
      if Skipped(cell) then before else before[cell.s := Entries(identifiersOf(cell.s), idOf)]
  }

  /** A key exists after processing iff it existed before or is a journal URL that was not
      skipped. */
  lemma {:induction false} ProcessedKeys(results: map<string, seq<IdEntry>>, urls: seq<Cell>, identifiersOf: string -> seq<Option<string>>, idOf: string -> Option<string>, key: string)
    ensures key in Processed(results, urls, identifiersOf, idOf) <==>
      key in results || (Str(key) in urls && !Skipped(Str(key)))
    decreases |urls|
  {
    if urls != [] {
      var init := urls[..|urls| - 1];
      var last := urls[|urls| - 1];
      ProcessedKeys(results, init, identifiersOf, idOf, key);
      assert urls == init + [last];
      assert Str(key) in urls <==> Str(key) in init || last == Str(key);
    }
  }

  /** A journal URL that was not skipped holds the entries of one processing: a repeated URL
      is reset, never accumulated. */
  lemma {:induction false} ProcessedValue(results: map<string, seq<IdEntry>>, urls: seq<Cell>, identifiersOf: string -> seq<Option<string>>, idOf: string -> Option<string>, key: string)
    requires Str(key) in urls && !Skipped(Str(key))
    ensures key in Processed(results, urls, identifiersOf, idOf)
    ensures Processed(results, urls, identifiersOf, idOf)[key] == Entries(identifiersOf(key), idOf)
    decreases |urls|
  {
    var init := urls[..|urls| - 1];
    var last := urls[|urls| - 1];
    assert urls == init + [last];
    var before := Processed(results, init, identifiersOf, idOf);
    var after := Processed(results, urls, identifiersOf, idOf);
    if last == Str(key) {
      assert after == before[key := Entries(identifiersOf(key), idOf)];
    } else {
      assert Str(key) in init;
      ProcessedValue(results, init, identifiersOf, idOf, key);
      if Skipped(last) {
        assert after == before;
      } else {
        assert after == before[last.s := Entries(identifiersOf(last.s), idOf)];
      }
    }
  }

  /** Every other key keeps its previous list. */
  lemma {:induction false} ProcessedUnchanged(results: map<string, seq<IdEntry>>, urls: seq<Cell>, identifiersOf: string -> seq<Option<string>>, idOf: string -> Option<string>, key: string)
    requires key in results && !(Str(key) in urls && !Skipped(Str(key)))
    ensures key in Processed(results, urls, identifiersOf, idOf)
    ensures Processed(results, urls, identifiersOf, idOf)[key] == results[key]
    decreases |urls|
  {
    if urls != [] {
      var init := urls[..|urls| - 1];
      assert urls == init + [urls[|urls| - 1]];
      ProcessedUnchanged(results, init, identifiersOf, idOf, key);
    }
  }

  /** When the CSV could not be read, processing creates no key. */
  lemma LoadFailureNoKeys(identifiersOf: string -> seq<Option<string>>, idOf: string -> Option<string>)
    ensures Processed(map[], LoadJournalUrls(None), identifiersOf, idOf) == map[]
  {
  }

  class JournalIdentifierExtractor {
    var journalUrls: seq<Cell>
    var results: map<string, seq<IdEntry>>

    /** `__init__`: no results yet, and the URLs loaded from the `journal` column. */
    constructor (column: Option<seq<Cell>>)
      ensures journalUrls == LoadJournalUrls(column) && results == map[]
    {
      results := map[];
      journalUrls := LoadJournalUrls(column);
    }

    /** One journal of `process_journals`: reset its list, then append the entry of each
        identifier page that gave an id. */
    method ProcessJournal(url: string, hrefs: seq<Option<string>>, idOf: string -> Option<string>)
      modifies this
      ensures journalUrls == old(journalUrls)
      ensures results == old(results)[url := Entries(hrefs, idOf)]
    {
      results := results[url := []];
      for j := 0 to |hrefs|
        invariant journalUrls == old(journalUrls)
        invariant results == old(results)[url := Entries(hrefs[..j], idOf)]
      {
        assert hrefs[..j + 1][..j] == hrefs[..j];
        var h := hrefs[j];
        var kept := Entries(hrefs[..j], idOf);
        assert kept + [] == kept;
        assert Entries(hrefs[..j + 1], idOf) == kept
          + (if h.Some? && idOf(h.value).Some? && idOf(h.value).value != [] then [IdEntry(h.value, idOf(h.value).value)] else []);
        if h.Some? {
          var retrieved := idOf(h.value);
          if retrieved.Some? && retrieved.value != [] {
            results := results[url := results[url] + [IdEntry(h.value, retrieved.value)]];
            assert results == old(results)[url := kept + [IdEntry(h.value, retrieved.value)]];
          }
        }
        assert results == old(results)[url := Entries(hrefs[..j + 1], idOf)];
      }
      assert hrefs[..|hrefs|] == hrefs;
    }

    /** `process_journals`: every journal URL that is not skipped gets its list of entries. */
    method ProcessJournals(identifiersOf: string -> seq<Option<string>>, idOf: string -> Option<string>)
      modifies this
      ensures journalUrls == old(journalUrls)
      ensures results == Processed(old(results), journalUrls, identifiersOf, idOf)
    {
      var urls := journalUrls;
      for i := 0 to |urls|
        invariant journalUrls == urls
        invariant results == Processed(old(results), urls[..i], identifiersOf, idOf)
      {
        assert urls[..i + 1][..i] == urls[..i];
        var cell := urls[i];
        if !Skipped(cell) {
          ProcessJournal(cell.s, identifiersOf(cell.s), idOf);
        }
      }
      assert urls[..|urls|] == urls;
    }
  }
}
