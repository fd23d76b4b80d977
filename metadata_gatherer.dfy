/**
 * `CrossRefProcessor` (Scripts/cited_articles_metadata_gatherer.py): shapes each Crossref
 * `message` into a flat record, collects the references and one CSV row per successful fetch,
 * then reduces each work's references to their DOIs.
 *
 * The HTTP request is not modelled: each input DOI comes paired with what the request gave,
 * `None` for a `RequestException`, or the message (`EmptyMessage` when the body has none).
 */
module MetadataGatherer {
  import opened Wrappers
  import opened Strings
  import opened Crossref

  // ------------------------------------------------------ get_crossref_data

  /** The dictionary `get_crossref_data` returns on success. */
  datatype CrossrefRecord = CrossrefRecord(
    doi: string, title: string, publisher: string, issue: string,
    dateTime: string, authors: string, references: seq<Entity>)

  const NoTitle := "No Title Available"

  /** `f"{given} {family}"`, each part `""` when absent. */
  function AuthorName(a: Author): string {
    a.given.GetOr("") + " " + a.family.GetOr("")
  }

  function AuthorNames(authors: seq<Author>): (names: seq<string>)
    ensures |names| == |authors|
    ensures forall k :: 0 <= k < |authors| ==> names[k] == AuthorName(authors[k])
  {
    seq(|authors|, k requires 0 <= k < |authors| => AuthorName(authors[k]))
  }

  /** The shaping in `get_crossref_data`, given the message of a successful request. */
  function ShapeRecord(doi: string, m: Message): (r: CrossrefRecord)
    ensures r.doi == doi && r.references == m.reference.GetOr([])
  {
    CrossrefRecord(
      doi,
      if m.title.Some? && m.title.value != [] then m.title.value[0] else NoTitle,
      m.publisher.GetOr(""),
      m.issue.GetOr(""),
      if m.created.Some? then m.created.value.dateTime.GetOr("") else "",
      Join(AuthorNames(m.author.GetOr([])), "; "),
      m.reference.GetOr([]))
  }

  /** `get_crossref_data`: the record, or `None` for the `{}` a failed request yields. */
  function GetCrossrefData(doi: string, response: Option<Message>): (r: Option<CrossrefRecord>)
    ensures r.Some? <==> response.Some?
  {
    match response
    case Some(m) => Some(ShapeRecord(doi, m))
    case None => None
  }

  /** `crossref_data.get(key, "")` for the string-valued keys the record has. */
  function RecordGet(r: CrossrefRecord, key: string): (v: Option<string>)
    ensures v.Some? <==> key in {"doi", "title", "publisher", "issue", "date_time", "authors"}
  {
    if key == "doi" then Some(r.doi)
    else if key == "title" then Some(r.title)
    else if key == "publisher" then Some(r.publisher)
    else if key == "issue" then Some(r.issue)
    else if key == "date_time" then Some(r.dateTime)
    else if key == "authors" then Some(r.authors)
    else None
  }

  /** The title is the first listed title, and the fixed text only when there is none. */
  lemma TitleRule(doi: string, m: Message)
    ensures m.title.Some? && m.title.value != [] ==> ShapeRecord(doi, m).title == m.title.value[0]
    ensures m.title.None? || m.title.value == [] ==> ShapeRecord(doi, m).title == NoTitle
  {
  }

  /** A field the message lacks reads as `""` (`[]` for the references), whatever else the
      message holds. */
  lemma MissingFieldsEmpty(doi: string, m: Message)
    ensures m.publisher.None? ==> ShapeRecord(doi, m).publisher == ""
    ensures m.issue.None? ==> ShapeRecord(doi, m).issue == ""
    ensures m.created.None? || m.created.value.dateTime.None? ==> ShapeRecord(doi, m).dateTime == ""
    ensures m.author.None? ==> ShapeRecord(doi, m).authors == ""
    ensures m.reference.None? ==> ShapeRecord(doi, m).references == []
  {
  }

  /** `authors` is empty exactly when the message lists no author (an author with no name still
      gives `" "`). */
  lemma AuthorsEmpty(doi: string, m: Message)
    ensures ShapeRecord(doi, m).authors == [] <==> m.author.GetOr([]) == []
  {
    var names := AuthorNames(m.author.GetOr([]));
    JoinEmpty(names, "; ");
    if |names| == 1 {
      assert |names[0]| >= 1;
    }
  }

  /** With no `;` in any name, splitting `authors` on `;` gives back one piece per author. */
  lemma AuthorsSplit(doi: string, m: Message)
    requires m.author.Some? && m.author.value != []
    requires forall a :: a in m.author.value ==> ';' !in a.given.GetOr("") && ';' !in a.family.GetOr("")
    ensures |Split(ShapeRecord(doi, m).authors, ';')| == |m.author.value|
  {
    var names := AuthorNames(m.author.value);
    forall k | 0 <= k < |names| ensures ';' !in names[k] {
      assert m.author.value[k] in m.author.value;
    }
    JoinCount(names, "; ", ';');
    assert CountChar("; ", ';') == 1;
    SplitCount(ShapeRecord(doi, m).authors, ';');
  }

  /** The record never holds a `volume` key. */
  lemma NoVolume(r: CrossrefRecord)
    ensures RecordGet(r, "volume").None?
  {
  }

  // ------------------------------------------------------------ process_data

  /** One input DOI and what fetching it gave. */
  datatype Fetched = Fetched(doi: string, response: Option<Message>)

  /** `references_data[doi]`. */
  datatype ReferencesEntry = ReferencesEntry(doi: string, referencedEntities: seq<Entity>)

  /** One row of the output CSV, field by field in `fieldnames` order. */
  datatype CsvRow = CsvRow(
    primaryId: string, id: string, title: string, author: string, pubDate: string,
    venue: string, volume: string, issue: string, page: string, kind: string,
    publisher: string, editor: string)

  /** The row built from a successful fetch of `doi`. */
  function MakeCsvRow(doi: string, r: CrossrefRecord): (row: CsvRow)
    ensures row.primaryId == doi
    ensures row.id == r.doi && row.title == r.title && row.author == r.authors && row.pubDate == r.dateTime
    ensures row.issue == r.issue && row.publisher == r.publisher
    ensures row.volume == "" && row.venue == "" && row.page == "" && row.kind == "" && row.editor == ""
  {
    CsvRow(doi, RecordGet(r, "doi").GetOr(""), RecordGet(r, "title").GetOr(""),
      RecordGet(r, "authors").GetOr(""), RecordGet(r, "date_time").GetOr(""), "",
      RecordGet(r, "volume").GetOr(""), RecordGet(r, "issue").GetOr(""), "", "",
      RecordGet(r, "publisher").GetOr(""), "")
  }

  /** The CSV rows of a batch: one per successful fetch, in input order. */
  function CsvRows(batch: seq<Fetched>): seq<CsvRow>
    decreases |batch|
  {
    if batch == [] then []
    else
      var f := batch[|batch| - 1];
      CsvRows(batch[..|batch| - 1])
        + match GetCrossrefData(f.doi, f.response)
          case Some(r) => [MakeCsvRow(f.doi, r)]
          case None => []
  }

  /** `references_data` after a batch: each successful fetch overwrites its DOI's entry. */
  function ReferencesData(batch: seq<Fetched>): map<string, ReferencesEntry>
    decreases |batch|
  {
    if batch == [] then map[]
    else
      var f := batch[|batch| - 1];
      var before := ReferencesData(batch[..|batch| - 1]);
      match GetCrossrefData(f.doi, f.response)
      case Some(r) => before[f.doi := ReferencesEntry(f.doi, r.references)]
      case None => before
  }

  /** `process_data`: the loop over the input DOIs. */
  method ProcessData(batch: seq<Fetched>) returns (referencesData: map<string, ReferencesEntry>, csvRows: seq<CsvRow>)
    ensures referencesData == ReferencesData(batch)
    ensures csvRows == CsvRows(batch)
  {
    referencesData := map[];
    csvRows := [];
    var i := 0;
    while i < |batch|
      invariant i <= |batch|
      invariant referencesData == ReferencesData(batch[..i])
      invariant csvRows == CsvRows(batch[..i])
    {
      var primaryDoi := batch[i].doi;
      var crossrefData := GetCrossrefData(primaryDoi, batch[i].response);
      if crossrefData.Some? {
        referencesData := referencesData[primaryDoi := ReferencesEntry(primaryDoi, crossrefData.value.references)];
        csvRows := csvRows + [MakeCsvRow(primaryDoi, crossrefData.value)];
      }
      assert batch[..i + 1][..i] == batch[..i];
      i := i + 1;
    }
    assert batch[..i] == batch;
  }

  /** Number of successful fetches in a batch. */
  function Successes(batch: seq<Fetched>): nat
    decreases |batch|
  {
    if batch == [] then 0
    else Successes(batch[..|batch| - 1]) + (if batch[|batch| - 1].response.Some? then 1 else 0)
  }

  /** One row per successful fetch; a failed fetch leaves no trace. */
  lemma {:induction false} CsvRowsCount(batch: seq<Fetched>)
    ensures |CsvRows(batch)| == Successes(batch) <= |batch|
    decreases |batch|
  {
    if batch != [] {
      CsvRowsCount(batch[..|batch| - 1]);
    }
  }

  /** Every row repeats its input DOI as `primary_id` and `id`, and leaves `volume` empty. */
  lemma {:induction false} CsvRowsShape(batch: seq<Fetched>)
    ensures forall row :: row in CsvRows(batch) ==>
      && row.primaryId == row.id
      && row.venue == "" && row.volume == "" && row.page == "" && row.kind == "" && row.editor == ""
      && exists k :: 0 <= k < |batch| && batch[k].doi == row.primaryId && batch[k].response.Some?
    decreases |batch|
  {
    if batch != [] {
      var init := batch[..|batch| - 1];
      CsvRowsShape(init);
      assert forall k :: 0 <= k < |init| ==> init[k] == batch[k];
    }
  }

  /** A DOI has a `references_data` entry iff one of its fetches succeeded. */
  lemma {:induction false} FetchedKeys(batch: seq<Fetched>, doi: string)
    ensures doi in ReferencesData(batch) <==>
      exists k :: 0 <= k < |batch| && batch[k].doi == doi && batch[k].response.Some?
    decreases |batch|
  {
    if batch != [] {
      var init := batch[..|batch| - 1];
      FetchedKeys(init, doi);
      assert forall k :: 0 <= k < |init| ==> init[k] == batch[k];
    }
  }

  /** The entry of a DOI holds the references of its last successful fetch. */
  lemma {:induction false} LastFetchWins(batch: seq<Fetched>, doi: string)
    ensures doi in ReferencesData(batch) ==>
      exists k :: 0 <= k < |batch| && batch[k].doi == doi && batch[k].response.Some?
        && ReferencesData(batch)[doi] == ReferencesEntry(doi, batch[k].response.value.reference.GetOr([]))
        && forall k' :: k < k' < |batch| ==> !(batch[k'].doi == doi && batch[k'].response.Some?)
    decreases |batch|
  {
    if batch != [] && doi in ReferencesData(batch) {
      var init := batch[..|batch| - 1];
      var last := |batch| - 1;
      if batch[last].doi == doi && batch[last].response.Some? {
        assert ReferencesData(batch)[doi] == ReferencesEntry(doi, batch[last].response.value.reference.GetOr([]));
      } else {
        assert doi in ReferencesData(init) && ReferencesData(batch)[doi] == ReferencesData(init)[doi];
        LastFetchWins(init, doi);
        var k :| 0 <= k < |init| && init[k].doi == doi && init[k].response.Some?
          && ReferencesData(init)[doi] == ReferencesEntry(doi, init[k].response.value.reference.GetOr([]))
          && forall k' :: k < k' < |init| ==> !(init[k'].doi == doi && init[k'].response.Some?);
        assert batch[k] == init[k];
        assert forall k' :: k < k' < |init| ==> batch[k'] == init[k'];
      }
    }
  }

  // ------------------------------------------------- filter_referenced_dois

  /** `filtered_data[doi]`. */
  datatype FilteredEntry = FilteredEntry(doi: string, referencedDois: seq<string>)

  /** The `DOI` values of the entities that carry one, in order. */
  function DoisOf(entities: seq<Entity>): seq<string>
    decreases |entities|
  {
    if entities == [] then []
    else
      var e := entities[|entities| - 1];
      DoisOf(entities[..|entities| - 1]) + (if e.doi.Some? then [e.doi.value] else [])
  }

  /** The inner loop of `filter_referenced_dois`. */
  method CollectDois(entities: seq<Entity>) returns (dois: seq<string>)
    ensures dois == DoisOf(entities)
  {
    dois := [];
    var j := 0;
    while j < |entities|
      invariant j <= |entities|
      invariant dois == DoisOf(entities[..j])
    {
      if entities[j].doi.Some? {
        dois := dois + [entities[j].doi.value];
      }
      assert entities[..j + 1][..j] == entities[..j];
      j := j + 1;
    }
    assert entities[..j] == entities;
  }

  /** `filter_referenced_dois` on the saved `references_data`: every key gets an entry, even with
      no referenced DOI. */
  method FilterReferencedDois(data: map<string, ReferencesEntry>) returns (filtered: map<string, FilteredEntry>)
    ensures filtered.Keys == data.Keys
    ensures forall doi :: doi in data ==> filtered[doi] == FilteredEntry(doi, DoisOf(data[doi].referencedEntities))
  {
    filtered := map[];
    var todo := data.Keys;
    while todo != {}
      invariant todo <= data.Keys
      invariant filtered.Keys == data.Keys - todo
      invariant forall doi :: doi in filtered ==> filtered[doi] == FilteredEntry(doi, DoisOf(data[doi].referencedEntities))
      decreases todo
    {
      var doi :| doi in todo;
      var dois := CollectDois(data[doi].referencedEntities);
      filtered := filtered[doi := FilteredEntry(doi, dois)];
      todo := todo - {doi};
    }
  }

  /** A DOI is kept iff some entity carries it. */
  lemma {:induction false} DoisOfMembership(entities: seq<Entity>, x: string)
    ensures x in DoisOf(entities) <==> exists k :: 0 <= k < |entities| && entities[k].doi == Some(x)
    decreases |entities|
  {
    if entities != [] {
      var init := entities[..|entities| - 1];
      DoisOfMembership(init, x);
      assert forall k :: 0 <= k < |init| ==> init[k] == entities[k];
    }
  }

  /** One DOI per entity carrying one, so never more than there are entities. */
  lemma {:induction false} DoisOfCount(entities: seq<Entity>)
    ensures |DoisOf(entities)| <= |entities|
    ensures (forall k :: 0 <= k < |entities| ==> entities[k].doi.Some?) ==> |DoisOf(entities)| == |entities|
    decreases |entities|
  {
    if entities != [] {
      var init := entities[..|entities| - 1];
      DoisOfCount(init);
      assert forall k :: 0 <= k < |init| ==> init[k] == entities[k];
    }
  }

  /** The DOIs keep the order of the reference list. */
  lemma {:induction false} DoisOfAppend(a: seq<Entity>, b: seq<Entity>)
    ensures DoisOf(a + b) == DoisOf(a) + DoisOf(b)
    decreases |b|
  {
    if b == [] {
      assert a + b == a;
    } else {
      assert (a + b)[..|a + b| - 1] == a + b[..|b| - 1];
      assert (a + b)[|a + b| - 1] == b[|b| - 1];
      DoisOfAppend(a, b[..|b| - 1]);
    }
  }
}
