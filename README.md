# doi_corrector, modelled in Dafny

doi_corrector is a set of scripts that check and repair the DOIs of journal articles
indexed by OpenCitations. Each script is one step of the pipeline:

- `ReferenceProcessor` parses free-text references into a PMID and/or DOI, or a title.
- `citing_doi_matcher` pairs citing DOIs with the referenced DOIs that an id list knows.
- `cited_articles_metadata_gatherer` shapes Crossref metadata into CSV rows and reference
  lists, and extracts the referenced DOIs.
- `DOIValidator` compares OpenCitations Meta and Crossref records of a DOI.
- `citation_finder` queries the OpenCitations SPARQL endpoint for the entities citing and
  cited by each journal, and outer-merges the two tables on `journal`.
- `DOIFinder` follows the `/id/` links of journal pages and collects the list items
  mentioning a DOI.
- `DOIProcessor` resolves DOIs and takes the title, authors and references from the landing
  page or the PDF.
- `JournalIdentifierExtractor` collects the identifier links of each journal page.
- `DOIOpener` opens base URLs and resolver URLs in a browser for manual checking.

Each script is one Dafny module. Three modules are shared:

- `Wrappers` holds `Option`.
- `Strings` holds Python's string operations as the scripts use them. It models `strip`,
  `lower`, `split`, `join`, `replace`, `in` and `find`, and the regex classes `\s`, `\d`
  and `\w`.
- `Crossref` holds the Crossref `message` shape.

Everything outside the program is a parameter: the network, the HTML parser, the PDF text
extractor and the SPARQL endpoint. A fetch is a function returning `None` where the script
catches a failure. Code that updates objects in place is modelled as classes and methods:

- the web browser is a class whose `openedUrls` log grows with each `open`;
- `DOIValidator` and `JournalIdentifierExtractor` are classes whose methods update their
  fields.

Loops that build lists or dictionaries are methods. Each such method is proved equal to a
recursive specification function, and the properties are proved about those functions.

The two regular expressions of `ReferenceProcessor` are modelled by hand-written scanners:

- `\bPMID[:\s]?(\d+)\b`
- `(10\.\d{4,9}/[^\s:,\);]+)(?=PMID|$)`

Each scanner is proved to return what Python's `re.search` returns: the leftmost match.
For the DOI, the greedy `+` first takes the whole run of allowed characters and then gives
characters back until the lookahead holds, so the match ends at the last end where `PMID`
or `$` follows. `$` also matches before a final newline.

Under the greedy pattern, `10.1000/xyzPMID1` yields the whole string as the DOI: the run
`xyzPMID1` reaches the end of the text, where `$` holds. It yields no pmid, because `\b`
fails between `z` and `P` (`GluedPmidDoi`, `GluedPmidNoPmid`).

## Model

| member | source | states |
|---|---|---|
| ReferenceFormatter.ExtractReferenceInfo | Scripts/reference_formatter_for_crossref.py:28-53 | A title is reported iff there is neither a pmid nor a doi. A pmid is a non-empty run of digits. A doi starts with `10.`. |
| ReferenceFormatter.PmidIsLeftmostMatch | Scripts/reference_formatter_for_crossref.py:30-35 | The digits of the leftmost place where the PMID pattern matches are the pmid, and no title is reported. |
| ReferenceFormatter.NoPmidWithoutMatch | Scripts/reference_formatter_for_crossref.py:30-35 | Where the PMID pattern matches nowhere, there is no pmid. |
| ReferenceFormatter.PmidShape | Scripts/reference_formatter_for_crossref.py:30-35 | A reported pmid is a maximal digit run after a word-bounded `PMID` and at most one `:` or whitespace character, followed by a word boundary. |
| ReferenceFormatter.PmidMatchUnique | Scripts/reference_formatter_for_crossref.py:30 | At a given start, the PMID pattern can match in only one way: the separator is taken if present and the digits are maximal. |
| ReferenceFormatter.DoiIsLeftmostLongestMatch | Scripts/reference_formatter_for_crossref.py:31-39 | The leftmost DOI match, ending at the last end whose lookahead holds, is the reported doi, and no title is reported. |
| ReferenceFormatter.NoDoiWithoutMatch | Scripts/reference_formatter_for_crossref.py:31-39 | Where the DOI pattern matches nowhere, there is no doi. |
| ReferenceFormatter.DoiShape | Scripts/reference_formatter_for_crossref.py:31-39 | A reported doi is `10.`, then 4 to 9 digits, `/`, and a run free of whitespace, `:`, `,`, `)` and `;`. It is followed by `PMID`, the end of the text, or a final newline. |
| ReferenceFormatter.TitleAfterFirstParen | Scripts/reference_formatter_for_crossref.py:42-45 | Without pmid and doi, the title is the stripped text after the first `)`. |
| ReferenceFormatter.TitleWithoutParen | Scripts/reference_formatter_for_crossref.py:42-45 | Without pmid, doi and `)`, the title is the whole stripped reference. |
| ReferenceFormatter.BlankReference | Scripts/reference_formatter_for_crossref.py:42-53 | An empty or all-whitespace reference gives the empty title and no identifiers. |
| ReferenceFormatter.PmidToken | Scripts/reference_formatter_for_crossref.py:30-35 | A word-bounded `PMID`, one optional separator and a digit run closed by a non-word character give those digits, when no earlier `P` exists. |
| ReferenceFormatter.DoiPrefixForced | Scripts/reference_formatter_for_crossref.py:31 | Once `10.<digits>/` is fixed at a start, every DOI match there uses that `/` and ends no later than the first stop character. |
| ReferenceFormatter.NoDoiBefore | Scripts/reference_formatter_for_crossref.py:31 | No DOI match can start inside a prefix holding no `.`. |
| ReferenceFormatter.DoiAtEnd | Scripts/reference_formatter_for_crossref.py:31-39 | A DOI ending the reference, or ending just before a final newline, is reported whole. |
| ReferenceFormatter.DoiBeforePmid | Scripts/reference_formatter_for_crossref.py:31-39 | A DOI glued to `PMID` followed by a stop character is cut right before `PMID`. |
| ReferenceFormatter.DoiCutByStop | Scripts/reference_formatter_for_crossref.py:31-39 | A DOI followed by a stop character, with no `PMID` inside it, does not match at its start. |
| ReferenceFormatter.ExamplePmid | Scripts/reference_formatter_for_crossref.py:30-35 | `Smith J (2020) PMID:12345 10.1000/xyz123` gives pmid `12345`. |
| ReferenceFormatter.ExampleDoi | Scripts/reference_formatter_for_crossref.py:31-39 | The same reference gives doi `10.1000/xyz123`. |
| ReferenceFormatter.MidTextPmid | Scripts/reference_formatter_for_crossref.py:30-35 | `10.1000/abc PMID:7` gives pmid `7`. |
| ReferenceFormatter.MidTextDoi | Scripts/reference_formatter_for_crossref.py:31-39 | The same reference gives no doi, because the space after the DOI fails the lookahead. |
| ReferenceFormatter.GluedPmidDoi | Scripts/reference_formatter_for_crossref.py:31-39 | `10.1000/xyzPMID1` gives the whole string as doi. |
| ReferenceFormatter.GluedPmidNoPmid | Scripts/reference_formatter_for_crossref.py:30-35 | `10.1000/xyzPMID1` gives no pmid. |
| ReferenceFormatter.TwoSeparatorsNoPmid | Scripts/reference_formatter_for_crossref.py:30-35 | `PMID: 123` gives no pmid: only one separator may sit before the digits. |
| ReferenceFormatter.ParseReferences | Scripts/reference_formatter_for_crossref.py:66-69 | One parsed record per reference, in order, each the parse of its reference. |
| ReferenceFormatter.ProcessReferences | Scripts/reference_formatter_for_crossref.py:55-72 | Every entry keeps its key and its other fields. Its references are replaced by their parses; a missing list reads as empty. |
| CitingDoiMatcher.CleanId | Scripts/citing_doi_matcher.py:40 | Removing `doi:` never lengthens an id; where the occurrences go is stated by `CleanIdPrefix` and `CleanIdInner`. |
| CitingDoiMatcher.CleanIdInner | Scripts/citing_doi_matcher.py:40 | The removal is not anchored: the text before the first `doi:` is kept, that `doi:` goes, and the rest is cleaned the same way. |
| CitingDoiMatcher.CleanIdInnerExample | Scripts/citing_doi_matcher.py:40 | `10.1/doi:x` becomes `10.1/x`. |
| CitingDoiMatcher.CleanIdPrefix | Scripts/citing_doi_matcher.py:40 | A leading `doi:` is removed and the rest is cleaned the same way. |
| CitingDoiMatcher.CleanIdPlainDoi | Scripts/citing_doi_matcher.py:40 | An id without `doi:` is unchanged, and `doi:` in front of it is removed. |
| CitingDoiMatcher.CleanIdCaseSensitive | Scripts/citing_doi_matcher.py:40 | An upper-case `DOI:` prefix is kept. |
| CitingDoiMatcher.CleanIdSinglePass | Scripts/citing_doi_matcher.py:40 | `ddoi:oi:` becomes `doi:`: a `doi:` created by a removal stays. |
| CitingDoiMatcher.LoadCsv | Scripts/citing_doi_matcher.py:29-44 | The known set holds exactly the cleaned ids of the present cells. |
| CitingDoiMatcher.MatchDois | Scripts/citing_doi_matcher.py:57-77 | The nested loop yields the rows of the entries in order. |
| CitingDoiMatcher.EntryMatchesMembership | Scripts/citing_doi_matcher.py:71-75 | A row of one entry pairs that entry with a known DOI it references, and every such pair appears. |
| CitingDoiMatcher.MatchesMembership | Scripts/citing_doi_matcher.py:57-77 | `[e, r]` is an output row iff some entry `e` lists `r` and `r` is known. |
| CitingDoiMatcher.EntryMatchesCount | Scripts/citing_doi_matcher.py:71-75 | An entry gives at most one row per listed DOI, and exactly one each when all are known. |
| CitingDoiMatcher.MatchesCount | Scripts/citing_doi_matcher.py:57-77 | The whole output has at most one row per listed DOI, and exactly one each when all are known, so duplicates are kept. |
| CitingDoiMatcher.MatchesAppend | Scripts/citing_doi_matcher.py:71-75 | Rows come entry by entry, in input order. |
| CitingDoiMatcher.EntryMatchesAppend | Scripts/citing_doi_matcher.py:73-75 | Within one entry, rows follow the order of its references. |
| CitingDoiMatcher.DuplicateReference | Scripts/citing_doi_matcher.py:73-75 | A known DOI listed twice gives two identical rows. |
| CitingDoiMatcher.EntryWithoutReferences | Scripts/citing_doi_matcher.py:72 | An entry without `referenced_dois` adds no row. |
| CitingDoiMatcher.ExactComparison | Scripts/citing_doi_matcher.py:74 | A DOI differing from a known one only in letter case is not matched. |
| MetadataGatherer.AuthorNames | Scripts/cited_articles_metadata_gatherer.py:53 | One name per author, in order, each `given family`. |
| MetadataGatherer.ShapeRecord | Scripts/cited_articles_metadata_gatherer.py:49-64 | The record keeps the queried DOI and the message's reference list, or an empty list when it has none. |
| MetadataGatherer.GetCrossrefData | Scripts/cited_articles_metadata_gatherer.py:38-67 | A record exists iff the request succeeded. |
| MetadataGatherer.RecordGet | Scripts/cited_articles_metadata_gatherer.py:56-64 | Exactly the six string keys of the record are present. |
| MetadataGatherer.TitleRule | Scripts/cited_articles_metadata_gatherer.py:49 | The title is the first listed title, and the fixed text only when none is listed. |
| MetadataGatherer.MissingFieldsEmpty | Scripts/cited_articles_metadata_gatherer.py:50-54 | For any message, each missing field reads as its default: publisher, issue, creation date-time and authors as `""`, references as `[]`. |
| MetadataGatherer.AuthorsEmpty | Scripts/cited_articles_metadata_gatherer.py:53 | `authors` is empty exactly when no author is listed. |
| MetadataGatherer.AuthorsSplit | Scripts/cited_articles_metadata_gatherer.py:53 | With no `;` in any name, splitting `authors` on `;` gives one piece per author. |
| MetadataGatherer.NoVolume | Scripts/cited_articles_metadata_gatherer.py:56-98 | The record never holds `volume`, so the CSV `volume` is always empty. |
| MetadataGatherer.MakeCsvRow | Scripts/cited_articles_metadata_gatherer.py:91-105 | `primary_id` is the queried DOI. `id`, title, author, pub_date, issue and publisher are the record's values for its keys. `volume` is empty because the record has no such key, and venue, page, type and editor are empty. For a fetched record `id` equals `primary_id` (`CsvRowsShape`). |
| MetadataGatherer.ProcessData | Scripts/cited_articles_metadata_gatherer.py:69-121 | The loop's `references_data` and CSV rows are those of the batch specification. |
| MetadataGatherer.CsvRowsCount | Scripts/cited_articles_metadata_gatherer.py:79-105 | One CSV row per successful fetch; a failed fetch leaves no row. |
| MetadataGatherer.CsvRowsShape | Scripts/cited_articles_metadata_gatherer.py:91-105 | Every row repeats a successfully fetched input DOI and leaves `volume` empty. |
| MetadataGatherer.FetchedKeys | Scripts/cited_articles_metadata_gatherer.py:83-88 | A DOI has a `references_data` entry iff one of its fetches succeeded. |
| MetadataGatherer.LastFetchWins | Scripts/cited_articles_metadata_gatherer.py:83-88 | The entry of a DOI holds the references of a successful fetch of it that no later successful fetch of the same DOI follows. |
| MetadataGatherer.CollectDois | Scripts/cited_articles_metadata_gatherer.py:134-140 | The inner loop collects the DOIs of the referenced entities in order. |
| MetadataGatherer.FilterReferencedDois | Scripts/cited_articles_metadata_gatherer.py:123-146 | Every key keeps an entry, even one with no DOI, holding the DOIs of its entities. |
| MetadataGatherer.DoisOfMembership | Scripts/cited_articles_metadata_gatherer.py:136-138 | A DOI is kept iff some referenced entity carries it. |
| MetadataGatherer.DoisOfCount | Scripts/cited_articles_metadata_gatherer.py:136-138 | At most one DOI per entity, and exactly one each when every entity has one. |
| MetadataGatherer.DoisOfAppend | Scripts/cited_articles_metadata_gatherer.py:134-140 | The DOIs keep the order of the reference list. |
| DoiValidator.OpenCitationsFirst | Scripts/new_doi_validator.py:13-23 | A record exists iff the response is a non-empty list, and it is the first item. |
| DoiValidator.FullNames | Scripts/new_doi_validator.py:46 | One `given family` name per Crossref author, in order. |
| DoiValidator.ValidateDoi | Scripts/new_doi_validator.py:37-67 | The six compared strings are the lower-cased fields. The DOI is valid iff the titles match, or both the author and the publisher match. |
| DoiValidator.MatchesMeaning | Scripts/new_doi_validator.py:50-52 | Title and publisher match iff equal up to case. The author matches iff the OpenCitations author is empty or occurs in the lower-cased Crossref names. |
| DoiValidator.ComparedStringsLowered | Scripts/new_doi_validator.py:39-47 | Every compared string is already lower-case. |
| DoiValidator.CaseInsensitive | Scripts/new_doi_validator.py:39-52 | Changing the letter case of the OpenCitations fields changes no verdict. |
| DoiValidator.UntitledRecordsValid | Scripts/new_doi_validator.py:39-66 | Two untitled records match on title and are valid. |
| DoiValidator.PublisherSufficesWithoutAuthor | Scripts/new_doi_validator.py:40-66 | An empty OpenCitations author matches any author list, so a matching publisher makes the DOI valid. |
| DoiValidator.AuthorContained | Scripts/new_doi_validator.py:51 | The author check is containment: `Smith` is found in `John Smith`. |
| DoiValidator.ValidationsShape | Scripts/new_doi_validator.py:69-85 | One result per DOI, at its position. It is an error record exactly when a service gave nothing, and otherwise the comparison of the two records. |
| DoiValidator.DoiValidator.constructor | Scripts/new_doi_validator.py:7-11 | The validator holds the DOI list and no results. |
| DoiValidator.DoiValidator.ValidateDoiList | Scripts/new_doi_validator.py:69-85 | The results of the list are appended to `results`, in order, and the list is unchanged. |
| CitationFinder.QueryShape | Scripts/citation_finder.py:26-60 | The query opens by selecting `?citation` and the direction's entity variable (`?citing_entity` for the citing query, `?cited_entity` for the cited one). It links the citation to that variable through the free property, and to the URL in angle brackets through the bound property. |
| CitationFinder.OppositePositions | Scripts/citation_finder.py:31-60 | The citing query binds the journal as the cited entity and the cited query as the citing one. |
| CitationFinder.QueryInjective | Scripts/citation_finder.py:26-68 | Different URLs give different queries. |
| CitationFinder.QueriesDiffer | Scripts/citation_finder.py:26-68 | The citing and the cited query differ whatever the URLs. |
| CitationFinder.ValueOf | Scripts/citation_finder.py:80-103 | A missing variable or a missing `value` reads as `""`. |
| CitationFinder.RowsOf | Scripts/citation_finder.py:77-104 | One row per binding of a journal's answer, in order, each naming that journal. |
| CitationFinder.ExtractData | Scripts/citation_finder.py:70-108 | The loop's rows are the rows of the journals, journal by journal. |
| CitationFinder.ExtractJournal | Scripts/citation_finder.py:79-84 | One journal appends one row per binding of its answer, in binding order, and nothing when the query failed or found nothing. |
| CitationFinder.FlattenAppend | Scripts/citation_finder.py:70-108 | Rows come journal by journal, in input order. |
| CitationFinder.FlattenRows | Scripts/citation_finder.py:77-104 | A row is produced iff it comes from one binding of a queried journal. |
| CitationFinder.FlattenCount | Scripts/citation_finder.py:77-104 | One row per binding; a failed query adds none. |
| CitationFinder.Matching | Scripts/citation_finder.py:116 | The rows picked for a journal all have that journal. |
| CitationFinder.MatchingMembership | Scripts/citation_finder.py:116 | A row is picked for a journal iff it is in the table and has that journal. |
| CitationFinder.CombineMembership | Scripts/citation_finder.py:116 | The rows merged from one left row are its pairings with each same-journal right row, or the left row alone when there is none. |
| CitationFinder.Combine | Scripts/citation_finder.py:116 | Every merged row of a left row keeps its journal. |
| CitationFinder.Merge | Scripts/citation_finder.py:116 | The outer merge keeps every left row at least once. Its rows are stated by `MergeMembership` and `MergeOfJournal`, their number by `MergeCount`. |
| CitationFinder.LeftPartLength | Scripts/citation_finder.py:116 | Every left row gives at least one merged row. |
| CitationFinder.LeftPartMembership | Scripts/citation_finder.py:116 | A row comes from the left side iff it is merged from some left row. |
| CitationFinder.RightOnlyMembership | Scripts/citation_finder.py:116 | A right-only row is a right row alone whose journal no left row has. |
| CitationFinder.MergeMembership | Scripts/citation_finder.py:116 | A merged row is a same-journal pairing of a left and a right row, or a left row alone whose journal the right table lacks, or a right row alone whose journal the left table lacks. |
| CitationFinder.LeftPartOfJournal | Scripts/citation_finder.py:116 | The left-side rows of one journal are merged from that journal's left rows only. |
| CitationFinder.RightOnlyOfJournal | Scripts/citation_finder.py:116 | The right-only rows of one journal are that journal's right rows alone, and none when the left table has the journal. |
| CitationFinder.MergeOfJournal | Scripts/citation_finder.py:110-118 | Per journal, the merge is each left row of the journal paired in order with each right row of it (or alone), then each right row alone when the left table lacks the journal. |
| CitationFinder.MergeCount | Scripts/citation_finder.py:110-118 | A journal with `a` left rows and `b` right rows has `a*b` merged rows when both are non-zero, else `a+b`; which pairings they are is stated by `MergeOfJournal`. |
| CitationFinder.MergeCoversBoth | Scripts/citation_finder.py:116 | A journal appears in the merge iff it appears in either table. |
| CitationFinder.MergeSides | Scripts/citation_finder.py:116 | A merged row lacks a side exactly when that table has no row for its journal; a present side holds the columns of a row of that table with the same journal. |
| CitationFinder.OneRowEach | Scripts/citation_finder.py:116 | One row on each side gives exactly one merged row holding both. |
| DoiFinder.DoiToUrl | Scripts/DoiFinder.py:25-30 | The URL is the resolver prefix followed by the unchanged DOI. |
| DoiFinder.DoiToUrlInjective | Scripts/DoiFinder.py:25-30 | Different DOIs give different URLs. |
| DoiFinder.CleanHref | Scripts/DoiFinder.py:92 | A cleaned href holds no newline and is no longer than the raw one. |
| DoiFinder.IdChecker | Scripts/DoiFinder.py:83-95 | The loop keeps the cleaned hrefs of the `/id/` links, in order. |
| DoiFinder.NoHrefNotKept | Scripts/DoiFinder.py:90-91 | A link without `href` is never kept. |
| DoiFinder.KeptMembership | Scripts/DoiFinder.py:89-93 | A string is kept iff it is the cleaned href of a link whose href contains `/id/`. |
| DoiFinder.KeptShape | Scripts/DoiFinder.py:89-93 | At most one href per link, and none holds a newline. |
| DoiFinder.DoiItemsMembership | Scripts/DoiFinder.py:119 | An item is kept iff its raw text contains `10.`, and it is stored stripped. |
| DoiFinder.LiLinkAnalyser | Scripts/DoiFinder.py:97-126 | The loop extends the result page by page with the DOI items; a failed page adds nothing. |
| DoiFinder.FindDoiLinks | Scripts/DoiFinder.py:50-81 | An unreadable journal page gives nothing; otherwise the DOI items of its `/id/` links. |
| DoiFinder.HttpPrefix | Scripts/DoiFinder.py:141 | A seed that passes the check begins with `http`. |
| DoiFinder.EmptyCellInvalid | Scripts/DoiFinder.py:138-141 | An empty cell reads as the text `nan` and never passes the check. |
| DoiFinder.ProcessSeed | Scripts/DoiFinder.py:138-148 | One row: the seed is the stripped text of the cell, and its `journal_doi` cell is the joined links when the seed is valid and gave links, and empty otherwise. |
| DoiFinder.JournalDoiCell | Scripts/DoiFinder.py:137-148 | A `journal_doi` cell is written iff the seed is valid and DOIs were found. |
| DoiFinder.ProcessSeeds | Scripts/DoiFinder.py:137-150 | The `journal_doi` column holds the cell of each row, in row order, and the invalid seeds are reported in row order. |
| DoiFinder.InvalidSeedsMembership | Scripts/DoiFinder.py:141-150 | A seed is reported invalid iff it fails the test and some row holds it. |
| ReferenceFetcher.ExtractReferencesFromPdfText | Scripts/try_for_ref.py:100-108 | The result is the fixed message or a suffix of the text. `PdfReferencesFound`, `PdfReferencesMissing` and `PdfReferencesSuffix` state the rest. |
| ReferenceFetcher.PdfReferencesFound | Scripts/try_for_ref.py:100-108 | The result is the text from the first `references`, in any case, to the end. |
| ReferenceFetcher.PdfReferencesMissing | Scripts/try_for_ref.py:105-108 | Without `references` in any case, the result is the fixed message. |
| ReferenceFetcher.PdfReferencesSuffix | Scripts/try_for_ref.py:100-108 | A result other than the fixed message is a suffix of the text. |
| ReferenceFetcher.Classify | Scripts/try_for_ref.py:31-49 | The content is a PDF iff the header contains `application/pdf`, and HTML iff it has a header without it. A failed request or a missing header gives nothing. |
| ReferenceFetcher.PdfWithParameters | Scripts/try_for_ref.py:40-42 | `application/pdf; charset=binary` is taken as a PDF. |
| ReferenceFetcher.CleanReferencesMembership | Scripts/try_for_ref.py:74-83 | A string is a cleaned reference iff it is non-empty and the strip of some raw reference. |
| ReferenceFetcher.CleanReferenceStripped | Scripts/try_for_ref.py:74-83 | Every cleaned reference is already stripped. |
| ReferenceFetcher.CleanReferencesCount | Scripts/try_for_ref.py:74-83 | There are no more cleaned references than raw ones. |
| ReferenceFetcher.ExtractInfoFromHtml | Scripts/try_for_ref.py:51-83 | An HTML page always gives a reference list, and an empty one without a references section. |
| ReferenceFetcher.ProcessDoi | Scripts/try_for_ref.py:110-129 | The result holds a reference list exactly when the content is HTML. `ProcessDoiCases` states each branch. |
| ReferenceFetcher.ProcessDoiCases | Scripts/try_for_ref.py:110-129 | HTML gives a reference list. PDF gives fixed `N/A` fields and the references text, or the failure text. A failed fetch gives the `Unknown` record. |
| ReferenceFetcher.ProcessDois | Scripts/try_for_ref.py:131-160 | One record per DOI, in order, holding that DOI and its processing. |
| JournalIdentifiers.LoadJournalUrls | Scripts/pmid_issn_retriever.py:33-45 | A failed read gives no URLs. |
| JournalIdentifiers.EntriesMembership | Scripts/pmid_issn_retriever.py:121-128 | An entry is kept iff it pairs a present link with the non-empty id read from it. There are no more entries than links. |
| JournalIdentifiers.ProcessedKeys | Scripts/pmid_issn_retriever.py:106-128 | A key exists after processing iff it existed before or is a journal URL that was not skipped. |
| JournalIdentifiers.ProcessedValue | Scripts/pmid_issn_retriever.py:113-128 | A processed journal holds the entries of one processing: a repeated URL is reset, not accumulated. |
| JournalIdentifiers.ProcessedUnchanged | Scripts/pmid_issn_retriever.py:106-128 | Every other key keeps its previous list. |
| JournalIdentifiers.LoadFailureNoKeys | Scripts/pmid_issn_retriever.py:33-45 | An unreadable CSV yields no results. |
| JournalIdentifiers.JournalIdentifierExtractor.constructor | Scripts/pmid_issn_retriever.py:23-31 | No results yet, and the URLs loaded from the `journal` column. |
| JournalIdentifiers.JournalIdentifierExtractor.ProcessJournal | Scripts/pmid_issn_retriever.py:118-128 | The journal's list is reset, then holds its entries; other keys are unchanged. |
| JournalIdentifiers.JournalIdentifierExtractor.ProcessJournals | Scripts/pmid_issn_retriever.py:106-128 | `results` becomes the processing of every journal URL, and the URL list is unchanged. |
| DoiOpener.Browser.Open | Scripts/doi_opener.py:29-34 | Opening appends the URL to the browser's log. |
| DoiOpener.Clean | Scripts/doi_opener.py:23-26 | A cleaned field neither starts nor ends with `"`. |
| DoiOpener.DoiUrlShape | Scripts/doi_opener.py:32-34 | A DOI URL is the resolver prefix followed by the stripped piece, so surrounding whitespace does not change it. |
| DoiOpener.PieceUrls | Scripts/doi_opener.py:32-34 | One resolver URL per piece, in order. |
| DoiOpener.DoiOpener.constructor | Scripts/doi_opener.py:14-15 | The opener holds the batch. |
| DoiOpener.DoiOpener.ProcessAndOpenUrls | Scripts/doi_opener.py:17-34 | The browser receives the URLs of every entry, in batch order, after what it had opened before. |
| DoiOpener.OpenEntry | Scripts/doi_opener.py:29-34 | One entry appends to the browser log its cleaned base URL, then the resolver URL of every comma-separated piece of its cleaned DOI field. |
| DoiOpener.OpenPieces | Scripts/doi_opener.py:32-34 | One resolver URL per piece is opened, in order. |
| DoiOpener.EntryUrlsCount | Scripts/doi_opener.py:23-34 | An entry opens its base URL first, and one DOI URL per comma plus one. |
| DoiOpener.EmptyFieldOpensResolver | Scripts/doi_opener.py:26-34 | An entry whose DOI field cleans to nothing opens exactly two URLs: its cleaned base URL and the bare resolver URL. |
| DoiOpener.QuotedKeepsInner | Scripts/doi_opener.py:23-26 | A quoted field loses its quotes and keeps what is inside. |
| DoiOpener.OpenedUrlsAppend | Scripts/doi_opener.py:17-34 | Opening two batches one after the other opens the URLs of their concatenation. |
| DoiOpener.OpenedUrlsCount | Scripts/doi_opener.py:17-34 | Every entry opens at least two URLs. |
| Strings.SplitCount | Scripts/doi_opener.py:26 | `split(',')` gives one piece more than there are commas. |
| Strings.SplitJoin | Scripts/doi_opener.py:26 | Joining the pieces of a split with the separator gives back the string. |
| Strings.StripIdempotent | Scripts/DoiFinder.py:138 | Stripping twice is stripping once. |

## Left out

- The network is not modelled. Each request, its status check and its exceptions are a
  function returning `None` where the script catches the failure.
- HTML scraping with BeautifulSoup is not modelled. A page arrives as the elements the
  script selects, each text already `get_text(strip=True)`.
- PDF text extraction is not modelled. It is a function from the bytes to the text, `None`
  when it raised.
- File, CSV and JSON reading and writing are not modelled. The same goes for `print`,
  `tqdm`, `time.sleep`, logging and the module-level script code that wires the steps
  together.
- `Scripts/metadata_researcher.py` is not part of this model. It is a scraping wrapper with
  no logic beyond the fetch.
- `access_doi_url` in `DoiFinder.py` is not modelled. It only fetches a page, and nothing in
  the main loop uses its result.
- `open_dois` in `new_doi_validator.py` is not modelled, because it only opens browser tabs.
- `\d`, `\w` and `lower()` are modelled for ASCII only. Python also accepts other Unicode
  digits and letters there.
- `ReferenceFormatter.ProcessReferences` builds a new dictionary rather than overwriting
  `entry["references"]` in place. Aliasing of the loaded JSON object is not captured.
- `CitationFinder.Merge` models the keys of pandas' outer merge. The order in which pandas
  sorts the merged rows, column suffixes, and NaN keys are left out.
- CitationFinder.Merge: a side that found no rows at all is merged as an empty table, so the
  other side's rows come through alone. The script instead writes that side as a CSV file
  with no header. `pd.read_csv` then raises on it, and no merged file is written.
- CitationFinder.MergeCount: states only how many merged rows a journal gets. Which pairings
  they are, and in which order, is stated by `MergeOfJournal` and `MergeMembership`.
- `DoiFinder.LiLinkAnalyser` does not model the `complete_resource` list being shared
  between calls.
- In `DoiFinder.ProcessSeeds`, an empty cell is taken as the text `nan` that `str()` gives
  for NaN. A completely empty CSV, which pandas rejects, is not modelled.
- MetadataGatherer.ProcessData and MetadataGatherer.FilterReferencedDois: the dictionaries
  `references_data` and `filtered_data` are Dafny maps, so their insertion order is not
  modelled. The script writes the JSON in that order, and it is the file order in which
  `CitingDoiMatcher` reads the entries.
- JSON `null` values are not modelled. An absent key and a present key are the two cases.
- DoiValidator.ValidateDoi: requires every Crossref author to have `given` and `family`.
  The script raises `KeyError` otherwise, and that crash is not modelled.
- DoiValidator.DoiValidator.ValidateDoiList: requires the same of every DOI with two records.
  The `KeyError` that stops the loop is not modelled.
- No DOI canonicalisation, de-duplication or store update is modelled, because the scripts
  do none.
