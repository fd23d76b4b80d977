/**
 * `DOIValidator` (Scripts/new_doi_validator.py): cross-checks the OpenCitations Meta record of
 * each DOI against its Crossref record.
 *
 * The two HTTP requests are not modelled: the validator is handed one function per service,
 * giving for a DOI the decoded response (`None` when the request or the decoding failed, and,
 * for Crossref, when the body has no `message`).
 */
module DoiValidator {
  import opened Wrappers
  import opened Strings
  import opened Crossref

  /** An item of the OpenCitations Meta response, with the keys the validator reads. */
  datatype OcRecord = OcRecord(title: Option<string>, author: Option<string>, publisher: Option<string>, otherKeys: set<string>)
  {
    /** The item is `{}`, which Python treats as false. */
    predicate IsEmpty() {
      title.None? && author.None? && publisher.None? && otherKeys == {}
    }
  }

  /** `get_opencitations_metadata`: the first item of a non-empty response, else `None`. */
  function OpenCitationsFirst(response: Option<seq<OcRecord>>): (r: Option<OcRecord>)
    ensures r.Some? <==> response.Some? && response.value != []
    ensures r.Some? ==> r.value == response.value[0]
  {
    if response.Some? && response.value != [] then Some(response.value[0]) else None
  }

  /** One element of `self.results`. */
  datatype Validation =
    | Validation(
        doi: string,
        ocTitle: string, crTitle: string, titleMatch: bool,
        ocAuthor: string, crAuthor: string, authorMatch: bool,
        ocPublisher: string, crPublisher: string, publisherMatch: bool,
        valid: bool)
    | Failed(doi: string, error: string)

  const RetrievalError := "Data retrieval failed for one or both APIs"

  /** Every Crossref author has both `given` and `family`; `validate_doi` raises `KeyError`
      otherwise. */
  predicate AuthorsComplete(m: Message) {
    forall a :: a in m.author.GetOr([]) ==> a.given.Some? && a.family.Some?
  }

  /** The first Crossref title, or `""` when the list is absent or empty. */
  function CrossrefTitle(m: Message): string {
    if m.title.Some? && m.title.value != [] then m.title.value[0] else ""
  }

  /** `author["given"] + " " + author["family"]` for every author, in order. */
  function FullNames(authors: seq<Author>): (names: seq<string>)
    requires forall a :: a in authors ==> a.given.Some? && a.family.Some?
    ensures |names| == |authors|
    ensures forall k :: 0 <= k < |authors| ==> names[k] == authors[k].given.value + " " + authors[k].family.value
  {
    seq(|authors|, k requires 0 <= k < |authors| => authors[k].given.value + " " + authors[k].family.value)
  }

  /** `validate_doi`: the six compared strings, lower-cased, and the verdict. */
  function ValidateDoi(doi: string, oc: OcRecord, cr: Message): (r: Validation)
    requires AuthorsComplete(cr)
    ensures r.Validation? && r.doi == doi
    ensures r.ocTitle == Lower(oc.title.GetOr("")) && r.crTitle == Lower(CrossrefTitle(cr))
    ensures r.ocAuthor == Lower(oc.author.GetOr("")) && r.crAuthor == Lower(Join(FullNames(cr.author.GetOr([])), ", "))
    ensures r.ocPublisher == Lower(oc.publisher.GetOr("")) && r.crPublisher == Lower(cr.publisher.GetOr(""))
    ensures r.valid <==> r.titleMatch || (r.authorMatch && r.publisherMatch)
  {
    var ocTitle := Lower(oc.title.GetOr(""));
    var ocAuthor := Lower(oc.author.GetOr(""));
    var ocPublisher := Lower(oc.publisher.GetOr(""));
    var crTitle := Lower(CrossrefTitle(cr));
    var crAuthor := Lower(Join(FullNames(cr.author.GetOr([])), ", "));
    var crPublisher := Lower(cr.publisher.GetOr(""));
    var titleMatch := ocTitle == crTitle;
    var authorMatch := if ocAuthor != [] then Contains(crAuthor, ocAuthor) else true;
    var publisherMatch := ocPublisher == crPublisher;
    Validation(doi, ocTitle, crTitle, titleMatch, ocAuthor, crAuthor, authorMatch,
      ocPublisher, crPublisher, publisherMatch, titleMatch || (authorMatch && publisherMatch))
  }

  /** The title and publisher checks are equality up to letter case; the author check is
      case-insensitive containment, vacuous for an empty OpenCitations author. */
  lemma MatchesMeaning(doi: string, oc: OcRecord, cr: Message)
    requires AuthorsComplete(cr)
    ensures var r := ValidateDoi(doi, oc, cr);
      && (r.titleMatch <==> Lower(oc.title.GetOr("")) == Lower(CrossrefTitle(cr)))
      && (r.publisherMatch <==> Lower(oc.publisher.GetOr("")) == Lower(cr.publisher.GetOr("")))
      && (r.authorMatch <==> oc.author.GetOr("") == [] || Contains(r.crAuthor, Lower(oc.author.GetOr(""))))
  {
  }

  /** Every compared string is already lower-case. */
  lemma ComparedStringsLowered(doi: string, oc: OcRecord, cr: Message)
    requires AuthorsComplete(cr)
    ensures var r := ValidateDoi(doi, oc, cr);
      && Lower(r.ocTitle) == r.ocTitle && Lower(r.crTitle) == r.crTitle
      && Lower(r.ocAuthor) == r.ocAuthor && Lower(r.crAuthor) == r.crAuthor
      && Lower(r.ocPublisher) == r.ocPublisher && Lower(r.crPublisher) == r.crPublisher
  {
    LowerIdempotent(oc.title.GetOr(""));
    LowerIdempotent(oc.author.GetOr(""));
    LowerIdempotent(oc.publisher.GetOr(""));
    LowerIdempotent(CrossrefTitle(cr));
    LowerIdempotent(Join(FullNames(cr.author.GetOr([])), ", "));
    LowerIdempotent(cr.publisher.GetOr(""));
  }

  /** Changing the letter case of the OpenCitations fields does not change any verdict. */
  lemma CaseInsensitive(doi: string, oc: OcRecord, oc': OcRecord, cr: Message)
    requires AuthorsComplete(cr)
    requires Lower(oc.title.GetOr("")) == Lower(oc'.title.GetOr(""))
    requires Lower(oc.author.GetOr("")) == Lower(oc'.author.GetOr(""))
    requires Lower(oc.publisher.GetOr("")) == Lower(oc'.publisher.GetOr(""))
    ensures ValidateDoi(doi, oc, cr) == ValidateDoi(doi, oc', cr)
  {
  }

  /** Two records that both lack a title match on title, and so are valid. */
  lemma UntitledRecordsValid(doi: string, oc: OcRecord, cr: Message)
    requires AuthorsComplete(cr)
    requires oc.title.None? && (cr.title.None? || cr.title.value == [])
    ensures ValidateDoi(doi, oc, cr).titleMatch && ValidateDoi(doi, oc, cr).valid
  {
  }

  /** Without an OpenCitations author, a matching publisher alone makes the record valid. */
  lemma PublisherSufficesWithoutAuthor(doi: string, oc: OcRecord, cr: Message)
    requires AuthorsComplete(cr)
    requires oc.author.None? || oc.author.value == []
    requires Lower(oc.publisher.GetOr("")) == Lower(cr.publisher.GetOr(""))
    ensures ValidateDoi(doi, oc, cr).valid
  {
  }

  /** The author check is containment: `smith` is found in `John Smith`. */
  lemma AuthorContained(doi: string, oc: OcRecord, cr: Message)
    requires oc.author == Some("Smith")
    requires cr.author == Some([Author(Some("John"), Some("Smith"))])
    ensures ValidateDoi(doi, oc, cr).authorMatch
  {
    var r := ValidateDoi(doi, oc, cr);
    assert "John" + " " + "Smith" == "John Smith";
    assert FullNames(cr.author.value) == ["John Smith"];
    assert r.crAuthor == Lower("John Smith");
    assert r.ocAuthor == Lower("Smith");
    assert r.crAuthor[5..10] == r.ocAuthor;
    ContainsAt(r.crAuthor, r.ocAuthor, 5);
  }

  // ------------------------------------------------------ validate_doi_list

  /** Both services answered with a non-empty record: the condition for comparing. */
  predicate Retrieved(oc: Option<OcRecord>, cr: Option<Message>) {
    oc.Some? && !oc.value.IsEmpty() && cr.Some? && !cr.value.IsEmpty()
  }

  /** `validate_doi_list` would not raise on any of `dois`. */
  predicate Comparable(dois: seq<string>, ocSource: string -> Option<seq<OcRecord>>, crSource: string -> Option<Message>) {
    forall k :: 0 <= k < |dois| && Retrieved(OpenCitationsFirst(ocSource(dois[k])), crSource(dois[k])) ==>
      AuthorsComplete(crSource(dois[k]).value)
  }

  /** The result recorded for one DOI. */
  function ValidateOne(doi: string, ocSource: string -> Option<seq<OcRecord>>, crSource: string -> Option<Message>): Validation
    requires Retrieved(OpenCitationsFirst(ocSource(doi)), crSource(doi)) ==> AuthorsComplete(crSource(doi).value)
  {
    var oc := OpenCitationsFirst(ocSource(doi));
    var cr := crSource(doi);
    if Retrieved(oc, cr) then ValidateDoi(doi, oc.value, cr.value) else Failed(doi, RetrievalError)
  }

  /** The results of a list of DOIs, in order. */
  function Validations(dois: seq<string>, ocSource: string -> Option<seq<OcRecord>>, crSource: string -> Option<Message>): seq<Validation>
    requires Comparable(dois, ocSource, crSource)
    decreases |dois|
  {
    if dois == [] then []
    else
      var init := dois[..|dois| - 1];
      assert forall k :: 0 <= k < |init| ==> init[k] == dois[k];
      Validations(init, ocSource, crSource) + [ValidateOne(dois[|dois| - 1], ocSource, crSource)]
  }

  /** One result per DOI, at the DOI's position: an error record exactly when a service gave
      nothing usable, and otherwise the comparison of the two records. */
  lemma {:induction false} ValidationsShape(dois: seq<string>, ocSource: string -> Option<seq<OcRecord>>, crSource: string -> Option<Message>)
    requires Comparable(dois, ocSource, crSource)
    ensures |Validations(dois, ocSource, crSource)| == |dois|
    ensures forall k :: 0 <= k < |dois| ==>
      var v := Validations(dois, ocSource, crSource)[k];
      && v.doi == dois[k]
      && (v.Failed? <==> !Retrieved(OpenCitationsFirst(ocSource(dois[k])), crSource(dois[k])))
      && (v.Failed? ==> v.error == RetrievalError)
      && (!v.Failed? ==> v == ValidateDoi(dois[k], OpenCitationsFirst(ocSource(dois[k])).value, crSource(dois[k]).value))
    decreases |dois|
  {
    if dois != [] {
      var init := dois[..|dois| - 1];
      assert forall k :: 0 <= k < |init| ==> init[k] == dois[k];
      ValidationsShape(init, ocSource, crSource);
    }
  }

  class DoiValidator {
    var doiList: seq<string>
    var results: seq<Validation>

    constructor (doiList: seq<string>)
      ensures this.doiList == doiList && results == []
    {
      this.doiList := doiList;
      results := [];
    }

    /** `validate_doi_list`: one result per DOI of the list appended to `results`, which is never
        cleared. */
    method ValidateDoiList(ocSource: string -> Option<seq<OcRecord>>, crSource: string -> Option<Message>)
      requires Comparable(doiList, ocSource, crSource)
      modifies this
      ensures doiList == old(doiList)
      ensures results == old(results) + Validations(doiList, ocSource, crSource)
    {
      var dois := doiList;
      var i := 0;
      while i < |dois|
        invariant doiList == dois && i <= |dois|
        invariant Comparable(dois[..i], ocSource, crSource)
        invariant results == old(results) + Validations(dois[..i], ocSource, crSource)
      {
        var doi := dois[i];
        var oc := OpenCitationsFirst(ocSource(doi));
        var cr := crSource(doi);
        if Retrieved(oc, cr) {
          results := results + [ValidateDoi(doi, oc.value, cr.value)];
        } else {
          results := results + [Failed(doi, RetrievalError)];
        }
        assert dois[..i + 1][..i] == dois[..i];
        i := i + 1;
      }
      assert dois[..i] == dois;
    }
  }
}
