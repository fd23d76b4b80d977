/**
 * `DOIProcessor` (Scripts/try_for_ref.py): resolves each DOI, and from the landing page takes
 * title, authors, bold text and references (HTML), or the reference section of the text (PDF).
 *
 * Not modelled: the request (a function from URL to response, `None` when it raised or the
 * status was an error), the HTML parser (the page arrives as the elements the scraper picks)
 * and the PDF text extraction (a function from the bytes to the text, `None` when it raised).
 */
module ReferenceFetcher {
  import opened Wrappers
  import opened Strings
  import opened Sequences

  // ------------------------------------------------ extract_references_from_pdf_text

  const NoReferences := "No references found in PDF"

  /** `extract_references_from_pdf_text`: the text from the first `references`, in any letter
      case, to the end; the fixed message when there is none. */
  function ExtractReferencesFromPdfText(text: string): (r: string)
    ensures r == NoReferences || (|r| <= |text| && r == text[|text| - |r|..])
  {
    match Find(Lower(text), "references")
    case Some(i) => text[i..]
    case None => NoReferences
  }

  /** Lower-casing commutes with slicing, since it keeps every index. */
  lemma LowerSlice(s: string, i: nat, j: nat)
    requires i <= j <= |s|
    ensures Lower(s)[i..j] == Lower(s[i..j])
  {
  }

  /** When `references` occurs, in any letter case, the result is the suffix of the text that
      starts at its first occurrence; its first ten characters lower-case to `references`. */
  lemma PdfReferencesFound(text: string, i: nat)
    requires OccursAt(Lower(text), "references", i)
    requires forall k: nat :: k < i ==> !OccursAt(Lower(text), "references", k)
    ensures ExtractReferencesFromPdfText(text) == text[i..]
    ensures Lower(ExtractReferencesFromPdfText(text)[..10]) == "references"
  {
    var f := Find(Lower(text), "references");
    assert f.Some?;
    assert f.value == i;
    LowerSlice(text, i, i + 10);
    assert text[i..][..10] == text[i..i + 10];
  }

  /** Without `references` in any letter case, the result is the fixed message. */
  lemma PdfReferencesMissing(text: string)
    requires forall k: nat :: !OccursAt(Lower(text), "references", k)
    ensures ExtractReferencesFromPdfText(text) == NoReferences
  {
  }

  /** A result other than the fixed message is a suffix of the text. */
  lemma PdfReferencesSuffix(text: string)
    ensures ExtractReferencesFromPdfText(text) == NoReferences
      || exists i :: 0 <= i <= |text| && ExtractReferencesFromPdfText(text) == text[i..]
  {
    var f := Find(Lower(text), "references");
    if f.Some? {
      assert ExtractReferencesFromPdfText(text) == text[f.value..];
    }
  }

  // ------------------------------------------------------ get_content_from_doi

  /** A successful response: its `Content-Type` header, if any, its bytes and its text. */
  datatype Response = Response(contentType: Option<string>, content: seq<bv8>, text: string)

  /** What `get_content_from_doi` returns: `('pdf', bytes)`, `('html', text)` or `(None, None)`. */
  datatype Content = Pdf(bytes: seq<bv8>) | Html(text: string) | NoContent

  /** The content-type test; a missing header raises `TypeError`, caught as `(None, None)`. */
  function Classify(response: Option<Response>): (c: Content)
    ensures c.Pdf? <==> (response.Some? && response.value.contentType.Some?
      && Contains(response.value.contentType.value, "application/pdf"))
    ensures c.Html? <==> (response.Some? && response.value.contentType.Some?
      && !Contains(response.value.contentType.value, "application/pdf"))
    ensures c.Pdf? ==> c.bytes == response.value.content
    ensures c.Html? ==> c.text == response.value.text
  {
    match response
    case None => NoContent
    case Some(r) =>
      match r.contentType
      case None => NoContent
      case Some(ct) => if Contains(ct, "application/pdf") then Pdf(r.content) else Html(r.text)
  }

  /** `application/pdf` anywhere in the header makes it a PDF, parameters and all. */
  lemma PdfWithParameters(ct: string, content: seq<bv8>, text: string)
    requires ct == "application/pdf; charset=binary"
    ensures Classify(Some(Response(Some(ct), content, text))) == Pdf(content)
  {
    assert ct[0..15] == "application/pdf";
    ContainsAt(ct, "application/pdf", 0);
  }

  // --------------------------------------------------- extract_info_from_html

  /** The parts of a page the scraper selects: the `h1.page_title` text, each `li` with its
      `span.name` and `span.affiliation` texts, the `b` texts, and the `p` texts of the
      references section when there is one (every text already `get_text(strip=True)`). */
  datatype Page = Page(
    title: Option<string>,
    authors: seq<(Option<string>, Option<string>)>,
    boldTexts: seq<string>,
    referenceParagraphs: Option<seq<string>>)

  /** The fourth value of `process_doi`: the PDF reference text, or the HTML reference list. */
  datatype RefText = Text(text: string) | List(items: seq<string>)

  /** The four values `process_doi` returns. */
  datatype Info = Info(title: string, authors: string, boldText: string, refText: RefText)

  /** `f"{name} ({affiliation})"` with the fallbacks of the scraper. */
  function AuthorEntry(a: (Option<string>, Option<string>)): string {
    a.0.GetOr("No name") + " (" + a.1.GetOr("No affiliation") + ")"
  }

  /** Each paragraph split on newlines, all pieces in order. */
  function SplitParagraphs(paragraphs: seq<string>): seq<string>
    decreases |paragraphs|
  {
    if paragraphs == [] then []
    else SplitParagraphs(paragraphs[..|paragraphs| - 1]) + Split(paragraphs[|paragraphs| - 1], '\n')
  }

  /** The filter of the comprehension at line 83. */
  predicate IsNonBlank(r: string) {
    Strip(r) != []
  }

  /** The comprehension at line 83: the stripped references, empty ones dropped. */
  function CleanReferences(refs: seq<string>): seq<string> {
    Filtered(IsNonBlank, Strip, refs)
  }

  /** A string is a cleaned reference iff it is non-empty and the strip of some raw reference. */
  lemma CleanReferencesMembership(refs: seq<string>, x: string)
    ensures x in CleanReferences(refs) <==> x != [] && exists k :: 0 <= k < |refs| && Strip(refs[k]) == x
  {
    FilteredMembership(IsNonBlank, Strip, refs, x);
  }

  /** Every cleaned reference is already stripped. */
  lemma CleanReferenceStripped(refs: seq<string>, x: string)
    requires x in CleanReferences(refs)
    ensures Strip(x) == x
  {
    CleanReferencesMembership(refs, x);
    var k :| 0 <= k < |refs| && Strip(refs[k]) == x;
    StripIdempotent(refs[k]);
  }

  /** Cleaning never adds references. */
  lemma CleanReferencesCount(refs: seq<string>)
    ensures |CleanReferences(refs)| <= |refs|
  {
    FilteredCount(IsNonBlank, Strip, refs);
  }

  /** `extract_info_from_html` once the page is parsed. */
  function ExtractInfoFromHtml(page: Page): (info: Info)
    ensures info.refText.List?
    ensures page.referenceParagraphs.None? ==> info.refText.items == []
  {
    Info(
      page.title.GetOr("No title found"),
      Join(seq(|page.authors|, k requires 0 <= k < |page.authors| => AuthorEntry(page.authors[k])), ", "),
      Join(page.boldTexts, ", "),
      List(CleanReferences(SplitParagraphs(page.referenceParagraphs.GetOr([])))))
  }

  // ------------------------------------------------------------ process_doi

  const PdfDocument := Info("PDF Document", "N/A", "N/A", Text("Failed to extract text"))

  /** `process_doi`: dispatch on the kind of content behind `https://doi.org/<doi>`. */
  function ProcessDoi(doi: string, fetch: string -> Option<Response>, pdfText: seq<bv8> -> Option<string>, parse: string -> Page): (info: Info)
    ensures info.refText.List? <==> Classify(fetch("https://doi.org/" + doi)).Html?
  {
    match Classify(fetch("https://doi.org/" + doi))
    case Html(text) => ExtractInfoFromHtml(parse(text))
    case Pdf(bytes) =>
      var t := pdfText(bytes);
      if t.Some? && t.value != [] then Info("PDF Document", "N/A", "N/A", Text(ExtractReferencesFromPdfText(t.value)))
      else PdfDocument
    case NoContent => Info("Unknown", "N/A", "N/A", Text("Failed to retrieve content"))
  }

  /** The three outcomes of `process_doi`: HTML gives a reference list, PDF and failure give
      fixed `N/A` fields and a text. */
  lemma ProcessDoiCases(doi: string, fetch: string -> Option<Response>, pdfText: seq<bv8> -> Option<string>, parse: string -> Page)
    ensures var info := ProcessDoi(doi, fetch, pdfText, parse);
      var c := Classify(fetch("https://doi.org/" + doi));
      && (info.refText.List? <==> c.Html?)
      && (c.Pdf? ==> info.title == "PDF Document" && info.authors == "N/A" && info.boldText == "N/A")
      && (c.Pdf? && (pdfText(c.bytes).None? || pdfText(c.bytes).value == []) ==>
            info.refText == Text("Failed to extract text"))
      && (c.Pdf? && pdfText(c.bytes).Some? && pdfText(c.bytes).value != [] ==>
            info.refText == Text(ExtractReferencesFromPdfText(pdfText(c.bytes).value)))
      && (c.NoContent? <==> info == Info("Unknown", "N/A", "N/A", Text("Failed to retrieve content")))
  {
  }

  // ------------------------------------------- process_dois_and_save_to_json

  /** One element of `all_metadata`. */
  datatype Metadata = Metadata(doi: string, info: Info)

  /** The record of one DOI, as a function of the DOI. */
  function MetadataOf(fetch: string -> Option<Response>, pdfText: seq<bv8> -> Option<string>, parse: string -> Page): string -> Metadata {
    doi => Metadata(doi, ProcessDoi(doi, fetch, pdfText, parse))
  }

  /** `process_dois_and_save_to_json`: one record per DOI, in order. */
  method ProcessDois(dois: seq<string>, fetch: string -> Option<Response>, pdfText: seq<bv8> -> Option<string>, parse: string -> Page)
    returns (allMetadata: seq<Metadata>)
    ensures |allMetadata| == |dois|
    ensures forall k :: 0 <= k < |dois| ==>
      allMetadata[k] == Metadata(dois[k], ProcessDoi(dois[k], fetch, pdfText, parse))
  {
    var record := MetadataOf(fetch, pdfText, parse);
    allMetadata := [];
    for i := 0 to |dois|
      invariant allMetadata == Map(record, dois[..i])
    {
      MapPrefix(record, dois, i);
      var info := ProcessDoi(dois[i], fetch, pdfText, parse);
      allMetadata := allMetadata + [Metadata(dois[i], info)];
    }
    assert dois[..|dois|] == dois;
  }
}
