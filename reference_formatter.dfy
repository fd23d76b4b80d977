/**
 * `ReferenceProcessor` (Scripts/reference_formatter_for_crossref.py): turns each free-text
 * citation into `{pmid, doi}` or, failing both, `{title}`.
 *
 * The two regular expressions are modelled by hand-written scanners that follow the
 * backtracking regex engine, and each scanner is proved against a declarative statement
 * of what the pattern can match (`PmidMatch`, `DoiMatch`) plus the search order of
 * `re.search` (leftmost start; at one start, the first path the engine tries).
 */
module ReferenceFormatter {
  import opened Wrappers
  import opened Strings
  import opened Sequences

  /** The dictionary `extract_reference_info` returns: each field is a key that may be absent. */
  datatype RefInfo = RefInfo(pmid: Option<string>, doi: Option<string>, title: Option<string>)

  // ------------------------------------------------- \bPMID[:\s]?(\d+)\b

  /** The zero-width assertion `\b` at position `j`. */
  predicate WordBoundary(s: string, j: nat) {
    (0 < j <= |s| && IsWordChar(s[j - 1])) != (j < |s| && IsWordChar(s[j]))
  }

  /** The optional class `[:\s]` between `PMID` and the digits. */
  predicate IsPmidSeparator(c: char) {
    c == ':' || IsSpace(c)
  }

  /** `\bPMID[:\s]?(\d+)\b` can match `s[i..j]` with the group `(\d+)` spanning `s[p..j]`. */
  ghost predicate PmidMatch(s: string, i: nat, p: nat, j: nat) {
    && i + 4 <= p <= i + 5 && p < j <= |s|
    && WordBoundary(s, i) && s[i..i + 4] == "PMID"
    && (p == i + 5 ==> IsPmidSeparator(s[i + 4]))
    && (forall k :: p <= k < j ==> IsDigit(s[k]))
    && WordBoundary(s, j)
  }

  /** The first index at or after `p` that does not hold a digit. */
  function DigitsEnd(s: string, p: nat): (j: nat)
    requires p <= |s|
    ensures p <= j <= |s|
    ensures forall k :: p <= k < j ==> IsDigit(s[k])
    ensures j < |s| ==> !IsDigit(s[j])
    decreases |s| - p
  {
    if p < |s| && IsDigit(s[p]) then DigitsEnd(s, p + 1) else p
  }

  /** Where a PMID match starts, where its digits start, and where it ends. */
  datatype PmidSpan = PmidSpan(start: nat, digits: nat, end: nat)

  /** The engine's choice at start `i`: consume the separator when there is one. */
  function PmidDigitsStart(s: string, i: nat): (p: nat)
    requires i + 4 < |s|
  {
    if IsPmidSeparator(s[i + 4]) then i + 5 else i + 4
  }

  /** Any match at `i` consumed the separator if there was one and then every digit. */
  lemma PmidMatchForced(s: string, i: nat, p: nat, j: nat)
    ensures PmidMatch(s, i, p, j) ==>
      i + 4 < |s| && p == PmidDigitsStart(s, i) && p <= |s| && j == DigitsEnd(s, p)
  {
    if PmidMatch(s, i, p, j) {
      assert IsDigit(s[p]);
      var e := DigitsEnd(s, p);
    }
  }

  /** At one start the PMID pattern can match in one way only. */
  lemma PmidMatchUnique(s: string, i: nat, p: nat, j: nat, p': nat, j': nat)
    requires PmidMatch(s, i, p, j) && PmidMatch(s, i, p', j')
    ensures p == p' && j == j'
  {
    PmidMatchForced(s, i, p, j);
    PmidMatchForced(s, i, p', j');
  }

  /** The regex engine's attempt at start `i`: the separator if present, then all digits. */
  function PmidAt(s: string, i: nat): (r: Option<PmidSpan>)
    ensures r.Some? ==> r.value.start == i && PmidMatch(s, i, r.value.digits, r.value.end)
    ensures r.None? ==> forall p: nat, j: nat :: !PmidMatch(s, i, p, j)
  {
    if i + 4 < |s| && WordBoundary(s, i) && s[i..i + 4] == "PMID" then
      var p := PmidDigitsStart(s, i);
      var j := DigitsEnd(s, p);
      assert forall p': nat, j': nat :: PmidMatch(s, i, p', j') ==> p' == p && j' == j by {
        forall p': nat, j': nat ensures PmidMatch(s, i, p', j') ==> p' == p && j' == j {
          PmidMatchForced(s, i, p', j');
        }
      }
      if p < j && WordBoundary(s, j) then Some(PmidSpan(i, p, j)) else None
    else
      None
  }

  /** `re.search` for the PMID pattern from start `i` on. */
  function SearchPmidFrom(s: string, i: nat): (r: Option<PmidSpan>)
    ensures r.Some? ==> i <= r.value.start && PmidMatch(s, r.value.start, r.value.digits, r.value.end)
    ensures r.Some? ==> forall k: nat, p: nat, j: nat :: i <= k < r.value.start ==> !PmidMatch(s, k, p, j)
    ensures r.None? ==> forall k: nat, p: nat, j: nat :: i <= k ==> !PmidMatch(s, k, p, j)
    decreases |s| + 1 - i
  {
    if i > |s| then None
    else
      match PmidAt(s, i)
      case Some(m) => Some(m)
      case None => SearchPmidFrom(s, i + 1)
  }

  /** `re.search(r'\bPMID[:\s]?(\d+)\b', s)`: the leftmost match. */
  function SearchPmid(s: string): (r: Option<PmidSpan>)
    ensures r.Some? ==> PmidMatch(s, r.value.start, r.value.digits, r.value.end)
    ensures r.Some? ==> forall k: nat, p: nat, j: nat :: k < r.value.start ==> !PmidMatch(s, k, p, j)
    ensures r.None? ==> forall k: nat, p: nat, j: nat :: !PmidMatch(s, k, p, j)
  {
    SearchPmidFrom(s, 0)
  }

  /** `pmid_match.group(1)`, or `None`. */
  function ExtractPmid(s: string): Option<string> {
    match SearchPmid(s)
    case Some(m) => Some(s[m.digits..m.end])
    case None => None
  }

  // --------------------------------- (10\.\d{4,9}/[^\s:,\);]+)(?=PMID|$)

  /** A character the class `[^\s:,\);]` refuses. */
  predicate IsDoiStop(c: char) {
    IsSpace(c) || c == ':' || c == ',' || c == ')' || c == ';'
  }

  /** The lookahead `(?=PMID|$)` at `e`; Python's `$` also matches before a final newline. */
  predicate DoiLookahead(s: string, e: nat) {
    OccursAt(s, "PMID", e) || e == |s| || (e + 1 == |s| && s[e] == '\n')
  }

  /** The DOI pattern can match `s[i..e]` with its `/` at `d`. */
  ghost predicate DoiMatch(s: string, i: nat, d: nat, e: nat) {
    && i + 7 <= d <= i + 12 && d + 1 < e <= |s|
    && s[i..i + 3] == "10."
    && (forall k :: i + 3 <= k < d ==> IsDigit(s[k]))
    && s[d] == '/'
    && (forall k :: d < k < e ==> !IsDoiStop(s[k]))
    && DoiLookahead(s, e)
  }

  /** The first index at or after `q` that holds a character of `[\s:,\);]`. */
  function StopsEnd(s: string, q: nat): (e: nat)
    requires q <= |s|
    ensures q <= e <= |s|
    ensures forall k :: q <= k < e ==> !IsDoiStop(s[k])
    ensures e < |s| ==> IsDoiStop(s[e])
    decreases |s| - q
  {
    if q < |s| && !IsDoiStop(s[q]) then StopsEnd(s, q + 1) else q
  }

  /** Backtracking of the greedy `+`: the largest end in `(lo, e]` at which the lookahead holds. */
  function LongestLookahead(s: string, lo: nat, e: nat): (r: Option<nat>)
    requires lo <= e <= |s|
    ensures r.Some? ==> lo < r.value <= e && DoiLookahead(s, r.value)
    ensures r.Some? ==> forall k :: r.value < k <= e ==> !DoiLookahead(s, k)
    ensures r.None? ==> forall k :: lo < k <= e ==> !DoiLookahead(s, k)
    decreases e
  {
    if e <= lo then None
    else if DoiLookahead(s, e) then Some(e)
    else LongestLookahead(s, lo, e - 1)
  }

  /** Where a DOI match starts, where its `/` is, and where it ends. */
  datatype DoiSpan = DoiSpan(start: nat, slash: nat, end: nat)

  /** Any DOI match at `i` took every digit after `10.` and stopped at or before the first
      character of `[\s:,\);]`. */
  lemma DoiMatchForced(s: string, i: nat, d: nat, e: nat)
    ensures DoiMatch(s, i, d, e) ==>
      i + 3 <= d < |s| && d == DigitsEnd(s, i + 3) && e <= StopsEnd(s, d + 1)
  {
    if DoiMatch(s, i, d, e) {
      var d0 := DigitsEnd(s, i + 3);
      assert d < d0 ==> IsDigit(s[d]);
      var st := StopsEnd(s, d + 1);
    }
  }

  /** The regex engine's attempt at start `i`: the greedy run, then the longest end with the lookahead. */
  function DoiAt(s: string, i: nat): (r: Option<DoiSpan>)
    ensures r.Some? ==> r.value.start == i && DoiMatch(s, i, r.value.slash, r.value.end)
    ensures r.Some? ==> forall d: nat, e: nat :: DoiMatch(s, i, d, e) ==> d == r.value.slash && e <= r.value.end
    ensures r.None? ==> forall d: nat, e: nat :: !DoiMatch(s, i, d, e)
  {
    if i + 3 <= |s| && s[i..i + 3] == "10." then
      var d := DigitsEnd(s, i + 3);
      if i + 7 <= d <= i + 12 && d < |s| && s[d] == '/' then
        var stop := StopsEnd(s, d + 1);
        assert forall d': nat, e': nat :: DoiMatch(s, i, d', e') ==> d' == d && d + 1 < e' <= stop by {
          forall d': nat, e': nat ensures DoiMatch(s, i, d', e') ==> d' == d && d + 1 < e' <= stop {
            DoiMatchForced(s, i, d', e');
          }
        }
        match LongestLookahead(s, d + 1, stop)
        case Some(e) => Some(DoiSpan(i, d, e))
        case None => None
      else
        assert forall d': nat, e': nat :: !DoiMatch(s, i, d', e') by {
          forall d': nat, e': nat ensures DoiMatch(s, i, d', e') ==> d' == d {
            DoiMatchForced(s, i, d', e');
          }
        }
        None
    else
      None
  }

  /** `re.search` for the DOI pattern from start `i` on. */
  function SearchDoiFrom(s: string, i: nat): (r: Option<DoiSpan>)
    ensures r.Some? ==> i <= r.value.start && DoiMatch(s, r.value.start, r.value.slash, r.value.end)
    ensures r.Some? ==> forall d: nat, e: nat :: DoiMatch(s, r.value.start, d, e) ==> e <= r.value.end
    ensures r.Some? ==> forall k: nat, d: nat, e: nat :: i <= k < r.value.start ==> !DoiMatch(s, k, d, e)
    ensures r.None? ==> forall k: nat, d: nat, e: nat :: i <= k ==> !DoiMatch(s, k, d, e)
    decreases |s| + 1 - i
  {
    if i > |s| then None
    else
      match DoiAt(s, i)
      case Some(m) => Some(m)
      case None => SearchDoiFrom(s, i + 1)
  }

  /** `re.search(r'(10\.\d{4,9}/[^\s:,\);]+)(?=PMID|$)', s)`: leftmost start, longest end there. */
  function SearchDoi(s: string): (r: Option<DoiSpan>)
    ensures r.Some? ==> DoiMatch(s, r.value.start, r.value.slash, r.value.end)
    ensures r.Some? ==> forall d: nat, e: nat :: DoiMatch(s, r.value.start, d, e) ==> e <= r.value.end
    ensures r.Some? ==> forall k: nat, d: nat, e: nat :: k < r.value.start ==> !DoiMatch(s, k, d, e)
    ensures r.None? ==> forall k: nat, d: nat, e: nat :: !DoiMatch(s, k, d, e)
  {
    SearchDoiFrom(s, 0)
  }

  /** `doi_match.group(0)`, or `None`. */
  function ExtractDoi(s: string): Option<string> {
    match SearchDoi(s)
    case Some(m) => Some(s[m.start..m.end])
    case None => None
  }

  // ------------------------------------------------------------ the parser

  /** `reference.find(")") + 1`: just after the first `)`, or 0 when there is none. */
  function TitleStart(s: string): (k: nat)
    ensures k <= |s|
  {
    match Find(s, ")")
    case Some(i) => i + 1
    case None => 0
  }

  /** `extract_reference_info`: the PMID and/or DOI, or else the stripped text after the first `)`. */
  function ExtractReferenceInfo(reference: string): (r: RefInfo)
    ensures r.title.Some? <==> r.pmid.None? && r.doi.None?
    ensures r.pmid.Some? ==> r.pmid.value != [] && forall c :: c in r.pmid.value ==> IsDigit(c)
    ensures r.doi.Some? ==> StartsWith(r.doi.value, "10.")
  {
    var pmid := ExtractPmid(reference);
    var doi := ExtractDoi(reference);
    if pmid.None? && doi.None? then
      RefInfo(None, None, Some(Strip(reference[TitleStart(reference)..])))
    else
      RefInfo(pmid, doi, None)
  }

  // ------------------------------------------------ what the parser promises

  /** The leftmost PMID match yields the pmid, whatever else the text holds. */
  lemma PmidIsLeftmostMatch(s: string, i: nat, p: nat, j: nat)
    requires PmidMatch(s, i, p, j)
    requires forall k: nat, p': nat, j': nat :: k < i ==> !PmidMatch(s, k, p', j')
    ensures ExtractReferenceInfo(s).pmid == Some(s[p..j])
    ensures ExtractReferenceInfo(s).title.None?
  {
    var m := SearchPmid(s);
    assert m.Some?;
    assert m.value.start == i;
    PmidMatchUnique(s, i, p, j, m.value.digits, m.value.end);
  }

  /** With no place where the PMID pattern matches there is no pmid. */
  lemma NoPmidWithoutMatch(s: string)
    requires forall k: nat, p: nat, j: nat :: !PmidMatch(s, k, p, j)
    ensures ExtractReferenceInfo(s).pmid.None?
  {
  }

  /** The pmid is the digit run right after `PMID` and at most one `:` or whitespace character. */
  lemma PmidShape(s: string)
    requires ExtractReferenceInfo(s).pmid.Some?
    ensures exists i: nat, p: nat, j: nat ::
      && i + 4 <= p < j <= |s|
      && ExtractReferenceInfo(s).pmid == Some(s[p..j])
      && OccursAt(s, "PMID", i) && WordBoundary(s, i)
      && (p == i + 4 || (p == i + 5 && IsPmidSeparator(s[i + 4])))
      && (j == |s| || !IsWordChar(s[j]))
  {
    var m := SearchPmid(s).value;
    assert PmidMatch(s, m.start, m.digits, m.end);
    assert IsDigit(s[m.end - 1]);
    assert OccursAt(s, "PMID", m.start);
  }

  /** The leftmost DOI match, taken as long as the lookahead allows, yields the doi. */
  lemma DoiIsLeftmostLongestMatch(s: string, i: nat, d: nat, e: nat)
    requires DoiMatch(s, i, d, e)
    requires forall d': nat, e': nat :: DoiMatch(s, i, d', e') ==> e' <= e
    requires forall k: nat, d': nat, e': nat :: k < i ==> !DoiMatch(s, k, d', e')
    ensures ExtractReferenceInfo(s).doi == Some(s[i..e])
    ensures ExtractReferenceInfo(s).title.None?
  {
    var m := SearchDoi(s);
    assert m.Some?;
    assert m.value.start == i;
    assert e <= m.value.end;
    assert m.value.end <= e;
  }

  /** With no place where the DOI pattern matches there is no doi. */
  lemma NoDoiWithoutMatch(s: string)
    requires forall k: nat, d: nat, e: nat :: !DoiMatch(s, k, d, e)
    ensures ExtractReferenceInfo(s).doi.None?
  {
  }

  /** `x` sits at `s[i..]` and reads `10.`, `n` digits with 4 <= n <= 9, `/`, then no whitespace,
      `:`, `,`, `)` or `;`, and it is followed in `s` by `PMID` or the end of the string. */
  ghost predicate DoiShapedAt(s: string, x: string, i: nat, n: nat) {
    && 4 <= n <= 9 && 3 + n + 1 < |x| && i + |x| <= |s|
    && x == s[i..i + |x|]
    && x[..3] == "10."
    && (forall k :: 3 <= k < 3 + n ==> IsDigit(x[k]))
    && x[3 + n] == '/'
    && (forall k :: 3 + n < k < |x| ==> !IsDoiStop(x[k]))
    && DoiLookahead(s, i + |x|)
  }

  /** Every doi the parser reports has the shape of the DOI pattern and is followed by `PMID` or
      the end of the text. */
  lemma DoiShape(s: string)
    requires ExtractReferenceInfo(s).doi.Some?
    ensures exists i: nat, n: nat :: DoiShapedAt(s, ExtractReferenceInfo(s).doi.value, i, n)
  {
    var m := SearchDoi(s).value;
    assert DoiMatch(s, m.start, m.slash, m.end);
    var x := s[m.start..m.end];
    assert ExtractReferenceInfo(s).doi.value == x;
    var n := m.slash - m.start - 3;
    assert forall k :: 3 <= k < 3 + n ==> x[k] == s[m.start + k];
    assert forall k :: 3 + n < k < |x| ==> x[k] == s[m.start + k];
    assert DoiShapedAt(s, x, m.start, n);
  }

  /** Without PMID and DOI, the title is the stripped text after the first `)`. */
  lemma TitleAfterFirstParen(s: string, i: nat)
    requires ExtractReferenceInfo(s).title.Some?
    requires OccursAt(s, ")", i) && forall k: nat :: k < i ==> !OccursAt(s, ")", k)
    ensures ExtractReferenceInfo(s).title == Some(Strip(s[i + 1..]))
  {
    var f := Find(s, ")");
    if f.Some? {
      assert f.value == i;
    }
  }

  /** Without PMID, DOI and `)`, the title is the whole stripped string. */
  lemma TitleWithoutParen(s: string)
    requires ExtractReferenceInfo(s).title.Some?
    requires forall k: nat :: !OccursAt(s, ")", k)
    ensures ExtractReferenceInfo(s).title == Some(Strip(s))
  {
    assert s[0..] == s;
  }

  /** Empty and whitespace-only references pass through as the empty title. */
  lemma BlankReference(s: string)
    requires forall k :: 0 <= k < |s| ==> IsSpace(s[k])
    ensures ExtractReferenceInfo(s) == RefInfo(None, None, Some(""))
  {
    BlankHasNoPmid(s);
    BlankHasNoDoi(s);
    BlankHasNoParen(s);
    TitleWithoutParen(s);
    StripEmpty(s);
  }

  lemma BlankHasNoPmid(s: string)
    requires forall k :: 0 <= k < |s| ==> IsSpace(s[k])
    ensures ExtractReferenceInfo(s).pmid.None?
  {
    forall k: nat, p: nat, j: nat ensures !PmidMatch(s, k, p, j) {
      assert PmidMatch(s, k, p, j) ==> CharAt(s, k, 'P');
    }
    NoPmidWithoutMatch(s);
  }

  lemma BlankHasNoDoi(s: string)
    requires forall k :: 0 <= k < |s| ==> IsSpace(s[k])
    ensures ExtractReferenceInfo(s).doi.None?
  {
    forall k: nat, d: nat, e: nat ensures !DoiMatch(s, k, d, e) {
      assert DoiMatch(s, k, d, e) ==> CharAt(s, k, '1');
    }
    NoDoiWithoutMatch(s);
  }

  lemma BlankHasNoParen(s: string)
    requires forall k :: 0 <= k < |s| ==> IsSpace(s[k])
    ensures forall k: nat :: !OccursAt(s, ")", k)
  {
    forall k: nat ensures !OccursAt(s, ")", k) {
      assert OccursAt(s, ")", k) ==> CharAt(s, k, ')');
    }
  }

  // ------------------------------------------------- process_references

  /** One entry of the input file: its `references` list, when the key is there, and the rest of
      its fields, which processing carries over. */
  datatype Entry<R> = Entry(references: Option<seq<R>>, otherFields: map<string, string>)

  /** The inner loop of `process_references`: one parsed record per reference, in order. */
  method ParseReferences(refs: seq<string>) returns (updated: seq<RefInfo>)
    ensures |updated| == |refs|
    ensures forall k :: 0 <= k < |refs| ==> updated[k] == ExtractReferenceInfo(refs[k])
  {
    updated := [];
    for n := 0 to |refs|
      invariant updated == Map(ExtractReferenceInfo, refs[..n])
    {
      MapPrefix(ExtractReferenceInfo, refs, n);
      updated := updated + [ExtractReferenceInfo(refs[n])];
    }
    assert refs[..|refs|] == refs;
  }

  /** `process_references` on the loaded JSON object: every entry gets its references parsed (a
      missing `references` key reads as the empty list and is written back as `[]`); the keys and
      the other fields stay as they were. */
  method ProcessReferences(data: map<string, Entry<string>>) returns (out: map<string, Entry<RefInfo>>)
    ensures out.Keys == data.Keys
    ensures forall key :: key in data ==> out[key].otherFields == data[key].otherFields
    ensures forall key :: key in data ==>
      var refs := data[key].references.GetOr([]);
      && out[key].references.Some?
      && |out[key].references.value| == |refs|
      && forall k :: 0 <= k < |refs| ==> out[key].references.value[k] == ExtractReferenceInfo(refs[k])
  {
    out := map[];
    var todo := data.Keys;
    while todo != {}
      invariant todo <= data.Keys
      invariant out.Keys == data.Keys - todo
      invariant forall key :: key in out ==> out[key].otherFields == data[key].otherFields
      invariant forall key :: key in out ==>
        var refs := data[key].references.GetOr([]);
        && out[key].references.Some?
        && |out[key].references.value| == |refs|
        && forall k :: 0 <= k < |refs| ==> out[key].references.value[k] == ExtractReferenceInfo(refs[k])
      decreases todo
    {
      var key :| key in todo;
      var updated := ParseReferences(data[key].references.GetOr([]));
      out := out[key := Entry(Some(updated), data[key].otherFields)];
      todo := todo - {key};
    }
  }

  // ------------------------------------------ references of a common form

  /** A `PMID` token led by a non-word character and closed by a non-word character gives its
      digits, provided no `P` comes before it. */
  lemma PmidToken(s: string, pre: string, sep: string, digits: string, post: string)
    requires s == pre + "PMID" + sep + digits + post
    requires pre == [] || !IsWordChar(pre[|pre| - 1])
    requires 'P' !in pre
    requires sep == [] || (|sep| == 1 && IsPmidSeparator(sep[0]))
    requires digits != [] && forall k :: 0 <= k < |digits| ==> IsDigit(digits[k])
    requires post == [] || !IsWordChar(post[0])
    ensures ExtractReferenceInfo(s).pmid == Some(digits)
  {
    var i, p := |pre|, |pre| + 4 + |sep|;
    var j := p + |digits|;
    assert s[i..i + 4] == "PMID";
    assert s[p..j] == digits;
    assert forall k :: p <= k < j ==> s[k] == digits[k - p];
    assert j < |s| ==> s[j] == post[0];
    assert p == i + 5 ==> s[i + 4] == sep[0];
    assert PmidMatch(s, i, p, j);
    forall k: nat, p': nat, j': nat | k < i ensures !PmidMatch(s, k, p', j') {
      assert s[k] == pre[k];
    }
    PmidIsLeftmostMatch(s, i, p, j);
  }

  /** `s` is `pre`, then `10.`, 4 to 9 digits, `/`, a non-empty run free of `[\s:,\);]`, then `post`. */
  predicate DoiParts(s: string, pre: string, digits: string, suffix: string, post: string) {
    && s == pre + "10." + digits + "/" + suffix + post
    && 4 <= |digits| <= 9 && (forall k :: 0 <= k < |digits| ==> IsDigit(digits[k]))
    && suffix != [] && (forall k :: 0 <= k < |suffix| ==> !IsDoiStop(suffix[k]))
  }

  lemma DoiPartsIndices(s: string, pre: string, digits: string, suffix: string, post: string)
    requires DoiParts(s, pre, digits, suffix, post)
    ensures var d := |pre| + 3 + |digits|;
      && s[|pre|..d + 1 + |suffix|] == "10." + digits + "/" + suffix
      && d < |s| && s[d] == '/' && (forall k :: |pre| + 3 <= k < d ==> IsDigit(s[k]))
      && s[|pre|..|pre| + 3] == "10."
      && (forall k :: d < k < d + 1 + |suffix| ==> !IsDoiStop(s[k]))
  {
    var i := |pre|;
    var d := i + 3 + |digits|;
    var e := d + 1 + |suffix|;
    assert s[i..e] == "10." + digits + "/" + suffix;
    assert forall k :: i + 3 <= k < d ==> s[k] == s[i..e][k - i];
    assert forall k :: d < k < e ==> s[k] == s[i..e][k - i];
  }

  /** Once `10.<digits>/` is in place at `i`, every match there has its `/` at `d` and ends by
      the first character of `[\s:,\);]`. */
  lemma DoiPrefixForced(s: string, i: nat, d: nat)
    requires d < |s| && s[d] == '/'
    requires i + 3 <= d && forall k :: i + 3 <= k < d ==> IsDigit(s[k])
    ensures forall d': nat, e': nat :: DoiMatch(s, i, d', e') ==> d' == d && e' <= StopsEnd(s, d + 1)
  {
    forall d': nat, e': nat ensures DoiMatch(s, i, d', e') ==> d' == d && e' <= StopsEnd(s, d + 1) {
      DoiMatchForced(s, i, d', e');
      var j := DigitsEnd(s, i + 3);
      assert j == d;
    }
  }

  /** With no `.` in `pre`, no DOI match starts inside `pre`. */
  lemma NoDoiBefore(s: string, pre: string, digits: string, suffix: string, post: string)
    requires DoiParts(s, pre, digits, suffix, post)
    requires '.' !in pre
    ensures forall k: nat, d': nat, e': nat :: k < |pre| ==> !DoiMatch(s, k, d', e')
  {
    var i := |pre|;
    DoiPartsIndices(s, pre, digits, suffix, post);
    assert s[i] == '1' && s[i + 1] == '0';
    forall j | 0 <= j < i ensures s[j] != '.' {
      assert s[j] == pre[j];
    }
    forall k: nat, d': nat, e': nat | k < i ensures !DoiMatch(s, k, d', e') {
      assert !CharAt(s, k + 2, '.');
    }
  }

  /** A DOI closing the reference (before the end or a final newline) is reported whole. */
  lemma DoiAtEnd(s: string, pre: string, digits: string, suffix: string, post: string)
    requires DoiParts(s, pre, digits, suffix, post)
    requires '.' !in pre
    requires post == [] || post == "\n"
    ensures ExtractReferenceInfo(s).doi == Some("10." + digits + "/" + suffix)
  {
    var i := |pre|;
    var d := i + 3 + |digits|;
    var e := d + 1 + |suffix|;
    DoiPartsIndices(s, pre, digits, suffix, post);
    assert post != [] ==> s[e] == '\n';
    assert DoiMatch(s, i, d, e);
    DoiPrefixForced(s, i, d);
    NoDoiBefore(s, pre, digits, suffix, post);
    DoiIsLeftmostLongestMatch(s, i, d, e);
  }

  /** A DOI glued to a following `PMID` stops right before it when a character of `[\s:,\);]`
      follows the four letters (and is not a lone final newline). */
  lemma DoiBeforePmid(s: string, pre: string, digits: string, suffix: string, rest: string)
    requires DoiParts(s, pre, digits, suffix, "PMID" + rest)
    requires '.' !in pre
    requires rest != [] && IsDoiStop(rest[0]) && rest != "\n"
    ensures ExtractReferenceInfo(s).doi == Some("10." + digits + "/" + suffix)
  {
    var i := |pre|;
    var d := i + 3 + |digits|;
    var e := d + 1 + |suffix|;
    DoiPartsIndices(s, pre, digits, suffix, "PMID" + rest);
    assert s[e..] == "PMID" + rest;
    assert s[e..e + 4] == "PMID";
    assert s[e + 1] == 'M' && s[e + 2] == 'I' && s[e + 3] == 'D' && s[e + 4] == rest[0];
    assert DoiMatch(s, i, d, e);
    DoiPrefixForced(s, i, d);
    assert StopsEnd(s, d + 1) == e + 4;
    assert e + 5 == |s| ==> rest == [rest[0]];
    forall d': nat, e': nat ensures DoiMatch(s, i, d', e') ==> e' <= e {
      assert DoiMatch(s, i, d', e') && e < e' ==>
        CharAt(s, e', 'P') || (e' == e + 4 && e + 5 == |s| && CharAt(s, e', '\n'));
    }
    NoDoiBefore(s, pre, digits, suffix, "PMID" + rest);
    DoiIsLeftmostLongestMatch(s, i, d, e);
  }

  /** A DOI followed by a character of `[\s:,\);]` (other than a lone final newline) fails the
      lookahead: the pattern does not match where it starts. */
  lemma DoiCutByStop(s: string, pre: string, digits: string, suffix: string, rest: string)
    requires DoiParts(s, pre, digits, suffix, rest)
    requires forall k: nat :: !OccursAt(suffix, "PMID", k)
    requires rest != [] && IsDoiStop(rest[0]) && rest != "\n"
    ensures forall d': nat, e': nat :: !DoiMatch(s, |pre|, d', e')
  {
    var i := |pre|;
    var d := i + 3 + |digits|;
    var e := d + 1 + |suffix|;
    DoiPartsIndices(s, pre, digits, suffix, rest);
    assert s[e..] == rest;
    DoiPrefixForced(s, i, d);
    assert StopsEnd(s, d + 1) == e;
    assert e + 1 == |s| ==> rest == [rest[0]];
    forall d': nat, e': nat ensures !DoiMatch(s, i, d', e') {
      if d + 1 < e' <= e {
        if e' + 4 <= e {
          assert s[e'..e' + 4] == suffix[e' - d - 1..e' - d + 3];
          assert !OccursAt(suffix, "PMID", e' - d - 1);
        } else {
          OccursAtChar(s, "PMID", e', e);
        }
      }
    }
  }

  // ------------------------------------------------------------- examples

  /** `Smith J (2020) PMID:12345 10.1000/xyz123` gives pmid `12345`, */
  lemma ExamplePmid(s: string)
    requires s == "Smith J (2020) PMID:12345 10.1000/xyz123"
    ensures ExtractReferenceInfo(s).pmid == Some("12345")
  {
    assert s == "Smith J (2020) " + "PMID" + ":" + "12345" + " 10.1000/xyz123";
    PmidToken(s, "Smith J (2020) ", ":", "12345", " 10.1000/xyz123");
  }

  /** and doi `10.1000/xyz123`. */
  lemma ExampleDoi(s: string)
    requires s == "Smith J (2020) PMID:12345 10.1000/xyz123"
    ensures ExtractReferenceInfo(s).doi == Some("10.1000/xyz123")
  {
    var pre, suffix := "Smith J (2020) PMID:12345 ", "xyz123";
    assert s == pre + "10." + "1000" + "/" + suffix + "";
    assert '.' !in pre;
    assert forall k :: 0 <= k < |suffix| ==> !IsDoiStop(suffix[k]);
    assert "10." + "1000" + "/" + suffix == "10.1000/xyz123";
    DoiAtEnd(s, pre, "1000", suffix, "");
  }

  /** In `10.1000/abc PMID:7` the PMID is found, */
  lemma MidTextPmid(s: string)
    requires s == "10.1000/abc PMID:7"
    ensures ExtractReferenceInfo(s).pmid == Some("7")
  {
    var pre := "10.1000/abc ";
    assert s == pre + "PMID" + ":" + "7" + "";
    assert 'P' !in pre;
    PmidToken(s, pre, ":", "7", "");
  }

  /** but the DOI, followed by a space, is not. */
  lemma MidTextDoi(s: string)
    requires s == "10.1000/abc PMID:7"
    ensures ExtractReferenceInfo(s).doi.None?
  {
    assert s == "" + "10." + "1000" + "/" + "abc" + " PMID:7";
    forall k: nat ensures !OccursAt("abc", "PMID", k) {
    }
    DoiCutByStop(s, "", "1000", "abc", " PMID:7");
    forall k: nat, d: nat, e: nat | 0 < k ensures !DoiMatch(s, k, d, e) {
      var dot: nat := k + 2;
      assert DoiMatch(s, k, d, e) ==> CharAt(s, dot, '.');
    }
    NoDoiWithoutMatch(s);
  }

  /** In `10.1000/xyzPMID1` the lookahead `$` wins over `PMID`: the DOI takes the whole text, */
  lemma GluedPmidDoi(s: string)
    requires s == "10.1000/xyzPMID1"
    ensures ExtractReferenceInfo(s).doi == Some(s)
  {
    var suffix := "xyzPMID1";
    assert s == "" + "10." + "1000" + "/" + suffix + "";
    assert forall k :: 0 <= k < |suffix| ==> !IsDoiStop(suffix[k]);
    assert "10." + "1000" + "/" + suffix == s;
    DoiAtEnd(s, "", "1000", suffix, "");
  }

  /** and, with no word boundary before `PMID`, there is no pmid. */
  lemma GluedPmidNoPmid(s: string)
    requires s == "10.1000/xyzPMID1"
    ensures ExtractReferenceInfo(s).pmid.None?
  {
    forall k: nat, p: nat, j: nat ensures !PmidMatch(s, k, p, j) {
      assert PmidMatch(s, k, p, j) ==> CharAt(s, k, 'P') && WordBoundary(s, k);
    }
    NoPmidWithoutMatch(s);
  }

  /** `PMID: 123` has no pmid: at most one separator may sit between `PMID` and the digits. */
  lemma TwoSeparatorsNoPmid(s: string)
    requires s == "PMID: 123"
    ensures ExtractReferenceInfo(s).pmid.None?
  {
    forall k: nat, p: nat, j: nat ensures !PmidMatch(s, k, p, j) {
      PmidMatchForced(s, k, p, j);
      assert PmidMatch(s, k, p, j) ==> CharAt(s, k, 'P');
      assert s[5] == ' ';
      assert DigitsEnd(s, 5) == 5;
    }
    NoPmidWithoutMatch(s);
  }
}
