/**
 * `DOIMatcher` (Scripts/citing_doi_matcher.py): cleans the ids of the known (mashed) DOIs and
 * pairs every citing entity with each of its referenced DOIs that is known.
 *
 * The CSV column arrives as a sequence of cells (`None` for a missing value) and the JSON object
 * as the sequence of its items in file order; reading and writing the files is not modelled.
 */
module CitingDoiMatcher {
  import opened Wrappers
  import opened Strings

  // ------------------------------------------------------------ load_csv

  /** `id.replace("doi:", "")`: every `doi:` met in one left-to-right pass is removed. */
  function CleanId(raw: string): (r: string)
    ensures |r| <= |raw|
  {
    RemoveAll(raw, "doi:")
  }

  /** A leading `doi:` goes, and the rest is cleaned in turn. */
  lemma CleanIdPrefix(x: string)
    ensures CleanId("doi:" + x) == CleanId(x)
  {
    assert ("doi:" + x)[..4] == "doi:";
    assert ("doi:" + x)[4..] == x;
  }

  /** An id holding no `doi:` is kept as it is; in particular `doi:10.1/x` becomes `10.1/x`
      whenever `10.1/x` holds no `doi:`. */
  lemma CleanIdPlainDoi(x: string)
    requires forall k: nat :: !OccursAt(x, "doi:", k)
    ensures CleanId(x) == x
    ensures CleanId("doi:" + x) == x
  {
    RemoveAllAbsent(x, "doi:");
    CleanIdPrefix(x);
  }

  /** The removal is not anchored: a `doi:` after other text goes too, and the text before the
      first `doi:` is kept as it is. */
  lemma CleanIdInner(x: string, y: string)
    requires forall k: nat :: k < |x| ==> !OccursAt(x + "doi:" + y, "doi:", k)
    ensures CleanId(x + "doi:" + y) == x + CleanId(y)
  {
    RemoveAllInner(x, "doi:", y);
  }

  /** `10.1/doi:x` is cleaned to `10.1/x`. */
  lemma CleanIdInnerExample(s: string)
    requires s == "10.1/doi:x"
    ensures CleanId(s) == "10.1/x"
  {
    var x := "10.1/";
    assert s == x + "doi:" + "x";
    forall k: nat | k < |x| ensures !OccursAt(x + "doi:" + "x", "doi:", k) {
      assert OccursAt(s, "doi:", k) ==> CharAt(s, k, 'd');
    }
    CleanIdInner(x, "x");
    forall k: nat ensures !OccursAt("x", "doi:", k) {
    }
    RemoveAllAbsent("x", "doi:");
  }

  /** The removal is case-sensitive: an upper-case prefix survives. */
  lemma CleanIdCaseSensitive(s: string)
    requires s == "DOI:10.1000/x"
    ensures CleanId(s) == s
  {
    forall k: nat ensures !OccursAt(s, "doi:", k) {
      assert OccursAt(s, "doi:", k) ==> CharAt(s, k, 'd');
    }
    RemoveAllAbsent(s, "doi:");
  }

  /** The removal is a single pass: occurrences created by a removal stay. */
  lemma CleanIdSinglePass(s: string)
    requires s == "ddoi:oi:"
    ensures CleanId(s) == "doi:"
  {
    var t := s[1..];
    assert t[..4] == "doi:" && t[4..] == "oi:";
    assert RemoveAll(t, "doi:") == RemoveAll("oi:", "doi:");
    assert s[..4][1] != "doi:"[1];
    assert RemoveAll(s, "doi:") == [s[0]] + RemoveAll(t, "doi:");
  }

  /** `set(df["id"].dropna())` after cleaning: the cleaned ids of the cells that are present. */
  function LoadCsv(ids: seq<Option<string>>): (known: set<string>)
    ensures forall x :: x in known <==> exists k :: 0 <= k < |ids| && ids[k].Some? && x == CleanId(ids[k].value)
    decreases |ids|
  {
    if ids == [] then {}
    else
      var rest := LoadCsv(ids[1..]);
      assert forall k :: 1 <= k < |ids| ==> ids[k] == ids[1..][k - 1];
      if ids[0].Some? then {CleanId(ids[0].value)} + rest else rest
  }

  // ---------------------------------------------------------- match_dois

  /** One item of the JSON object: its key (the citing DOI) and its `referenced_dois`, if any. */
  datatype CitingEntry = CitingEntry(citing: string, referencedDois: Option<seq<string>>)

  /** One output row `[citing_doi, referenced_doi]`. */
  datatype Match = Match(citing: string, referenced: string)

  /** The rows one entry contributes: its known referenced DOIs, in order. */
  function EntryMatches(known: set<string>, citing: string, refs: seq<string>): seq<Match>
    decreases |refs|
  {
    if refs == [] then []
    else
      var last := refs[|refs| - 1];
      EntryMatches(known, citing, refs[..|refs| - 1])
        + (if last in known then [Match(citing, last)] else [])
  }

  /** The rows of all entries, entry by entry. */
  function Matches(known: set<string>, data: seq<CitingEntry>): seq<Match>
    decreases |data|
  {
    if data == [] then []
    else
      var e := data[|data| - 1];
      Matches(known, data[..|data| - 1]) + EntryMatches(known, e.citing, e.referencedDois.GetOr([]))
  }

  /** `match_dois`: the nested loop appending one row per known referenced DOI. */
  method MatchDois(known: set<string>, data: seq<CitingEntry>) returns (results: seq<Match>)
    ensures results == Matches(known, data)
  {
    results := [];
    var i := 0;
    while i < |data|
      invariant i <= |data|
      invariant results == Matches(known, data[..i])
    {
      var refs := data[i].referencedDois.GetOr([]);
      var j := 0;
      while j < |refs|
        invariant j <= |refs|
        invariant results == Matches(known, data[..i]) + EntryMatches(known, data[i].citing, refs[..j])
      {
        if refs[j] in known {
          results := results + [Match(data[i].citing, refs[j])];
        }
        assert refs[..j + 1][..j] == refs[..j];
        j := j + 1;
      }
      assert refs[..j] == refs;
      assert data[..i + 1][..i] == data[..i];
      i := i + 1;
    }
    assert data[..i] == data;
  }

  // ------------------------------------------------- what matching promises

  /** A row of one entry pairs that entry with a known DOI it references. */
  lemma {:induction false} EntryMatchesMembership(known: set<string>, citing: string, refs: seq<string>, m: Match)
    ensures m in EntryMatches(known, citing, refs) <==> m.citing == citing && m.referenced in refs && m.referenced in known
    decreases |refs|
  {
    if refs != [] {
      var init := refs[..|refs| - 1];
      EntryMatchesMembership(known, citing, init, m);
      assert refs == init + [refs[|refs| - 1]];
    }
  }

  /** `[e, r]` is an output row iff some entry `e` lists `r` and `r` is known. */
  lemma {:induction false} MatchesMembership(known: set<string>, data: seq<CitingEntry>, m: Match)
    ensures m in Matches(known, data) <==>
      exists i :: 0 <= i < |data| && data[i].citing == m.citing
        && m.referenced in data[i].referencedDois.GetOr([]) && m.referenced in known
    decreases |data|
  {
    if data != [] {
      var init := data[..|data| - 1];
      var e := data[|data| - 1];
      MatchesMembership(known, init, m);
      EntryMatchesMembership(known, e.citing, e.referencedDois.GetOr([]), m);
      assert forall i :: 0 <= i < |init| ==> init[i] == data[i];
    }
  }

  /** The number of referenced DOIs listed over all entries. */
  function TotalRefs(data: seq<CitingEntry>): nat
    decreases |data|
  {
    if data == [] then 0
    else TotalRefs(data[..|data| - 1]) + |data[|data| - 1].referencedDois.GetOr([])|
  }

  lemma {:induction false} EntryMatchesCount(known: set<string>, citing: string, refs: seq<string>)
    ensures |EntryMatches(known, citing, refs)| <= |refs|
    ensures (forall r :: r in refs ==> r in known) ==> |EntryMatches(known, citing, refs)| == |refs|
    decreases |refs|
  {
    if refs != [] {
      var init := refs[..|refs| - 1];
      EntryMatchesCount(known, citing, init);
      assert forall r :: r in init ==> r in refs;
    }
  }

  /** At most one row per referenced DOI; exactly one when all of them are known, so duplicates
      are kept. */
  lemma {:induction false} MatchesCount(known: set<string>, data: seq<CitingEntry>)
    ensures |Matches(known, data)| <= TotalRefs(data)
    ensures (forall i, r :: 0 <= i < |data| && r in data[i].referencedDois.GetOr([]) ==> r in known) ==>
      |Matches(known, data)| == TotalRefs(data)
    decreases |data|
  {
    if data != [] {
      var init := data[..|data| - 1];
      var e := data[|data| - 1];
      MatchesCount(known, init);
      EntryMatchesCount(known, e.citing, e.referencedDois.GetOr([]));
      assert forall i :: 0 <= i < |init| ==> init[i] == data[i];
    }
  }

  /** Rows come entry by entry, in the order of the JSON items. */
  lemma {:induction false} MatchesAppend(known: set<string>, a: seq<CitingEntry>, b: seq<CitingEntry>)
    ensures Matches(known, a + b) == Matches(known, a) + Matches(known, b)
    decreases |b|
  {
    if b == [] {
      assert a + b == a;
    } else {
      var e := b[|b| - 1];
      assert (a + b)[..|a + b| - 1] == a + b[..|b| - 1];
      assert (a + b)[|a + b| - 1] == e;
      MatchesAppend(known, a, b[..|b| - 1]);
      calc {
        Matches(known, a + b);
        Matches(known, a + b[..|b| - 1]) + EntryMatches(known, e.citing, e.referencedDois.GetOr([]));
        Matches(known, a) + Matches(known, b[..|b| - 1]) + EntryMatches(known, e.citing, e.referencedDois.GetOr([]));
      }
    }
  }

  /** Within one entry, rows follow the order of its references. */
  lemma {:induction false} EntryMatchesAppend(known: set<string>, citing: string, a: seq<string>, b: seq<string>)
    ensures EntryMatches(known, citing, a + b) == EntryMatches(known, citing, a) + EntryMatches(known, citing, b)
    decreases |b|
  {
    if b == [] {
      assert a + b == a;
    } else {
      var last := b[|b| - 1];
      assert (a + b)[..|a + b| - 1] == a + b[..|b| - 1];
      assert (a + b)[|a + b| - 1] == last;
      EntryMatchesAppend(known, citing, a, b[..|b| - 1]);
      calc {
        EntryMatches(known, citing, a + b);
        EntryMatches(known, citing, a + b[..|b| - 1]) + (if last in known then [Match(citing, last)] else []);
        EntryMatches(known, citing, a) + EntryMatches(known, citing, b[..|b| - 1])
          + (if last in known then [Match(citing, last)] else []);
      }
    }
  }

  /** A DOI listed twice under one entry gives two identical rows. */
  lemma DuplicateReference(known: set<string>, e: string, r: string)
    requires r in known
    ensures Matches(known, [CitingEntry(e, Some([r, r]))]) == [Match(e, r), Match(e, r)]
  {
    assert [r, r][..1] == [r];
    assert [r][..0] == [];
    assert EntryMatches(known, e, [r]) == [Match(e, r)];
    assert EntryMatches(known, e, [r, r]) == [Match(e, r), Match(e, r)];
    var data := [CitingEntry(e, Some([r, r]))];
    assert data[..0] == [];
  }

  /** An entry without `referenced_dois` gives no row. */
  lemma EntryWithoutReferences(known: set<string>, data: seq<CitingEntry>, e: string)
    ensures Matches(known, data + [CitingEntry(e, None)]) == Matches(known, data)
  {
    assert (data + [CitingEntry(e, None)])[..|data|] == data;
  }

  /** Comparison is exact: a DOI differing from a known one only in case is not matched. */
  lemma ExactComparison(known: set<string>, e: string, r: string)
    requires known == {"10.1000/abc"} && r == "10.1000/ABC"
    ensures Matches(known, [CitingEntry(e, Some([r]))]) == []
  {
    assert r[8] != "10.1000/abc"[8];
    assert [r][..0] == [];
    assert EntryMatches(known, e, [r]) == [];
    var data := [CitingEntry(e, Some([r]))];
    assert data[..0] == [];
  }
}
