/**
 * `SPARQLCitationExtractor` (Scripts/citation_finder.py): asks the OpenCitations Index SPARQL
 * endpoint, journal by journal, for the citations pointing to it and the citations it makes,
 * flattens the answers into rows, and joins the two tables on `journal`.
 *
 * The endpoint is a function from the query text to the list of bindings, `None` when the
 * query raised. The CSV files in between are not modelled: the tables are passed as rows.
 */
module CitationFinder {
  import opened Wrappers
  import opened Strings
  import opened Sequences

  // ------------------------------------------------------- query templates

  /** Which of the two queries: the entities citing the journal, or the entities it cites. */
  datatype Direction = Citing | Cited

  const QueryHead := "\n        PREFIX cito:<http://purl.org/spar/cito/>\n        SELECT ?citation "

  /** The variable bound to the other end of each citation. */
  function EntityVar(dir: Direction): string {
    match dir
    case Citing => "citing_entity"
    case Cited => "cited_entity"
  }

  /** The property whose object is the queried URL. */
  function BoundProperty(dir: Direction): string {
    match dir
    case Citing => "cito:hasCitedEntity"
    case Cited => "cito:hasCitingEntity"
  }

  /** The property linking each citation to the selected entity. */
  function FreeProperty(dir: Direction): string {
    match dir
    case Citing => "cito:hasCitingEntity"
    case Cited => "cito:hasCitedEntity"
  }

  /** The head of the query, up to the opening brace: the selected variables are `?citation`
      and the direction's entity variable. */
  function SelectClause(dir: Direction): string {
    QueryHead + "?" + EntityVar(dir) + " WHERE {"
  }

  /** The first triple pattern and the subject of the second. */
  const TypeTriple := "\n            ?citation a cito:Citation .\n            ?citation "

  /** The second triple pattern, after its subject: the free property leads to the selected
      entity. */
  function FreeTriple(dir: Direction): string {
    FreeProperty(dir) + " ?" + EntityVar(dir)
  }

  /** Between the second and the third triple pattern. */
  const TripleSep := " .\n            ?citation "

  /** The third triple pattern, after its subject: the bound property leads to the URL. */
  function BoundTriple(dir: Direction, url: string): string {
    BoundProperty(dir) + " <" + url + ">"
  }

  const QueryTail := "\n        }\n        "

  /** `query_sparql_citing` (`Citing`) and `query_sparql_cited` (`Cited`): the query text. */
  function Query(dir: Direction, url: string): string {
    SelectClause(dir) + TypeTriple + FreeTriple(dir) + TripleSep + BoundTriple(dir, url) + QueryTail
  }

  /** Where the third triple pattern starts; it does not depend on the URL. */
  function BoundOffset(dir: Direction): nat {
    |SelectClause(dir)| + |TypeTriple| + |FreeTriple(dir)| + |TripleSep|
  }

  /** The query selects `?citation` and the direction's entity, links the citation to that
      entity through the free property, and to the URL, in angle brackets, through the bound
      property. */
  lemma QueryShape(dir: Direction, url: string)
    ensures OccursAt(Query(dir, url), SelectClause(dir), 0)
    ensures OccursAt(Query(dir, url), FreeTriple(dir), |SelectClause(dir)| + |TypeTriple|)
    ensures OccursAt(Query(dir, url), BoundTriple(dir, url), BoundOffset(dir))
    ensures |Query(dir, url)| == BoundOffset(dir) + |BoundTriple(dir, url)| + |QueryTail|
  {
    TemplatePieces(SelectClause(dir), TypeTriple, FreeTriple(dir), TripleSep, BoundTriple(dir, url), QueryTail);
  }

  /** The first, third and fifth of six concatenated pieces sit at the sums of the lengths
      before them. */
  lemma TemplatePieces(a: string, b: string, c: string, d: string, e: string, f: string)
    ensures OccursAt(a + b + c + d + e + f, a, 0)
    ensures OccursAt(a + b + c + d + e + f, c, |a| + |b|)
    ensures OccursAt(a + b + c + d + e + f, e, |a| + |b| + |c| + |d|)
  {
    var s := a + b + c + d + e + f;
    assert s[..|a|] == a;
    assert s[|a| + |b|..|a| + |b| + |c|] == c;
    assert s[|a| + |b| + |c| + |d|..|a| + |b| + |c| + |d| + |e|] == e;
  }

  /** The citing query ties the URL to `cito:hasCitedEntity`, the cited query to
      `cito:hasCitingEntity`: the two directions bind it in opposite positions. */
  lemma OppositePositions()
    ensures BoundProperty(Citing) == FreeProperty(Cited)
    ensures BoundProperty(Cited) == FreeProperty(Citing)
    ensures BoundProperty(Citing) != BoundProperty(Cited)
  {
    assert BoundProperty(Citing)[14] != BoundProperty(Cited)[14];
  }

  /** Different URLs give different queries. */
  lemma QueryInjective(dir: Direction, u: string, v: string)
    requires Query(dir, u) == Query(dir, v)
    ensures u == v
  {
    QueryShape(dir, u);
    QueryShape(dir, v);
    var bu, bv := BoundTriple(dir, u), BoundTriple(dir, v);
    var off := BoundOffset(dir);
    assert |bu| == |bv|;
    assert bu == Query(dir, u)[off..off + |bu|] == bv;
    var lead := BoundProperty(dir) + " <";
    OccursInMiddle(lead, u, ">");
    OccursInMiddle(lead, v, ">");
    assert u == bu[|lead|..|lead| + |u|];
  }

  /** The citing and the cited query differ whatever the URLs: they select different
      variables. */
  lemma QueriesDiffer(u: string, v: string)
    ensures Query(Citing, u) != Query(Cited, v)
  {
    var k := |QueryHead| + 4;
    QueryShape(Citing, u);
    QueryShape(Cited, v);
    OccursAtChar(Query(Citing, u), SelectClause(Citing), 0, k);
    OccursAtChar(Query(Cited, v), SelectClause(Cited), 0, k);
    assert SelectClause(Citing)[k] == 'i';
    assert SelectClause(Cited)[k] == 'e';
  }

  // ------------------------------------------------------------ flattening

  /** One binding of the answer: variable name to the fields of its term (`value`, `type`...). */
  type Binding = map<string, map<string, string>>

  /** `result.get(var, {}).get('value', '')`. */
  function ValueOf(b: Binding, name: string): (v: string)
    ensures name !in b || "value" !in b[name] ==> v == ""
  {
    if name in b && "value" in b[name] then b[name]["value"] else ""
  }

  /** One output row: `journal`, `citation`, and the citing or cited entity. */
  datatype Row = Row(journal: string, citation: string, entity: string)

  /** The rows one journal contributes, in binding order. */
  function RowsOf(dir: Direction, journal: string, bindings: seq<Binding>): (rows: seq<Row>)
    ensures |rows| == |bindings|
    ensures forall k :: 0 <= k < |rows| ==>
      rows[k] == Row(journal, ValueOf(bindings[k], "citation"), ValueOf(bindings[k], EntityVar(dir)))
  {
    seq(|bindings|, k requires 0 <= k < |bindings| =>
      Row(journal, ValueOf(bindings[k], "citation"), ValueOf(bindings[k], EntityVar(dir))))
  }

  /** The answer for one journal: no rows for a failed query. */
  function Answer(dir: Direction, journal: string, endpoint: string -> Option<seq<Binding>>): seq<Row> {
    RowsOf(dir, journal, endpoint(Query(dir, journal)).GetOr([]))
  }

  /** The answer of every journal, as a function of the journal. */
  function Answers(dir: Direction, endpoint: string -> Option<seq<Binding>>): string -> seq<Row> {
    journal => Answer(dir, journal, endpoint)
  }

  /** The rows of a list of journals, journal by journal. */
  function Flatten(dir: Direction, journals: seq<string>, endpoint: string -> Option<seq<Binding>>): seq<Row> {
    Concat(Answers(dir, endpoint), journals)
  }

  /** `extract_citing_data` (`Citing`) and `extract_cited_data` (`Cited`): the loop building the
      rows. */
  method ExtractData(dir: Direction, journals: seq<string>, endpoint: string -> Option<seq<Binding>>)
    returns (rows: seq<Row>)
    ensures rows == Flatten(dir, journals, endpoint)
  {
    rows := [];
    for i := 0 to |journals|
      invariant rows == Flatten(dir, journals[..i], endpoint)
    {
      ConcatPrefix(Answers(dir, endpoint), journals, i);
      assert Answers(dir, endpoint)(journals[i]) == Answer(dir, journals[i], endpoint);
      rows := ExtractJournal(dir, journals[i], endpoint(Query(dir, journals[i])), rows);
    }
    assert journals[..|journals|] == journals;
  }

  /** One iteration of the journal loop, given what the endpoint answered: the rows of every
      binding, appended in binding order; nothing when the query failed or found nothing. */
  method ExtractJournal(dir: Direction, journal: string, results: Option<seq<Binding>>, before: seq<Row>)
    returns (rows: seq<Row>)
    ensures rows == before + RowsOf(dir, journal, results.GetOr([]))
  {
    rows := before;
    if results.Some? && results.value != [] {
      var bindings := results.value;
      for j := 0 to |bindings|
        invariant rows == before + RowsOf(dir, journal, bindings[..j])
      {
        var b := bindings[j];
        assert RowsOf(dir, journal, bindings[..j + 1])
          == RowsOf(dir, journal, bindings[..j]) + [Row(journal, ValueOf(b, "citation"), ValueOf(b, EntityVar(dir)))];
        rows := rows + [Row(journal, ValueOf(b, "citation"), ValueOf(b, EntityVar(dir)))];
      }
      assert bindings[..|bindings|] == bindings;
    } else {
      assert RowsOf(dir, journal, results.GetOr([])) == [];
    }
  }

  /** Rows come journal by journal, in input order. */
  lemma FlattenAppend(dir: Direction, a: seq<string>, b: seq<string>, endpoint: string -> Option<seq<Binding>>)
    ensures Flatten(dir, a + b, endpoint) == Flatten(dir, a, endpoint) + Flatten(dir, b, endpoint)
  {
    ConcatAppend(Answers(dir, endpoint), a, b);
  }

  /** Every row names a journal that was queried, and its fields come from one binding of that
      journal's answer; a failed or empty answer gives no row. */
  lemma FlattenRows(dir: Direction, journals: seq<string>, endpoint: string -> Option<seq<Binding>>, row: Row)
    ensures row in Flatten(dir, journals, endpoint) <==>
      exists i, k :: 0 <= i < |journals| && 0 <= k < |endpoint(Query(dir, journals[i])).GetOr([])|
        && var b := endpoint(Query(dir, journals[i])).GetOr([])[k];
        row == Row(journals[i], ValueOf(b, "citation"), ValueOf(b, EntityVar(dir)))
  {
    ConcatMembership(Answers(dir, endpoint), journals, row);
    if row in Flatten(dir, journals, endpoint) {
      var i :| 0 <= i < |journals| && row in Answers(dir, endpoint)(journals[i]);
      var rows := Answer(dir, journals[i], endpoint);
      var k :| 0 <= k < |rows| && rows[k] == row;
    }
    if exists i, k :: 0 <= i < |journals| && 0 <= k < |endpoint(Query(dir, journals[i])).GetOr([])|
        && var b := endpoint(Query(dir, journals[i])).GetOr([])[k];
        row == Row(journals[i], ValueOf(b, "citation"), ValueOf(b, EntityVar(dir)))
    {
      var i, k :| 0 <= i < |journals| && 0 <= k < |endpoint(Query(dir, journals[i])).GetOr([])|
        && var b := endpoint(Query(dir, journals[i])).GetOr([])[k];
        row == Row(journals[i], ValueOf(b, "citation"), ValueOf(b, EntityVar(dir)));
      assert Answer(dir, journals[i], endpoint)[k] == row;
    }
  }

  /** The total number of bindings over all journals. */
  function BindingCount(dir: Direction, journals: seq<string>, endpoint: string -> Option<seq<Binding>>): nat
    decreases |journals|
  {
    if journals == [] then 0
    else
      BindingCount(dir, journals[..|journals| - 1], endpoint)
        + |endpoint(Query(dir, journals[|journals| - 1])).GetOr([])|
  }

  /** One row per binding. */
  lemma {:induction false} FlattenCount(dir: Direction, journals: seq<string>, endpoint: string -> Option<seq<Binding>>)
    ensures |Flatten(dir, journals, endpoint)| == BindingCount(dir, journals, endpoint)
    decreases |journals|
  {
    if journals != [] {
      FlattenCount(dir, journals[..|journals| - 1], endpoint);
    }
  }

  // ------------------------------------------------------------ outer merge

  /** The two columns a table adds besides `journal`. */
  datatype Pair = Pair(citation: string, entity: string)

  /** One row of the merged table; a side is `None` where the other table had no row for the
      journal (pandas writes empty cells there). */
  datatype Merged = Merged(journal: string, citing: Option<Pair>, cited: Option<Pair>)

  function PairOf(r: Row): Pair {
    Pair(r.citation, r.entity)
  }

  /** The rows of `t` with the given journal, in order. */
  function Matching(t: seq<Row>, journal: string): (m: seq<Row>)
    ensures forall k :: 0 <= k < |m| ==> m[k].journal == journal
    ensures |m| <= |t|
    decreases |t|
  {
    if t == [] then []
    else (if t[0].journal == journal then [t[0]] else []) + Matching(t[1..], journal)
  }

  /** The merged rows of one left row: paired with every right row of its journal, or alone. */
  function Combine(l: Row, right: seq<Row>): (c: seq<Merged>)
    ensures forall k :: 0 <= k < |c| ==> c[k].journal == l.journal
  {
    var m := Matching(right, l.journal);
    if m == [] then [Merged(l.journal, Some(PairOf(l)), None)]
    else seq(|m|, k requires 0 <= k < |m| => Merged(l.journal, Some(PairOf(l)), Some(PairOf(m[k]))))
  }

  function LeftPart(left: seq<Row>, right: seq<Row>): seq<Merged>
    decreases |left|
  {
    if left == [] then [] else Combine(left[0], right) + LeftPart(left[1..], right)
  }

  /** The right rows whose journal the left table lacks, alone. */
  function RightOnly(left: seq<Row>, right: seq<Row>): seq<Merged>
    decreases |right|
  {
    if right == [] then []
    else
      (if Matching(left, right[0].journal) == [] then [Merged(right[0].journal, None, Some(PairOf(right[0])))] else [])
        + RightOnly(left, right[1..])
  }

  /** `pd.merge(citing_df, cited_df, on="journal", how="outer")`, up to row order. */
  function Merge(left: seq<Row>, right: seq<Row>): (r: seq<Merged>)
    ensures |r| >= |left|
  {
    LeftPartLength(left, right);
    LeftPart(left, right) + RightOnly(left, right)
  }

  /** Every left row gives at least one merged row. */
  lemma {:induction false} LeftPartLength(left: seq<Row>, right: seq<Row>)
    ensures |LeftPart(left, right)| >= |left|
    decreases |left|
  {
    if left != [] {
      LeftPartLength(left[1..], right);
    }
  }

  /** The number of merged rows with the given journal. */
  function MergedCount(s: seq<Merged>, journal: string): nat
    decreases |s|
  {
    if s == [] then 0 else (if s[0].journal == journal then 1 else 0) + MergedCount(s[1..], journal)
  }

  lemma {:induction false} MergedCountAppend(a: seq<Merged>, b: seq<Merged>, journal: string)
    ensures MergedCount(a + b, journal) == MergedCount(a, journal) + MergedCount(b, journal)
    decreases |a|
  {
    if a == [] {
      assert a + b == b;
    } else {
      assert (a + b)[1..] == a[1..] + b;
      MergedCountAppend(a[1..], b, journal);
    }
  }

  lemma {:induction false} MergedCountUniform(s: seq<Merged>, x: string, journal: string)
    requires forall k :: 0 <= k < |s| ==> s[k].journal == x
    ensures MergedCount(s, journal) == if x == journal then |s| else 0
    decreases |s|
  {
    if s != [] {
      MergedCountUniform(s[1..], x, journal);
    }
  }

  lemma {:induction false} LeftPartCount(left: seq<Row>, right: seq<Row>, journal: string)
    ensures MergedCount(LeftPart(left, right), journal) ==
      |Matching(left, journal)| * (if Matching(right, journal) == [] then 1 else |Matching(right, journal)|)
    decreases |left|
  {
    if left != [] {
      var x := if Matching(right, journal) == [] then 1 else |Matching(right, journal)|;
      var a := |Matching(left[1..], journal)|;
      assert (a + 1) * x == a * x + x;
      LeftPartCount(left[1..], right, journal);
      MergedCountAppend(Combine(left[0], right), LeftPart(left[1..], right), journal);
      MergedCountUniform(Combine(left[0], right), left[0].journal, journal);
    }
  }

  lemma {:induction false} RightOnlyCount(left: seq<Row>, right: seq<Row>, journal: string)
    ensures MergedCount(RightOnly(left, right), journal) ==
      if Matching(left, journal) == [] then |Matching(right, journal)| else 0
    decreases |right|
  {
    if right != [] {
      RightOnlyCount(left, right[1..], journal);
      var head := if Matching(left, right[0].journal) == [] then [Merged(right[0].journal, None, Some(PairOf(right[0])))] else [];
      MergedCountAppend(head, RightOnly(left, right[1..]), journal);
    }
  }

  /** A journal with `a` rows on the left and `b` on the right has `a * b` merged rows when both
      are positive, and otherwise keeps the rows of the side that has it. */
  lemma MergeCount(left: seq<Row>, right: seq<Row>, journal: string)
    ensures var a, b := |Matching(left, journal)|, |Matching(right, journal)|;
      MergedCount(Merge(left, right), journal) == if a > 0 && b > 0 then a * b else a + b
  {
    LeftPartCount(left, right, journal);
    RightOnlyCount(left, right, journal);
    MergedCountAppend(LeftPart(left, right), RightOnly(left, right), journal);
  }

  /** A journal appears in the merged table iff it appears in either table. */
  lemma MergeCoversBoth(left: seq<Row>, right: seq<Row>, journal: string)
    ensures MergedCount(Merge(left, right), journal) > 0 <==>
      Matching(left, journal) != [] || Matching(right, journal) != []
  {
    MergeCount(left, right, journal);
    var a, b := |Matching(left, journal)|, |Matching(right, journal)|;
    if a > 0 && b > 0 {
      ProductPositive(a, b);
    }
  }

  lemma ProductPositive(a: nat, b: nat)
    requires a > 0 && b > 0
    ensures a * b > 0
  {
  }

  lemma {:induction false} LeftPartSides(left: seq<Row>, right: seq<Row>, m: Merged)
    requires m in LeftPart(left, right)
    ensures m.citing.Some? && Matching(left, m.journal) != []
    ensures m.cited.None? <==> Matching(right, m.journal) == []
    decreases |left|
  {
    if m in Combine(left[0], right) {
      assert m.journal == left[0].journal;
      assert Matching(left, m.journal) != [];
    } else {
      LeftPartSides(left[1..], right, m);
      assert Matching(left, m.journal) == (if left[0].journal == m.journal then [left[0]] else []) + Matching(left[1..], m.journal);
    }
  }

  lemma {:induction false} RightOnlySides(left: seq<Row>, right: seq<Row>, m: Merged)
    requires m in RightOnly(left, right)
    ensures m.citing.None? && m.cited.Some?
    ensures Matching(left, m.journal) == [] && Matching(right, m.journal) != []
    decreases |right|
  {
    if m != Merged(right[0].journal, None, Some(PairOf(right[0]))) || Matching(left, right[0].journal) != [] {
      RightOnlySides(left, right[1..], m);
    }
  }

  /** A merged row lacks a side exactly when that table has no row for its journal, and a side
      it has holds the columns of a row of that table with the same journal. */
  lemma MergeSides(left: seq<Row>, right: seq<Row>, m: Merged)
    requires m in Merge(left, right)
    ensures m.citing.None? <==> Matching(left, m.journal) == []
    ensures m.cited.None? <==> Matching(right, m.journal) == []
    ensures m.citing.Some? ==> exists l :: l in left && l.journal == m.journal && m.citing.value == PairOf(l)
    ensures m.cited.Some? ==> exists r :: r in right && r.journal == m.journal && m.cited.value == PairOf(r)
  {
    if m in LeftPart(left, right) {
      LeftPartSides(left, right, m);
    } else {
      RightOnlySides(left, right, m);
    }
    MergeMembership(left, right, m);
  }

  /** A row is picked iff it is in the table and has the journal. */
  lemma {:induction false} MatchingMembership(t: seq<Row>, journal: string, r: Row)
    ensures r in Matching(t, journal) <==> r in t && r.journal == journal
    decreases |t|
  {
    if t != [] {
      MatchingMembership(t[1..], journal, r);
      assert t == [t[0]] + t[1..];
    }
  }

  /** A left row's merged rows: its pairing with each right row of its journal, or the row
      alone when the right table lacks the journal. */
  lemma CombineMembership(l: Row, right: seq<Row>, m: Merged)
    ensures m in Combine(l, right) <==>
      (exists r :: r in right && r.journal == l.journal && m == Merged(l.journal, Some(PairOf(l)), Some(PairOf(r))))
      || (Matching(right, l.journal) == [] && m == Merged(l.journal, Some(PairOf(l)), None))
  {
    var picked := Matching(right, l.journal);
    if picked == [] {
      forall r | r in right && r.journal == l.journal ensures false {
        MatchingMembership(right, l.journal, r);
      }
    } else {
      var c := Combine(l, right);
      if m in c {
        var k :| 0 <= k < |c| && c[k] == m;
        MatchingMembership(right, l.journal, picked[k]);
      }
      if exists r :: r in right && r.journal == l.journal && m == Merged(l.journal, Some(PairOf(l)), Some(PairOf(r))) {
        var r :| r in right && r.journal == l.journal && m == Merged(l.journal, Some(PairOf(l)), Some(PairOf(r)));
        MatchingMembership(right, l.journal, r);
        var k :| 0 <= k < |picked| && picked[k] == r;
        assert c[k] == m;
      }
    }
  }

  /** The left part holds exactly the merged rows of its left rows. */
  lemma {:induction false} LeftPartMembership(left: seq<Row>, right: seq<Row>, m: Merged)
    ensures m in LeftPart(left, right) <==> exists l :: l in left && m in Combine(l, right)
    decreases |left|
  {
    if left != [] {
      LeftPartMembership(left[1..], right, m);
      assert left == [left[0]] + left[1..];
    }
  }

  /** The right-only part holds exactly the right rows whose journal the left table lacks. */
  lemma {:induction false} RightOnlyMembership(left: seq<Row>, right: seq<Row>, m: Merged)
    ensures m in RightOnly(left, right) <==>
      exists r :: r in right && Matching(left, r.journal) == [] && m == Merged(r.journal, None, Some(PairOf(r)))
    decreases |right|
  {
    if right != [] {
      RightOnlyMembership(left, right[1..], m);
      assert right == [right[0]] + right[1..];
    }
  }

  /** The outer join: a merged row is a left and a right row of the same journal paired, or a
      row of one side, with its own columns, whose journal the other side lacks. */
  lemma MergeMembership(left: seq<Row>, right: seq<Row>, m: Merged)
    ensures m in Merge(left, right) <==>
      (exists l, r :: l in left && r in right && l.journal == r.journal
        && m == Merged(l.journal, Some(PairOf(l)), Some(PairOf(r))))
      || (exists l :: l in left && Matching(right, l.journal) == [] && m == Merged(l.journal, Some(PairOf(l)), None))
      || (exists r :: r in right && Matching(left, r.journal) == [] && m == Merged(r.journal, None, Some(PairOf(r))))
  {
    LeftPartMembership(left, right, m);
    RightOnlyMembership(left, right, m);
    if m in LeftPart(left, right) {
      var l :| l in left && m in Combine(l, right);
      CombineMembership(l, right, m);
    }
    if exists l, r :: l in left && r in right && l.journal == r.journal
        && m == Merged(l.journal, Some(PairOf(l)), Some(PairOf(r))) {
      var l, r :| l in left && r in right && l.journal == r.journal
        && m == Merged(l.journal, Some(PairOf(l)), Some(PairOf(r)));
      CombineMembership(l, right, m);
    }
    if exists l :: l in left && Matching(right, l.journal) == [] && m == Merged(l.journal, Some(PairOf(l)), None) {
      var l :| l in left && Matching(right, l.journal) == [] && m == Merged(l.journal, Some(PairOf(l)), None);
      CombineMembership(l, right, m);
    }
  }

  /** The merged rows with the given journal, in order. */
  function OfJournal(s: seq<Merged>, journal: string): seq<Merged>
    decreases |s|
  {
    if s == [] then [] else (if s[0].journal == journal then [s[0]] else []) + OfJournal(s[1..], journal)
  }

  lemma {:induction false} OfJournalAppend(a: seq<Merged>, b: seq<Merged>, journal: string)
    ensures OfJournal(a + b, journal) == OfJournal(a, journal) + OfJournal(b, journal)
    decreases |a|
  {
    if a == [] {
      assert a + b == b;
    } else {
      assert (a + b)[1..] == a[1..] + b;
      OfJournalAppend(a[1..], b, journal);
    }
  }

  lemma {:induction false} OfJournalUniform(s: seq<Merged>, x: string, journal: string)
    requires forall k :: 0 <= k < |s| ==> s[k].journal == x
    ensures OfJournal(s, journal) == if x == journal then s else []
    decreases |s|
  {
    if s != [] {
      OfJournalUniform(s[1..], x, journal);
      assert s == [s[0]] + s[1..];
    }
  }

  /** The left part's rows of a journal are those of the journal's left rows alone. */
  lemma {:induction false} LeftPartOfJournal(left: seq<Row>, right: seq<Row>, journal: string)
    ensures OfJournal(LeftPart(left, right), journal) == LeftPart(Matching(left, journal), right)
    decreases |left|
  {
    if left != [] {
      var head := Combine(left[0], right);
      var rest := Matching(left[1..], journal);
      LeftPartOfJournal(left[1..], right, journal);
      OfJournalAppend(head, LeftPart(left[1..], right), journal);
      OfJournalUniform(head, left[0].journal, journal);
      if left[0].journal == journal {
        var picked := [left[0]] + rest;
        assert Matching(left, journal) == picked;
        assert picked[0] == left[0] && picked[1..] == rest;
        assert LeftPart(picked, right) == head + LeftPart(rest, right);
      } else {
        assert Matching(left, journal) == [] + rest;
        assert [] + rest == rest;
      }
    }
  }

  /** The right-only rows of a journal: each right row of the journal alone, when the left
      table lacks it. */
  lemma {:induction false} RightOnlyOfJournal(left: seq<Row>, right: seq<Row>, journal: string)
    ensures OfJournal(RightOnly(left, right), journal) ==
      if Matching(left, journal) == [] then RightOnly([], Matching(right, journal)) else []
    decreases |right|
  {
    if right != [] {
      var r := right[0];
      var head := if Matching(left, r.journal) == [] then [Merged(r.journal, None, Some(PairOf(r)))] else [];
      RightOnlyOfJournal(left, right[1..], journal);
      OfJournalAppend(head, RightOnly(left, right[1..]), journal);
      OfJournalUniform(head, r.journal, journal);
      if r.journal == journal {
        var picked := [r] + Matching(right[1..], journal);
        assert Matching(right, journal) == picked;
        if Matching(left, journal) == [] {
          assert picked[0] == r && picked[1..] == Matching(right[1..], journal);
          assert RightOnly([], picked) == [Merged(r.journal, None, Some(PairOf(r)))] + RightOnly([], picked[1..]);
        }
      } else {
        assert Matching(right, journal) == [] + Matching(right[1..], journal);
        assert [] + Matching(right[1..], journal) == Matching(right[1..], journal);
      }
    }
  }

  /** The outer join, journal by journal: for each left row of the journal, in order, its
      pairing with every right row of the journal, in order, or the left row alone when the
      right table lacks the journal; then, when the left table lacks the journal, every right
      row of it alone. */
  lemma MergeOfJournal(left: seq<Row>, right: seq<Row>, journal: string)
    ensures OfJournal(Merge(left, right), journal) ==
      LeftPart(Matching(left, journal), right)
        + (if Matching(left, journal) == [] then RightOnly([], Matching(right, journal)) else [])
  {
    OfJournalAppend(LeftPart(left, right), RightOnly(left, right), journal);
    LeftPartOfJournal(left, right, journal);
    RightOnlyOfJournal(left, right, journal);
  }

  /** One row on each side for a journal gives exactly one merged row. */
  lemma OneRowEach(l: Row, r: Row)
    requires l.journal == r.journal
    ensures Merge([l], [r]) == [Merged(l.journal, Some(PairOf(l)), Some(PairOf(r)))]
  {
    assert Matching([r], l.journal) == [r];
    assert Matching([l], r.journal) == [l];
    assert Combine(l, [r]) == [Merged(l.journal, Some(PairOf(l)), Some(PairOf(r)))];
    assert LeftPart([l], [r]) == Combine(l, [r]) + LeftPart([], [r]);
    assert RightOnly([l], [r]) == [] + RightOnly([l], []);
  }
}
