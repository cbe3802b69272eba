/**
 * `query_catalog`: build one predicate per given criterion, filter the
 * catalog rows by each in turn, and turn every surviving row into item
 * metadata. The tag criterion is written in the source as a loop that
 * creates one closure per tag pair, each reading the loop variables when
 * the lazy frame is collected; `BuildPredicatesAsWritten` models that and
 * `BuildPredicates` the per-pair test the tag filter is meant to apply.
 */
module Query {
  import opened Wrappers
  import opened Dicts
  import opened Identity
  import opened Catalog
  import Json

  /** The keyword arguments of `query_catalog`; `None` leaves a criterion out. */
  datatype QueryFilter = QueryFilter(
    name: Option<string>,
    itemType: Option<ItemType>,
    createdLower: Option<int>,
    createdUpper: Option<int>,
    updatedLower: Option<int>,
    updatedUpper: Option<int>,
    tagFilter: Option<Dict>)

  /** The tag pairs a filter asks for: `if tag_filter:` skips both `None` and an empty dict. */
  function TagPairs(f: QueryFilter): Dict
  {
    if f.tagFilter.Some? then f.tagFilter.value else []
  }

  /**
   * One polars predicate. `TagCell` is a closure over the loop variables
   * `k` and `v`: it is evaluated with whatever pair they hold at collection
   * time.
   */
  datatype Predicate =
    | NameIs(name: string)
    | TypeIs(itemType: ItemType)
    | CreatedAtLeast(bound: int)
    | CreatedAtMost(bound: int)
    | UpdatedAtLeast(bound: int)
    | UpdatedAtMost(bound: int)
    | TagIs(key: string, value: string)
    | TagCell

  /** `json.loads(tags).get(k)`: the value stored under `k`, if the tags read back and hold it. */
  function TagLookup(tagsText: string, k: string): Option<string>
  {
    match Json.Decode(tagsText)
    case None => None
    case Some(d) => if k in ToMap(d) then Some(ToMap(d)[k]) else None
  }

  predicate Eval(p: Predicate, row: Row, cell: Pair)
  {
    match p
    case NameIs(n) => row.name == n
    case TypeIs(t) => row.itemType == t
    case CreatedAtLeast(b) => row.createdAt >= b
    case CreatedAtMost(b) => row.createdAt <= b
    case UpdatedAtLeast(b) => row.updatedAt >= b
    case UpdatedAtMost(b) => row.updatedAt <= b
    case TagIs(k, v) => TagLookup(row.tags, k) == Some(v)
    case TagCell => TagLookup(row.tags, cell.0) == Some(cell.1)
  }

  predicate AllHold(ps: seq<Predicate>, row: Row, cell: Pair)
  {
    forall i :: 0 <= i < |ps| ==> Eval(ps[i], row, cell)
  }

  predicate NameOk(f: QueryFilter, row: Row) { f.name.None? || row.name == f.name.value }
  predicate TypeOk(f: QueryFilter, row: Row) { f.itemType.None? || row.itemType == f.itemType.value }
  predicate CreatedLowerOk(f: QueryFilter, row: Row) { f.createdLower.None? || row.createdAt >= f.createdLower.value }
  predicate CreatedUpperOk(f: QueryFilter, row: Row) { f.createdUpper.None? || row.createdAt <= f.createdUpper.value }
  predicate UpdatedLowerOk(f: QueryFilter, row: Row) { f.updatedLower.None? || row.updatedAt >= f.updatedLower.value }
  predicate UpdatedUpperOk(f: QueryFilter, row: Row) { f.updatedUpper.None? || row.updatedAt <= f.updatedUpper.value }

  /** The criteria other than tags. */
  predicate MatchesFields(f: QueryFilter, row: Row)
  {
    NameOk(f, row) && TypeOk(f, row) && CreatedLowerOk(f, row) && CreatedUpperOk(f, row) &&
    UpdatedLowerOk(f, row) && UpdatedUpperOk(f, row)
  }

  /** Every pair of the tag filter is among the row's tags: subset match. */
  predicate HasTags(row: Row, pairs: seq<Pair>)
  {
    forall i :: 0 <= i < |pairs| ==> TagLookup(row.tags, pairs[i].0) == Some(pairs[i].1)
  }

  /** What a query promises: every given criterion holds, and the tag filter is a subset of the row's tags. */
  predicate MatchesFilter(f: QueryFilter, row: Row)
  {
    MatchesFields(f, row) && HasTags(row, TagPairs(f))
  }

  /** What the late-bound closures test: only the last pair of the tag filter. */
  predicate MatchesFilterLastTag(f: QueryFilter, row: Row)
  {
    var pairs := TagPairs(f);
    MatchesFields(f, row) && (|pairs| == 0 || HasTags(row, pairs[|pairs| - 1..]))
  }

  lemma AllHoldSnocAt(ps: seq<Predicate>, p: Predicate, row: Row, cell: Pair)
    ensures AllHold(ps + [p], row, cell) <==> AllHold(ps, row, cell) && Eval(p, row, cell)
  {
    assert forall i :: 0 <= i < |ps| ==> (ps + [p])[i] == ps[i];
    assert (ps + [p])[|ps|] == p;
  }

  lemma AllHoldSnoc(ps: seq<Predicate>, p: Predicate)
    ensures forall row, cell :: AllHold(ps + [p], row, cell) <==> AllHold(ps, row, cell) && Eval(p, row, cell)
  {
    forall row, cell ensures AllHold(ps + [p], row, cell) <==> AllHold(ps, row, cell) && Eval(p, row, cell) {
      AllHoldSnocAt(ps, p, row, cell);
    }
  }

  /** The predicates for every criterion other than tags, in the source's order. */
  method FieldPredicates(f: QueryFilter) returns (ps: seq<Predicate>)
    ensures forall row, cell :: AllHold(ps, row, cell) <==> MatchesFields(f, row)
  {
    ps := [];
    if f.name.Some? {
      AllHoldSnoc(ps, NameIs(f.name.value));
      ps := ps + [NameIs(f.name.value)];
    }
    assert forall row, cell :: AllHold(ps, row, cell) <==> NameOk(f, row);
    if f.itemType.Some? {
      AllHoldSnoc(ps, TypeIs(f.itemType.value));
      ps := ps + [TypeIs(f.itemType.value)];
    }
    assert forall row, cell :: AllHold(ps, row, cell) <==> NameOk(f, row) && TypeOk(f, row);
    if f.createdLower.Some? {
      AllHoldSnoc(ps, CreatedAtLeast(f.createdLower.value));
      ps := ps + [CreatedAtLeast(f.createdLower.value)];
    }
    assert forall row, cell :: AllHold(ps, row, cell) <==> NameOk(f, row) && TypeOk(f, row) && CreatedLowerOk(f, row);
    if f.createdUpper.Some? {
      AllHoldSnoc(ps, CreatedAtMost(f.createdUpper.value));
      ps := ps + [CreatedAtMost(f.createdUpper.value)];
    }
    assert forall row, cell :: AllHold(ps, row, cell) <==>
      NameOk(f, row) && TypeOk(f, row) && CreatedLowerOk(f, row) && CreatedUpperOk(f, row);
    if f.updatedLower.Some? {
      AllHoldSnoc(ps, UpdatedAtLeast(f.updatedLower.value));
      ps := ps + [UpdatedAtLeast(f.updatedLower.value)];
    }
    assert forall row, cell :: AllHold(ps, row, cell) <==>
      NameOk(f, row) && TypeOk(f, row) && CreatedLowerOk(f, row) && CreatedUpperOk(f, row) && UpdatedLowerOk(f, row);
    if f.updatedUpper.Some? {
      AllHoldSnoc(ps, UpdatedAtMost(f.updatedUpper.value));
      ps := ps + [UpdatedAtMost(f.updatedUpper.value)];
    }
  }

  /** `n` closures that each test the pair in the loop cell. */
  function Cells(n: nat): (ps: seq<Predicate>)
  {
    seq(n, i => TagCell)
  }

  /** One test per tag pair, each with its own pair bound. */
  function TagTests(pairs: seq<Pair>): (ps: seq<Predicate>)
  {
    seq(|pairs|, i requires 0 <= i < |pairs| => TagIs(pairs[i].0, pairs[i].1))
  }

  lemma AllHoldAppend(base: seq<Predicate>, more: seq<Predicate>, row: Row, cell: Pair)
    ensures AllHold(base + more, row, cell) <==> AllHold(base, row, cell) && AllHold(more, row, cell)
  {
    var ps := base + more;
    assert forall i :: 0 <= i < |base| ==> ps[i] == base[i];
    assert forall j :: 0 <= j < |more| ==> ps[|base| + j] == more[j];
    if AllHold(ps, row, cell) {
      forall j | 0 <= j < |more| ensures Eval(more[j], row, cell) {
        assert Eval(ps[|base| + j], row, cell);
      }
    }
  }

  lemma AllHoldCells(n: nat, row: Row, cell: Pair)
    ensures AllHold(Cells(n), row, cell) <==> n == 0 || TagLookup(row.tags, cell.0) == Some(cell.1)
  {
    if n > 0 {
      assert Cells(n)[0] == TagCell;
    }
  }

  lemma AllHoldTagTests(pairs: seq<Pair>, row: Row, cell: Pair)
    ensures AllHold(TagTests(pairs), row, cell) <==> HasTags(row, pairs)
  {
    var ps := TagTests(pairs);
    if AllHold(ps, row, cell) {
      forall i | 0 <= i < |pairs| ensures TagLookup(row.tags, pairs[i].0) == Some(pairs[i].1) {
        assert Eval(ps[i], row, cell);
      }
    }
  }

  /**
   * The predicate list as the source builds it: one closure per tag pair,
   * each reading the loop cell. Returns the list and the pair the cell
   * holds when the loop ends, which is what every closure then tests.
   */
  method BuildPredicatesAsWritten(f: QueryFilter) returns (ps: seq<Predicate>, cell: Pair)
    ensures forall row :: AllHold(ps, row, cell) <==> MatchesFilterLastTag(f, row)
  {
    var base := FieldPredicates(f);
    ps := base;
    cell := ("", "");
    var pairs := TagPairs(f);
    var i := 0;
    assert base + Cells(0) == base;
    while i < |pairs|
      invariant 0 <= i <= |pairs|
      invariant i > 0 ==> cell == pairs[i - 1]
      invariant ps == base + Cells(i)
    {
      cell := pairs[i];
      assert Cells(i + 1) == Cells(i) + [TagCell];
      ps := ps + [TagCell];
      i := i + 1;
    }
    forall row ensures AllHold(ps, row, cell) <==> MatchesFilterLastTag(f, row) {
      AllHoldAppend(base, Cells(i), row, cell);
      AllHoldCells(i, row, cell);
      if |pairs| > 0 {
        assert pairs[|pairs| - 1..] == [cell];
      }
    }
  }

  /** The predicate list with each tag pair bound into its own test. */
  method BuildPredicates(f: QueryFilter) returns (ps: seq<Predicate>)
    ensures forall row, cell :: AllHold(ps, row, cell) <==> MatchesFilter(f, row)
  {
    var base := FieldPredicates(f);
    ps := base;
    var pairs := TagPairs(f);
    var i := 0;
    assert base + TagTests(pairs[..0]) == base;
    while i < |pairs|
      invariant 0 <= i <= |pairs|
      invariant ps == base + TagTests(pairs[..i])
    {
      var (k, v) := pairs[i];
      assert TagTests(pairs[..i + 1]) == TagTests(pairs[..i]) + [TagIs(k, v)];
      ps := ps + [TagIs(k, v)];
      i := i + 1;
    }
    assert pairs[..i] == pairs;
    forall row, cell ensures AllHold(ps, row, cell) <==> MatchesFilter(f, row) {
      AllHoldAppend(base, TagTests(pairs), row, cell);
      AllHoldTagTests(pairs, row, cell);
    }
  }

  /** `lf.filter(p)`: the rows `p` holds for, in row order. */
  function Keep(rows: seq<Row>, p: Predicate, cell: Pair): seq<Row>
  {
    if |rows| == 0 then [] else (if Eval(p, rows[0], cell) then [rows[0]] else []) + Keep(rows[1..], p, cell)
  }

  /** A filtered frame holds exactly the rows of the frame the predicate holds for. */
  lemma {:induction false} KeepMembers(rows: seq<Row>, p: Predicate, cell: Pair)
    ensures forall x :: x in Keep(rows, p, cell) <==> x in rows && Eval(p, x, cell)
  {
    if |rows| > 0 {
      KeepMembers(rows[1..], p, cell);
      assert rows == [rows[0]] + rows[1..];
    }
  }

  /** The rows all of `ps` hold for, in row order. */
  function Select(rows: seq<Row>, ps: seq<Predicate>, cell: Pair): seq<Row>
  {
    if |rows| == 0 then [] else (if AllHold(ps, rows[0], cell) then [rows[0]] else []) + Select(rows[1..], ps, cell)
  }

  /** The selected rows are exactly the rows all of `ps` hold for. */
  lemma {:induction false} SelectMembers(rows: seq<Row>, ps: seq<Predicate>, cell: Pair)
    ensures forall x :: x in Select(rows, ps, cell) <==> x in rows && AllHold(ps, x, cell)
  {
    if |rows| > 0 {
      SelectMembers(rows[1..], ps, cell);
      assert rows == [rows[0]] + rows[1..];
    }
  }

  /** The rows a query promises, in row order. */
  function Matching(rows: seq<Row>, f: QueryFilter): (r: seq<Row>)
    ensures forall x :: x in r <==> x in rows && MatchesFilter(f, x)
  {
    if |rows| == 0 then []
    else
      assert rows == [rows[0]] + rows[1..];
      (if MatchesFilter(f, rows[0]) then [rows[0]] else []) + Matching(rows[1..], f)
  }

  /** The rows the query as written returns, in row order: the tag closures test only the last pair. */
  function MatchingLastTag(rows: seq<Row>, f: QueryFilter): (r: seq<Row>)
    ensures forall x :: x in r <==> x in rows && MatchesFilterLastTag(f, x)
  {
    if |rows| == 0 then []
    else
      assert rows == [rows[0]] + rows[1..];
      (if MatchesFilterLastTag(f, rows[0]) then [rows[0]] else []) + MatchingLastTag(rows[1..], f)
  }

  /** Every row the query promises is among the rows the query as written returns. */
  lemma MatchingWithinLastTag(rows: seq<Row>, f: QueryFilter)
    ensures forall x :: x in Matching(rows, f) ==> x in MatchingLastTag(rows, f)
  {
    forall x | x in Matching(rows, f) ensures x in MatchingLastTag(rows, f) {
      LastTagWeaker(f, x);
    }
  }

  /** With at most one tag pair the query as written returns exactly the rows it promises. */
  lemma {:induction false} MatchingLastTagAgrees(rows: seq<Row>, f: QueryFilter)
    requires |TagPairs(f)| <= 1
    ensures MatchingLastTag(rows, f) == Matching(rows, f)
  {
    if |rows| > 0 {
      LastTagAgrees(f, rows[0]);
      MatchingLastTagAgrees(rows[1..], f);
    }
  }

  /** Filtering by one more predicate narrows the conjunction by it. */
  lemma {:induction false} KeepSelect(rows: seq<Row>, ps: seq<Predicate>, p: Predicate, cell: Pair)
    ensures Keep(Select(rows, ps, cell), p, cell) == Select(rows, ps + [p], cell)
  {
    if |rows| > 0 {
      KeepSelect(rows[1..], ps, p, cell);
      var x := rows[0];
      assert AllHold(ps + [p], x, cell) <==> AllHold(ps, x, cell) && Eval(p, x, cell) by {
        assert forall i :: 0 <= i < |ps| ==> (ps + [p])[i] == ps[i];
        assert (ps + [p])[|ps|] == p;
      }
      var s := Select(rows[1..], ps, cell);
      if AllHold(ps, x, cell) {
        assert Select(rows, ps, cell) == [x] + s;
        assert ([x] + s)[0] == x && ([x] + s)[1..] == s;
        assert Keep([x] + s, p, cell) == (if Eval(p, x, cell) then [x] else []) + Keep(s, p, cell);
      } else {
        assert Select(rows, ps, cell) == s;
      }
    }
  }

  /** The predicates `ps` and a test `P` hold for the same rows; then selecting by `ps` gives the rows `P` promises. */
  lemma {:induction false} SelectMatching(rows: seq<Row>, ps: seq<Predicate>, cell: Pair, f: QueryFilter)
    requires forall row :: AllHold(ps, row, cell) <==> MatchesFilter(f, row)
    ensures Select(rows, ps, cell) == Matching(rows, f)
  {
    if |rows| > 0 {
      SelectMatching(rows[1..], ps, cell, f);
    }
  }

  /** The same, for predicates that hold exactly when the late-bound test does. */
  lemma {:induction false} SelectMatchingLastTag(rows: seq<Row>, ps: seq<Predicate>, cell: Pair, f: QueryFilter)
    requires forall row :: AllHold(ps, row, cell) <==> MatchesFilterLastTag(f, row)
    ensures Select(rows, ps, cell) == MatchingLastTag(rows, f)
  {
    if |rows| > 0 {
      SelectMatchingLastTag(rows[1..], ps, cell, f);
    }
  }

  /** `for p in predicates: lf = lf.filter(p)`: the rows every predicate holds for, in row order. */
  method ApplyFilters(rows: seq<Row>, ps: seq<Predicate>, cell: Pair) returns (out: seq<Row>)
    ensures out == Select(rows, ps, cell)
  {
    out := rows;
    var i := 0;
    assert out == Select(rows, [], cell) by {
      SelectNone(rows, cell);
    }
    while i < |ps|
      invariant 0 <= i <= |ps|
      invariant out == Select(rows, ps[..i], cell)
    {
      SelectStep(rows, ps, i, cell);
      out := Keep(out, ps[i], cell);
      i := i + 1;
    }
    assert ps[..i] == ps;
  }

  lemma SelectStep(rows: seq<Row>, ps: seq<Predicate>, i: nat, cell: Pair)
    requires i < |ps|
    ensures Keep(Select(rows, ps[..i], cell), ps[i], cell) == Select(rows, ps[..i + 1], cell)
  {
    KeepSelect(rows, ps[..i], ps[i], cell);
    assert ps[..i] + [ps[i]] == ps[..i + 1];
  }

  lemma {:induction false} SelectNone(rows: seq<Row>, cell: Pair)
    ensures Select(rows, [], cell) == rows
  {
    if |rows| > 0 {
      SelectNone(rows[1..], cell);
      assert rows == [rows[0]] + rows[1..];
    }
  }

  /** A row the results loop can turn into metadata: its tags read back and, for a table, its schema. */
  predicate Readable(row: Row)
  {
    Json.Decode(row.tags).Some? && (row.itemType == Table ==> DecodeSchema(row).Some?)
  }

  /** `meta` is the metadata the results loop builds from `row`. */
  predicate Describes(meta: ItemMetadata, row: Row)
  {
    meta.uri == row.uri && meta.name == row.name && meta.createdAt == row.createdAt &&
    meta.updatedAt == row.updatedAt && Json.Decode(row.tags) == Some(meta.tags) &&
    match row.itemType
    case Object => meta.ObjectItem?
    case Table => meta.TableItem? && DecodeSchema(row) == Some(meta.schema)
  }

  /** One row of the results loop: its metadata, or None when `json.loads` refuses its tags or schema. */
  function MetaOf(row: Row): (m: Option<ItemMetadata>)
  {
    match Json.Decode(row.tags)
    case None => None
    case Some(tags) =>
      match row.itemType
      case Object => Some(ObjectItem(row.uri, row.name, tags, row.createdAt, row.updatedAt))
      case Table =>
        match DecodeSchema(row)
        case None => None
        case Some(schema) => Some(TableItem(row.uri, row.name, tags, schema, row.createdAt, row.updatedAt))
  }

  /** A row converts exactly when it is readable, and then into metadata that describes it. */
  lemma MetaOfDescribes(row: Row)
    ensures MetaOf(row).Some? <==> Readable(row)
    ensures MetaOf(row).Some? ==> Describes(MetaOf(row).value, row)
  {
  }

  /**
   * The results loop: each row becomes `ObjectItemMetadata` or
   * `TableItemMetadata`; the first row whose tags or schema `json.loads`
   * refuses ends the query with that error.
   */
  method Materialise(rows: seq<Row>) returns (r: Result<seq<ItemMetadata>, CatalogError>)
    ensures r.Ok? <==> forall i :: 0 <= i < |rows| ==> Readable(rows[i])
    ensures r.Ok? ==> |r.value| == |rows| && forall i :: 0 <= i < |rows| ==> Describes(r.value[i], rows[i])
    ensures r.Err? ==> exists i :: 0 <= i < |rows| && !Readable(rows[i]) && r.error == CorruptRow(rows[i].uri) &&
                                   (forall j :: 0 <= j < i ==> Readable(rows[j]))
  {
    var results: seq<ItemMetadata> := [];
    var i := 0;
    while i < |rows|
      invariant 0 <= i <= |rows|
      invariant |results| == i
      invariant forall j :: 0 <= j < i ==> MetaOf(rows[j]) == Some(results[j])
    {
      var m := MetaOf(rows[i]);
      if m.None? {
        forall j | 0 <= j < i ensures Readable(rows[j]) {
          MetaOfDescribes(rows[j]);
        }
        assert !Readable(rows[i]) by { MetaOfDescribes(rows[i]); }
        return Err(CorruptRow(rows[i].uri));
      }
      results := results + [m.value];
      i := i + 1;
    }
    forall j | 0 <= j < |rows| ensures Readable(rows[j]) && Describes(results[j], rows[j]) {
      MetaOfDescribes(rows[j]);
    }
    return Ok(results);
  }

  /**
   * `query_catalog` with each tag pair tested: the metadata of exactly the
   * rows the filter matches, in row order, or the error for the first of
   * them that does not read back.
   */
  method QueryCatalog(catalog: CatalogTable, f: QueryFilter) returns (r: Result<seq<ItemMetadata>, CatalogError>)
    ensures var m := Matching(catalog.rows, f);
      (r.Ok? <==> forall i :: 0 <= i < |m| ==> Readable(m[i])) &&
      (r.Ok? ==> |r.value| == |m| && forall i :: 0 <= i < |m| ==> Describes(r.value[i], m[i])) &&
      (r.Err? ==> exists i :: 0 <= i < |m| && !Readable(m[i]) && r.error == CorruptRow(m[i].uri) &&
                              (forall j :: 0 <= j < i ==> Readable(m[j])))
  {
    var ps := BuildPredicates(f);
    var cell := ("", "");
    SelectMatching(catalog.rows, ps, cell, f);
    var selected := ApplyFilters(catalog.rows, ps, cell);
    r := Materialise(selected);
  }

  /**
   * `query_catalog` as written: the tag closures all test the last pair, so
   * the result is the metadata of the rows passing that test, which takes
   * in every row the filter matches, and possibly more.
   */
  method QueryCatalogAsWritten(catalog: CatalogTable, f: QueryFilter) returns (r: Result<seq<ItemMetadata>, CatalogError>)
    ensures var m := MatchingLastTag(catalog.rows, f);
      (r.Ok? <==> forall i :: 0 <= i < |m| ==> Readable(m[i])) &&
      (r.Ok? ==> |r.value| == |m| && forall i :: 0 <= i < |m| ==> Describes(r.value[i], m[i])) &&
      (r.Err? ==> exists i :: 0 <= i < |m| && !Readable(m[i]) && r.error == CorruptRow(m[i].uri) &&
                              (forall j :: 0 <= j < i ==> Readable(m[j])))
    ensures r.Ok? ==> forall x :: x in catalog.rows && MatchesFilter(f, x) ==> exists i :: 0 <= i < |r.value| && r.value[i].uri == x.uri
  {
    var ps, cell := BuildPredicatesAsWritten(f);
    SelectMatchingLastTag(catalog.rows, ps, cell, f);
    var selected := ApplyFilters(catalog.rows, ps, cell);
    r := Materialise(selected);
    if r.Ok? {
      forall x | x in catalog.rows && MatchesFilter(f, x)
        ensures exists i :: 0 <= i < |r.value| && r.value[i].uri == x.uri
      {
        assert x in selected by {
          LastTagWeaker(f, x);
        }
        var i :| 0 <= i < |selected| && selected[i] == x;
        assert Describes(r.value[i], selected[i]);
      }
    }
  }

  // ---------------------------------------------------------------------------
  // What the filter means.

  /** A row whose tags were stored from `d` has a tag exactly when `d` holds it. */
  lemma TagLookupStored(row: Row, d: Dict, k: string, v: string)
    requires row.tags == TagsText(d)
    ensures TagLookup(row.tags, k) == Some(v) <==> k in ToMap(d) && ToMap(d)[k] == v
  {
    TagsTextDecodes(d);
  }

  /** Subset match: a row stored with tags `d` passes the tag filter exactly when every filter pair is in `d`. */
  lemma SubsetMatch(row: Row, d: Dict, pairs: seq<Pair>)
    requires row.tags == TagsText(d)
    ensures HasTags(row, pairs) <==> forall i :: 0 <= i < |pairs| ==> pairs[i].0 in ToMap(d) && ToMap(d)[pairs[i].0] == pairs[i].1
  {
    forall i | 0 <= i < |pairs|
      ensures TagLookup(row.tags, pairs[i].0) == Some(pairs[i].1) <==> pairs[i].0 in ToMap(d) && ToMap(d)[pairs[i].0] == pairs[i].1
    {
      TagLookupStored(row, d, pairs[i].0, pairs[i].1);
    }
  }

  /** With at most one tag pair the late-bound closures test what was asked. */
  lemma LastTagAgrees(f: QueryFilter, row: Row)
    requires |TagPairs(f)| <= 1
    ensures MatchesFilterLastTag(f, row) <==> MatchesFilter(f, row)
  {
    var pairs := TagPairs(f);
    if |pairs| == 1 {
      assert pairs[0..] == pairs;
    }
  }

  /** Every row the query promises also passes the late-bound test: the bug only lets extra rows through. */
  lemma LastTagWeaker(f: QueryFilter, row: Row)
    requires MatchesFilter(f, row)
    ensures MatchesFilterLastTag(f, row)
  {
    var pairs := TagPairs(f);
    if |pairs| > 0 {
      assert pairs[|pairs| - 1..][0] == pairs[|pairs| - 1];
    }
  }

  /**
   * With two tag pairs, a row that has only the second one passes the
   * late-bound test though the filter asks for both.
   */
  lemma LateBindingCounterexample(row: Row, f: QueryFilter)
    requires f.tagFilter == Some([("team", "data"), ("env", "prod")])
    requires MatchesFields(f, row)
    requires TagLookup(row.tags, "team") == None && TagLookup(row.tags, "env") == Some("prod")
    ensures MatchesFilterLastTag(f, row) && !MatchesFilter(f, row)
  {
    var pairs := TagPairs(f);
    assert pairs[1..] == [("env", "prod")];
    assert pairs[0] == ("team", "data");
  }

  /** A row stored with tags `{"env": "prod"}` meets the preconditions of the counterexample. */
  lemma StoredTagsForCounterexample(row: Row, d: Dict)
    requires row.tags == TagsText(d)
    requires "team" !in ToMap(d) && "env" in ToMap(d) && ToMap(d)["env"] == "prod"
    ensures TagLookup(row.tags, "team") == None && TagLookup(row.tags, "env") == Some("prod")
  {
    TagsTextDecodes(d);
  }

  /** A row appended to the catalog shows up once, after the rows that matched before, exactly when it matches. */
  lemma {:induction false} MatchingAppend(rows: seq<Row>, src: Row, f: QueryFilter)
    ensures Matching(rows + [src], f) == Matching(rows, f) + (if MatchesFilter(f, src) then [src] else [])
  {
    if |rows| == 0 {
      assert [src][1..] == [];
    } else {
      assert (rows + [src])[1..] == rows[1..] + [src];
      MatchingAppend(rows[1..], src, f);
    }
  }

  /** A first write to an empty catalog is the one entry a query on its name finds. */
  lemma FirstWriteQueried(src: Row, f: QueryFilter)
    requires MatchesFilter(f, src)
    ensures Matching(Upsert([], src), f) == [src]
  {
    MatchingAppend([], src, f);
  }
}
