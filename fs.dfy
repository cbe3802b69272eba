/**
 * The object helpers: file handles tied to catalog transactions, and the
 * delete, move, exists and search intents on OBJECT items. The object store
 * and the catalog table are passed in; clock readings and fresh tokens are
 * parameters.
 */
module Fs {
  import opened Wrappers
  import opened Strings
  import opened Dicts
  import opened Identity
  import opened Catalog
  import opened Query
  import opened ItemPath
  import opened Storage

  /** An open file on the object store: the physical path and the mode it was opened with. */
  datatype FileHandle = FileHandle(path: string, mode: string)

  /** `mode.startswith("r")`. */
  predicate IsReadMode(mode: string)
  {
    |mode| > 0 && mode[0] == 'r'
  }

  /** `mode in ("wb", "ab")`. */
  predicate IsWriteMode(mode: string)
  {
    mode == "wb" || mode == "ab"
  }

  /** Objects carry no schema; the write transaction never asks for one. */
  function NoSchema(uri: string): Dict
  {
    []
  }

  /** `_ObjectTxnFile`: a file handle and, for writes, the catalog transaction it belongs to. */
  class ObjectTxnFile {
    const name: string
    const tags: Dict
    const mode: string
    var txn: Option<WriteTxn>
    var file: Option<FileHandle>

    constructor(name: string, tags: Dict, mode: string)
      ensures this.name == name && this.tags == tags && this.mode == mode
      ensures txn == None && file == None
    {
      this.name := name;
      this.tags := tags;
      this.mode := mode;
      txn := None;
      file := None;
    }

    /** A write transaction is only ever held with the write-mode file opened at its uri. */
    predicate Valid()
      reads this
    {
      txn.Some? ==> file.Some? && IsWriteMode(mode) && file.value.path == txn.value.uri && txn.value.itemType == Object
    }

    /**
     * `__enter__`: a read mode looks the object up and opens its uri (which
     * must hold an object); "wb" and "ab" start a write transaction and open
     * the uri it resolved; any other mode is refused.
     */
    method Enter(catalog: CatalogTable, store: ObjectStore, now: int, uuid: string) returns (r: Result<FileHandle, CatalogError>)
      requires txn.None?
      modifies this
      ensures Valid()
      ensures r.Ok? ==> file == Some(r.value) && r.value.mode == mode
      ensures IsReadMode(mode) ==> (
        txn.None? &&
        match GetCatalogItem(catalog.rows, Object, name, tags)
        case Err(e) => r == Err(e)
        case Ok(item) =>
          if RStrip(item.uri, '/') in store.keys then r == Ok(FileHandle(item.uri, mode)) else r == Err(MissingPath(item.uri)))
      ensures !IsReadMode(mode) && IsWriteMode(mode) ==>
        (r.Err? <==> !ValidIdentity(name, tags)) &&
        (r.Err? ==> r.error == Invalid(FirstViolation(name, tags).value) && txn.None?) &&
        (r.Ok? ==> (
          txn.Some? && fresh(txn.value) && txn.value.name == name && txn.value.tags == TagsText(tags) &&
          match FindFirst(catalog.rows, KeyFor(Object, name, tags))
          case Some(i) => r.value.path == catalog.rows[i].uri
          case None => r.value.path == MintUri(Object, now, uuid, name)))
      ensures !IsReadMode(mode) && !IsWriteMode(mode) ==> r == Err(UnsupportedMode(mode)) && txn.None?
    {
      if IsReadMode(mode) {
        var item := GetCatalogItem(catalog.rows, Object, name, tags);
        if item.Err? {
          return Err(item.error);
        }
        var uri := item.value.uri;
        if RStrip(uri, '/') !in store.keys {
          return Err(MissingPath(uri));
        }
        file := Some(FileHandle(uri, mode));
        return Ok(file.value);
      } else if IsWriteMode(mode) {
        var begun := BeginWrite(catalog, Object, name, tags, now, uuid);
        if begun.Err? {
          return Err(begun.error);
        }
        txn := Some(begun.value);
        file := Some(FileHandle(begun.value.uri, mode));
        return Ok(file.value);
      } else {
        return Err(UnsupportedMode(mode));
      }
    }

    /**
     * `__exit__`, whatever the body raised: closing a write-mode handle
     * stores the object at its path, and then the write transaction, if
     * any, commits. A write therefore always commits its row; a read
     * changes nothing.
     */
    method Exit(catalog: CatalogTable, store: ObjectStore, now: int) returns (r: Outcome<CatalogError>)
      requires file.Some? && Valid()
      modifies catalog, store
      ensures store.keys == old(store.keys) + (if IsWriteMode(mode) then {RStrip(file.value.path, '/')} else {})
      ensures txn.None? ==> r == Pass && catalog.rows == old(catalog.rows)
      ensures txn.Some? ==> r == Pass && catalog.rows == Upsert(old(catalog.rows), txn.value.CommitRow(now, NoSchema))
    {
      if IsWriteMode(mode) {
        store.Put(file.value.path);
      }
      r := Pass;
      if txn.Some? {
        r := txn.value.Complete(catalog, store, now, NoSchema);
      }
    }
  }

  /** `open_object`: the identity from the path when one is given, and a handle not yet entered. */
  method OpenObject(path: Option<string>, name: string, tags: Dict, mode: string) returns (f: ObjectTxnFile)
    ensures fresh(f) && f.txn.None? && f.file.None? && f.mode == mode
    ensures (f.name, f.tags) == ResolveIdentity(path, name, tags)
  {
    var (n, t) := ResolveIdentity(path, name, tags);
    f := new ObjectTxnFile(n, t, mode);
  }

  /** `with open_object(...) as f: ...` for a write: after the block the identity resolves to the handle's uri. */
  lemma WriteCommitsObject(rows: seq<Row>, txn: WriteTxn, tags: Dict, now: int)
    requires txn.itemType == Object && txn.tags == TagsText(tags)
    requires match FindFirst(rows, txn.TxnKey())
      case Some(i) => txn.uri == rows[i].uri
      case None => true
    ensures var got := GetCatalogItem(Upsert(rows, txn.CommitRow(now, NoSchema)), Object, txn.name, tags);
      got.Ok? && got.value.uri == txn.uri && got.value.updatedAt == now
  {
    WriteThenGet(rows, txn, tags, now, NoSchema);
  }

  /** The uri of the first row with `key`. */
  function FirstUri(rows: seq<Row>, key: Key): string
    requires FindFirst(rows, key).Some?
  {
    rows[FindFirst(rows, key).value].uri
  }

  /**
   * `delete_object`: a delete transaction around `fs.rm(uri)`. The exit's
   * violation wins over the body's FileNotFoundError; when the object is
   * gone (or never was) the rows are dropped even though `fs.rm` may have
   * raised.
   */
  method DeleteObject(catalog: CatalogTable, store: ObjectStore, path: Option<string>, name: string, tags: Dict)
    returns (r: Outcome<CatalogError>)
    modifies catalog, store
    ensures var (n, t) := ResolveIdentity(path, name, tags);
      FindFirst(old(catalog.rows), KeyFor(Object, n, t)).None? ==>
        r == Fail(NotFound(Object, n, t)) && catalog.rows == old(catalog.rows) && store.keys == old(store.keys)
    ensures var (n, t) := ResolveIdentity(path, name, tags);
      var key := KeyFor(Object, n, t);
      FindFirst(old(catalog.rows), key).Some? ==>
        var uri := FirstUri(old(catalog.rows), key);
        store.keys == old(store.keys) - {RStrip(uri, '/')} &&
        (store.Exists(uri) ==> r == Fail(Violation(ObjectStillPresent, uri)) && catalog.rows == old(catalog.rows)) &&
        (!store.Exists(uri) ==> r == Pass && catalog.rows == Delete(old(catalog.rows), key)) &&
        ((forall k :: k in old(store.keys) ==> !Under(k, RStrip(uri, '/'))) ==> r == Pass)
  {
    var (n, t) := ResolveIdentity(path, name, tags);
    var begun := BeginDelete(catalog, Object, n, t);
    if begun.Err? {
      return Fail(begun.error);
    }
    var txn := begun.value;
    assert txn.uri == FirstUri(catalog.rows, KeyFor(Object, n, t)) && txn.TxnKey() == KeyFor(Object, n, t);
    r := DeleteInTxn(txn, catalog, store);
  }

  /**
   * The body of `delete_object` inside its open transaction: `fs.rm(uri)`,
   * then the transaction's exit, which refuses only while some other key
   * still lies under the uri.
   */
  method DeleteInTxn(txn: DeleteTxn, catalog: CatalogTable, store: ObjectStore) returns (r: Outcome<CatalogError>)
    requires txn.itemType == Object
    modifies catalog, store
    ensures store.keys == old(store.keys) - {RStrip(txn.uri, '/')}
    ensures store.Exists(txn.uri) ==> r == Fail(Violation(ObjectStillPresent, txn.uri)) && catalog.rows == old(catalog.rows)
    ensures !store.Exists(txn.uri) ==> r == Pass && catalog.rows == Delete(old(catalog.rows), txn.TxnKey())
    ensures (forall k :: k in old(store.keys) ==> !Under(k, RStrip(txn.uri, '/'))) ==> r == Pass
  {
    store.Remove(txn.uri);
    r := txn.Complete(catalog, store);
  }

  /** `move_object`: `mv_catalog_item` on an OBJECT; the bytes stay where they are. */
  method MoveObject(catalog: CatalogTable, oldName: string, oldTags: Dict, newName: string, newTags: Dict, now: int)
    returns (r: Outcome<CatalogError>)
    modifies catalog
    ensures FindFirst(old(catalog.rows), KeyFor(Object, oldName, oldTags)).None? ==>
      r == Fail(NotFound(Object, oldName, oldTags)) && catalog.rows == old(catalog.rows)
    ensures FindFirst(old(catalog.rows), KeyFor(Object, oldName, oldTags)).Some? ==>
      r == Pass && catalog.rows == Rename(old(catalog.rows), KeyFor(Object, oldName, oldTags), newName, TagsText(newTags), now)
  {
    r := MoveCatalogItem(catalog, Object, oldName, oldTags, newName, newTags, now);
  }

  /**
   * `exists_object`: True when the lookup succeeds, False on
   * CatalogItemNotFoundError; any other error would propagate, and none can
   * arise for an OBJECT lookup.
   */
  function ExistsObject(rows: seq<Row>, path: Option<string>, name: string, tags: Dict): (r: Result<bool, CatalogError>)
    ensures var (n, t) := ResolveIdentity(path, name, tags);
      r == Ok(FindFirst(rows, KeyFor(Object, n, t)).Some?)
  {
    var (n, t) := ResolveIdentity(path, name, tags);
    match GetCatalogItem(rows, Object, n, t)
    case Ok(_) => Ok(true)
    case Err(NotFound(_, _, _)) => Ok(false)
    case Err(e) => Err(e)
  }

  /** One entry of `search_objects`'s result. */
  datatype ObjectRecord = ObjectRecord(uri: string, name: string, tags: Dict, createdAt: int, updatedAt: int)

  /** The filter `search_objects` hands to `query_catalog`: OBJECT items only, any name. */
  function SearchFilter(tagFilter: Option<Dict>, createdLower: Option<int>, createdUpper: Option<int>,
                        updatedLower: Option<int>, updatedUpper: Option<int>): QueryFilter
  {
    QueryFilter(None, Some(Object), createdLower, createdUpper, updatedLower, updatedUpper, tagFilter)
  }

  /** `rec` is the record `search_objects` reports for the OBJECT row `row`: its fields and its tags read back. */
  predicate RecordOf(rec: ObjectRecord, row: Row)
  {
    row.itemType == Object && rec.uri == row.uri && rec.name == row.name &&
    rec.createdAt == row.createdAt && rec.updatedAt == row.updatedAt &&
    Json.Decode(row.tags) == Some(rec.tags)
  }

  /** The record's tags hold every pair of `pairs`. */
  predicate HoldsPairs(rec: ObjectRecord, pairs: seq<Pair>)
  {
    forall j :: 0 <= j < |pairs| ==> pairs[j].0 in ToMap(rec.tags) && ToMap(rec.tags)[pairs[j].0] == pairs[j].1
  }

  /** The record `search_objects` builds from one metadata entry. */
  function RecordFor(item: ItemMetadata): ObjectRecord
  {
    ObjectRecord(item.uri, item.name, item.tags, item.createdAt, item.updatedAt)
  }

  /** Records built from the metadata of OBJECT rows that all have the tags `pairs` describe those rows and hold `pairs`. */
  lemma MatchedRecords(m: seq<Row>, pairs: seq<Pair>, items: seq<ItemMetadata>, output: seq<ObjectRecord>)
    requires forall x :: x in m ==> x.itemType == Object && HasTags(x, pairs)
    requires |items| == |m| == |output|
    requires forall i :: 0 <= i < |items| ==> Describes(items[i], m[i])
    requires forall i :: 0 <= i < |items| ==> output[i] == RecordFor(items[i])
    ensures forall i :: 0 <= i < |output| ==> RecordOf(output[i], m[i]) && HoldsPairs(output[i], pairs)
  {
    forall i | 0 <= i < |output| ensures RecordOf(output[i], m[i]) && HoldsPairs(output[i], pairs)
    {
      assert m[i] in m;
      assert Describes(items[i], m[i]);
      forall j | 0 <= j < |pairs|
        ensures pairs[j].0 in ToMap(output[i].tags) && ToMap(output[i].tags)[pairs[j].0] == pairs[j].1
      {
        assert TagLookup(m[i].tags, pairs[j].0) == Some(pairs[j].1);
      }
    }
  }

  /** The tag pairs `search_objects` as written really tests: the last pair of the filter, or none. */
  function TestedPairs(tagFilter: Option<Dict>): (pairs: seq<Pair>)
    ensures |pairs| <= 1
    ensures tagFilter.Some? && |tagFilter.value| > 0 ==> pairs == [tagFilter.value[|tagFilter.value| - 1]]
  {
    if tagFilter.Some? && |tagFilter.value| > 0 then tagFilter.value[|tagFilter.value| - 1..] else []
  }

  /**
   * `search_objects`: one record per OBJECT row the query as written
   * returns, in row order. Because of the late-bound tag closures each
   * record is only known to hold the last pair of the tag filter; every
   * object holding all of the pairs is among the records.
   */
  method SearchObjects(catalog: CatalogTable, tagFilter: Option<Dict>, createdLower: Option<int>, createdUpper: Option<int>,
                       updatedLower: Option<int>, updatedUpper: Option<int>)
    returns (r: Result<seq<ObjectRecord>, CatalogError>)
    ensures var m := MatchingLastTag(catalog.rows, SearchFilter(tagFilter, createdLower, createdUpper, updatedLower, updatedUpper));
      (r.Ok? <==> forall i :: 0 <= i < |m| ==> Readable(m[i])) &&
      (r.Ok? ==> |r.value| == |m| && forall i :: 0 <= i < |m| ==> RecordOf(r.value[i], m[i])) &&
      (r.Err? ==> exists i :: 0 <= i < |m| && !Readable(m[i]) && r.error == CorruptRow(m[i].uri) &&
                              (forall j :: 0 <= j < i ==> Readable(m[j])))
    ensures r.Ok? ==> forall i :: 0 <= i < |r.value| ==> HoldsPairs(r.value[i], TestedPairs(tagFilter))
    ensures r.Ok? ==> forall x :: x in catalog.rows && MatchesFilter(SearchFilter(tagFilter, createdLower, createdUpper, updatedLower, updatedUpper), x) ==>
      exists i :: 0 <= i < |r.value| && r.value[i].uri == x.uri
  {
    var f := SearchFilter(tagFilter, createdLower, createdUpper, updatedLower, updatedUpper);
    var results := QueryCatalogAsWritten(catalog, f);
    if results.Err? {
      return Err(results.error);
    }
    var output := ToRecords(results.value);
    assert forall x :: x in MatchingLastTag(catalog.rows, f) ==> x.itemType == Object && HasTags(x, TestedPairs(tagFilter)) by {
      forall x | x in MatchingLastTag(catalog.rows, f) ensures x.itemType == Object && HasTags(x, TestedPairs(tagFilter)) {
        assert MatchesFilterLastTag(f, x);
      }
    }
    MatchedRecords(MatchingLastTag(catalog.rows, f), TestedPairs(tagFilter), results.value, output);
    return Ok(output);
  }

  /**
   * `search_objects` as its docstring promises, on the corrected query: one
   * record per matching OBJECT row in row order, each holding every pair
   * of the tag filter.
   */
  method SearchObjectsIntended(catalog: CatalogTable, tagFilter: Option<Dict>, createdLower: Option<int>, createdUpper: Option<int>,
                               updatedLower: Option<int>, updatedUpper: Option<int>)
    returns (r: Result<seq<ObjectRecord>, CatalogError>)
    ensures var m := Matching(catalog.rows, SearchFilter(tagFilter, createdLower, createdUpper, updatedLower, updatedUpper));
      (r.Ok? <==> forall i :: 0 <= i < |m| ==> Readable(m[i])) &&
      (r.Ok? ==> |r.value| == |m| && forall i :: 0 <= i < |m| ==> RecordOf(r.value[i], m[i])) &&
      (r.Err? ==> exists i :: 0 <= i < |m| && !Readable(m[i]) && r.error == CorruptRow(m[i].uri) &&
                              (forall j :: 0 <= j < i ==> Readable(m[j])))
    ensures r.Ok? && tagFilter.Some? ==> forall i :: 0 <= i < |r.value| ==> HoldsPairs(r.value[i], tagFilter.value)
  {
    var f := SearchFilter(tagFilter, createdLower, createdUpper, updatedLower, updatedUpper);
    var results := QueryCatalog(catalog, f);
    if results.Err? {
      return Err(results.error);
    }
    var output := ToRecords(results.value);
    assert forall x :: x in Matching(catalog.rows, f) ==> x.itemType == Object && HasTags(x, TagPairs(f)) by {
      forall x | x in Matching(catalog.rows, f) ensures x.itemType == Object && HasTags(x, TagPairs(f)) {
        assert MatchesFilter(f, x);
      }
    }
    MatchedRecords(Matching(catalog.rows, f), TagPairs(f), results.value, output);
    return Ok(output);
  }

  /** The loop of `search_objects`: one record per metadata entry, in order. */
  method ToRecords(items: seq<ItemMetadata>) returns (output: seq<ObjectRecord>)
    ensures |output| == |items|
    ensures forall j :: 0 <= j < |items| ==> output[j] == RecordFor(items[j])
  {
    output := [];
    var i := 0;
    while i < |items|
      invariant 0 <= i <= |items|
      invariant |output| == i
      invariant forall j :: 0 <= j < i ==> output[j] == RecordFor(items[j])
    {
      output := output + [RecordFor(items[i])];
      i := i + 1;
    }
  }
}
