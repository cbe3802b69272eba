/**
 * The Delta table helpers: resolve a logical TABLE to its physical uri for
 * reading, scanning or management, write a table inside a write
 * transaction, drop one inside a delete transaction, and rename one. The
 * Delta writer is modelled by the log entry it adds under the table's
 * `_delta_log/` directory and by whether it succeeds.
 */
module Delta {
  import opened Wrappers
  import opened Strings
  import opened Dicts
  import opened Identity
  import opened Catalog
  import opened ItemPath
  import opened Storage
  import Json

  /** What a resolved table is handed to: `pl.read_delta`, `pl.scan_delta` or `DeltaTable`. */
  datatype DeltaSource = Eager(uri: string) | Lazy(uri: string) | Managed(uri: string)

  /** The table's `_delta_log/` directory, whose presence the transactions check. */
  function LogDir(uri: string): string
  {
    uri + "/_delta_log/"
  }

  /** `read_delta`: the TABLE lookup's uri, read eagerly; the lookup's error otherwise. */
  function ReadDelta(rows: seq<Row>, path: Option<string>, name: string, tags: Dict): (r: Result<DeltaSource, CatalogError>)
    ensures var (n, t) := ResolveIdentity(path, name, tags);
      var item := GetCatalogItem(rows, Table, n, t);
      (r.Ok? <==> item.Ok?) && (r.Err? ==> r.error == item.error) && (r.Ok? ==> r.value == Eager(item.value.uri))
  {
    var (n, t) := ResolveIdentity(path, name, tags);
    match GetCatalogItem(rows, Table, n, t)
    case Err(e) => Err(e)
    case Ok(item) => Ok(Eager(item.uri))
  }

  /** `scan_delta`: the TABLE lookup's uri, scanned lazily; the lookup's error otherwise. */
  function ScanDelta(rows: seq<Row>, path: Option<string>, name: string, tags: Dict): (r: Result<DeltaSource, CatalogError>)
    ensures var (n, t) := ResolveIdentity(path, name, tags);
      var item := GetCatalogItem(rows, Table, n, t);
      (r.Ok? <==> item.Ok?) && (r.Err? ==> r.error == item.error) && (r.Ok? ==> r.value == Lazy(item.value.uri))
  {
    var (n, t) := ResolveIdentity(path, name, tags);
    match GetCatalogItem(rows, Table, n, t)
    case Err(e) => Err(e)
    case Ok(item) => Ok(Lazy(item.uri))
  }

  /** `open_delta`: the TABLE lookup's uri, opened for management; the lookup's error otherwise. */
  function OpenDelta(rows: seq<Row>, path: Option<string>, name: string, tags: Dict): (r: Result<DeltaSource, CatalogError>)
    ensures var (n, t) := ResolveIdentity(path, name, tags);
      var item := GetCatalogItem(rows, Table, n, t);
      (r.Ok? <==> item.Ok?) && (r.Err? ==> r.error == item.error) && (r.Ok? ==> r.value == Managed(item.value.uri))
  {
    var (n, t) := ResolveIdentity(path, name, tags);
    match GetCatalogItem(rows, Table, n, t)
    case Err(e) => Err(e)
    case Ok(item) => Ok(Managed(item.uri))
  }

  /** The uri a write transaction on this identity resolves: the first row's, or a freshly minted one. */
  function WriteUri(rows: seq<Row>, name: string, tags: Dict, begun: int, uuid: string): string
  {
    match FindFirst(rows, KeyFor(Table, name, tags))
    case Some(i) => rows[i].uri
    case None => MintUri(Table, begun, uuid, name)
  }

  /**
   * The row a table write commits: the uri resolved when the transaction
   * began (minted at `begun` when new), the schema read from the table, and
   * the kept or new created_at and updated_at read at `committed`, when the
   * exit runs.
   */
  function WriteRow(rows: seq<Row>, name: string, tags: Dict, begun: int, committed: int, uuid: string, schemaOf: string -> Dict): Row
  {
    var uri := WriteUri(rows, name, tags, begun, uuid);
    var existing := match FindFirst(rows, KeyFor(Table, name, tags))
      case Some(i) => Some(rows[i].createdAt)
      case None => None;
    Row(uri, name, Table, TagsText(tags), Some(Json.Encode(schemaOf(uri))), CreatedAt(existing, committed), committed)
  }

  lemma WriteRowIsCommitRow(rows: seq<Row>, txn: WriteTxn, name: string, tags: Dict, begun: int, committed: int, uuid: string,
                            schemaOf: string -> Dict)
    requires txn.itemType == Table && txn.name == name && txn.tags == TagsText(tags)
    requires match FindFirst(rows, KeyFor(Table, name, tags))
      case Some(i) => txn.uri == rows[i].uri && txn.existingCreated == Some(rows[i].createdAt)
      case None => txn.uri == MintUri(Table, begun, uuid, name) && txn.existingCreated == None
    ensures txn.CommitRow(committed, schemaOf) == WriteRow(rows, name, tags, begun, committed, uuid, schemaOf)
  {
  }

  /**
   * `write_delta`: a write transaction around `df.write_delta(uri)`. A
   * successful write adds a log entry and commits the row. A failed write
   * still runs the exit, which commits when an earlier version of the
   * table is there and otherwise raises the violation in place of the
   * writer's error. The clock is read twice: at `begun` when the
   * transaction starts, and at `committed` when its exit runs.
   */
  method WriteDelta(catalog: CatalogTable, store: ObjectStore, path: Option<string>, name: string, tags: Dict,
                    begun: int, committed: int, uuid: string, logEntry: string, writerOk: bool, schemaOf: string -> Dict)
    returns (r: Outcome<CatalogError>)
    modifies catalog, store
    ensures var (n, t) := ResolveIdentity(path, name, tags);
      !ValidIdentity(n, t) ==>
        r == Fail(Invalid(FirstViolation(n, t).value)) && catalog.rows == old(catalog.rows) && store.keys == old(store.keys)
    ensures var (n, t) := ResolveIdentity(path, name, tags);
      var uri := WriteUri(old(catalog.rows), n, t, begun, uuid);
      var row := WriteRow(old(catalog.rows), n, t, begun, committed, uuid, schemaOf);
      ValidIdentity(n, t) && writerOk ==>
        r == Pass && store.keys == old(store.keys) + {RStrip(LogDir(uri) + logEntry, '/')} &&
        catalog.rows == Upsert(old(catalog.rows), row)
    ensures var (n, t) := ResolveIdentity(path, name, tags);
      var uri := WriteUri(old(catalog.rows), n, t, begun, uuid);
      var row := WriteRow(old(catalog.rows), n, t, begun, committed, uuid, schemaOf);
      ValidIdentity(n, t) && !writerOk ==>
        store.keys == old(store.keys) &&
        (store.Exists(LogDir(uri)) ==> r == Fail(WriteFailed(uri)) && catalog.rows == Upsert(old(catalog.rows), row)) &&
        (!store.Exists(LogDir(uri)) ==> r == Fail(Violation(TableMissing, uri)) && catalog.rows == old(catalog.rows))
  {
    var (n, t) := ResolveIdentity(path, name, tags);
    var started := BeginWrite(catalog, Table, n, t, begun, uuid);
    if started.Err? {
      return Fail(started.error);
    }
    var txn := started.value;
    ghost var row := WriteRow(catalog.rows, n, t, begun, committed, uuid, schemaOf);
    assert txn.uri == WriteUri(catalog.rows, n, t, begun, uuid) && txn.CommitRow(committed, schemaOf) == row by {
      WriteRowIsCommitRow(catalog.rows, txn, n, t, begun, committed, uuid, schemaOf);
    }
    r := WriteInTxn(txn, catalog, store, logEntry, writerOk, committed, schemaOf);
  }

  /**
   * The `with txn:` block of `write_delta`: the writer adds its log entry or
   * fails, then the exit checks for `_delta_log/` and merges the row.
   */
  method WriteInTxn(txn: WriteTxn, catalog: CatalogTable, store: ObjectStore, logEntry: string, writerOk: bool,
                    now: int, schemaOf: string -> Dict)
    returns (r: Outcome<CatalogError>)
    requires txn.itemType == Table
    modifies catalog, store
    ensures writerOk ==>
      r == Pass && store.keys == old(store.keys) + {RStrip(LogDir(txn.uri) + logEntry, '/')} &&
      catalog.rows == Upsert(old(catalog.rows), txn.CommitRow(now, schemaOf))
    ensures !writerOk ==>
      store.keys == old(store.keys) &&
      (store.Exists(LogDir(txn.uri)) ==>
        r == Fail(WriteFailed(txn.uri)) && catalog.rows == Upsert(old(catalog.rows), txn.CommitRow(now, schemaOf))) &&
      (!store.Exists(LogDir(txn.uri)) ==> r == Fail(Violation(TableMissing, txn.uri)) && catalog.rows == old(catalog.rows))
  {
    var body: Outcome<CatalogError>;
    if writerOk {
      store.Put(LogDir(txn.uri) + logEntry);
      assert store.Exists(LogDir(txn.uri)) by {
        var dir := txn.uri + "/_delta_log";
        assert LogDir(txn.uri) + logEntry == dir + "/" + logEntry;
        DirectoryExists(store, dir, logEntry);
        assert LogDir(txn.uri) == dir + "/";
      }
      body := Pass;
    } else {
      body := Fail(WriteFailed(txn.uri));
    }
    assert ContentPresent(store, Table, txn.uri) == store.Exists(LogDir(txn.uri));
    var exit := txn.Complete(catalog, store, now, schemaOf);
    r := WithExit(body, exit);
  }

  /**
   * `drop_delta`: a delete transaction around `fs.rm(uri, recursive=True)`.
   * Whether or not anything was stored under the uri, the exit finds no
   * `_delta_log/` afterwards and removes the catalog rows; a missing table
   * still makes the call raise FileNotFoundError.
   */
  method DropDelta(catalog: CatalogTable, store: ObjectStore, path: Option<string>, name: string, tags: Dict)
    returns (r: Outcome<CatalogError>)
    modifies catalog, store
    ensures var (n, t) := ResolveIdentity(path, name, tags);
      FindFirst(old(catalog.rows), KeyFor(Table, n, t)).None? ==>
        r == Fail(NotFound(Table, n, t)) && catalog.rows == old(catalog.rows) && store.keys == old(store.keys)
    ensures var (n, t) := ResolveIdentity(path, name, tags);
      var key := KeyFor(Table, n, t);
      FindFirst(old(catalog.rows), key).Some? ==>
        var uri := old(catalog.rows)[FindFirst(old(catalog.rows), key).value].uri;
        catalog.rows == Delete(old(catalog.rows), key) && !store.Exists(uri) &&
        (old(store.Exists(uri)) ==> r == Pass) &&
        (!old(store.Exists(uri)) ==> r == Fail(MissingPath(uri)) && store.keys == old(store.keys))
  {
    var (n, t) := ResolveIdentity(path, name, tags);
    var begun := BeginDelete(catalog, Table, n, t);
    if begun.Err? {
      return Fail(begun.error);
    }
    var txn := begun.value;
    assert txn.TxnKey() == KeyFor(Table, n, t);
    r := DropInTxn(txn, catalog, store);
  }

  /** The body of `drop_delta` inside its open transaction: `fs.rm(uri, recursive=True)`, then the transaction's exit. */
  method DropInTxn(txn: DeleteTxn, catalog: CatalogTable, store: ObjectStore) returns (r: Outcome<CatalogError>)
    requires txn.itemType == Table
    modifies catalog, store
    ensures catalog.rows == Delete(old(catalog.rows), txn.TxnKey()) && !store.Exists(txn.uri)
    ensures old(store.Exists(txn.uri)) ==> r == Pass
    ensures !old(store.Exists(txn.uri)) ==> r == Fail(MissingPath(txn.uri)) && store.keys == old(store.keys)
  {
    var removed := store.RemoveTree(txn.uri);
    var body := if removed.Fail? then Fail(MissingPath(removed.error)) else Pass;
    assert !ContentPresent(store, Table, txn.uri) by {
      assert LogDir(txn.uri) == txn.uri + "/" + "_delta_log" + "/";
      NestedExists(store, txn.uri, "_delta_log");
    }
    var exit := txn.Complete(catalog, store);
    r := WithExit(body, exit);
  }

  /** `move_delta`: `mv_catalog_item` on a TABLE; the data stays at its uri. */
  method MoveDelta(catalog: CatalogTable, oldName: string, oldTags: Dict, newName: string, newTags: Dict, now: int)
    returns (r: Outcome<CatalogError>)
    modifies catalog
    ensures FindFirst(old(catalog.rows), KeyFor(Table, oldName, oldTags)).None? ==>
      r == Fail(NotFound(Table, oldName, oldTags)) && catalog.rows == old(catalog.rows)
    ensures FindFirst(old(catalog.rows), KeyFor(Table, oldName, oldTags)).Some? ==>
      r == Pass && catalog.rows == Rename(old(catalog.rows), KeyFor(Table, oldName, oldTags), newName, TagsText(newTags), now)
  {
    r := MoveCatalogItem(catalog, Table, oldName, oldTags, newName, newTags, now);
  }

  /**
   * A table written and then read by the same identity is read from the uri
   * the write resolved, with the schema the write committed.
   */
  lemma WriteThenRead(rows: seq<Row>, name: string, tags: Dict, begun: int, committed: int, uuid: string, schemaOf: string -> Dict)
    ensures var row := WriteRow(rows, name, tags, begun, committed, uuid, schemaOf);
      var after := Upsert(rows, row);
      ReadDelta(after, None, name, tags) == Ok(Eager(WriteUri(rows, name, tags, begun, uuid))) &&
      GetCatalogItem(after, Table, name, tags).Ok? &&
      ToMap(GetCatalogItem(after, Table, name, tags).value.schema) == ToMap(schemaOf(WriteUri(rows, name, tags, begun, uuid)))
  {
    var row := WriteRow(rows, name, tags, begun, committed, uuid, schemaOf);
    var uri := WriteUri(rows, name, tags, begun, uuid);
    var schema := schemaOf(uri);
    var after := Upsert(rows, row);
    var key := KeyFor(Table, name, tags);
    assert FindFirst(after, key).Some? && after[FindFirst(after, key).value].uri == uri &&
           after[FindFirst(after, key).value].schema == Some(Json.Encode(schema)) by {
      assert KeyOf(row) == key;
      UpsertResolves(rows, row);
    }
    assert Json.Decode(Json.Encode(schema)) == Some(SortByKey(schema)) by {
      Json.DecodeEncode(schema);
    }
    assert ToMap(SortByKey(schema)) == ToMap(schema) by {
      SortByKeySorted(schema);
      SortedKeysUnique(SortByKey(schema));
      SameMapIffSamePairs(SortByKey(schema), schema);
    }
  }

  /**
   * Renaming a table and then writing under the new identity reuses the
   * table's uri, when the new identity had no row of its own.
   */
  lemma MoveThenWrite(rows: seq<Row>, oldName: string, oldTags: Dict, newName: string, newTags: Dict,
                      now: int, later: int, uuid: string)
    requires FindFirst(rows, KeyFor(Table, oldName, oldTags)).Some?
    requires FindFirst(rows, KeyFor(Table, newName, newTags)).None?
    ensures var moved := Rename(rows, KeyFor(Table, oldName, oldTags), newName, TagsText(newTags), now);
      WriteUri(moved, newName, newTags, later, uuid) == WriteUri(rows, oldName, oldTags, now, uuid)
  {
    RenameResolves(rows, KeyFor(Table, oldName, oldTags), newName, TagsText(newTags), now);
  }
}
