/**
 * The Flint catalog: a table of rows mapping an identity (name, item type,
 * canonical tag text) to the physical uri of the item's content, kept by
 * merge statements on the catalog's Delta table. Write and delete
 * transactions resolve the uri first, let the caller act on the content,
 * and on exit check the content before they merge.
 */
module Catalog {
  import opened Wrappers
  import opened Strings
  import opened Dicts
  import opened Identity
  import Json
  import Storage

  const StorageBucket: string := "metastore"

  /** One row of the catalog table: columns uri, name, type, tags, schema, created_at, updated_at. */
  datatype Row = Row(
    uri: string,
    name: string,
    itemType: ItemType,
    tags: string,
    schema: Option<string>,
    createdAt: int,
    updatedAt: int)

  /** The columns every merge matches on. */
  datatype Key = Key(name: string, itemType: ItemType, tags: string)

  function KeyOf(row: Row): Key
  {
    Key(row.name, row.itemType, row.tags)
  }

  /** The identity a caller names, as the catalog compares it. */
  function KeyFor(itemType: ItemType, name: string, tags: Dict): Key
  {
    Key(name, itemType, TagsText(tags))
  }

  datatype ViolationKind = ObjectMissing | TableMissing | ObjectStillPresent | TableStillPresent

  /** The exceptions the core raises. */
  datatype CatalogError =
    | Invalid(reason: IdentityError)                        // ValueError from validation
    | NotFound(itemType: ItemType, name: string, tags: Dict) // CatalogItemNotFoundError
    | Violation(kind: ViolationKind, uri: string)           // CatalogItemTransactionViolationError
    | CorruptRow(uri: string)                               // `json.loads` refused a stored column
    | MissingPath(path: string)                             // FileNotFoundError from the object store
    | WriteFailed(uri: string)                              // the Delta writer raised
    | UnsupportedMode(mode: string)                         // ValueError for a file mode

  /** `ObjectItemMetadata` and `TableItemMetadata`. */
  datatype ItemMetadata =
    | ObjectItem(uri: string, name: string, tags: Dict, createdAt: int, updatedAt: int)
    | TableItem(uri: string, name: string, tags: Dict, schema: Dict, createdAt: int, updatedAt: int)

  /** The first row carrying `key`, as `.filter(...).limit(1)` picks it. */
  function FindFirst(rows: seq<Row>, key: Key): (r: Option<nat>)
    ensures r.Some? ==> r.value < |rows| && KeyOf(rows[r.value]) == key
    ensures r.Some? ==> forall j :: 0 <= j < r.value ==> KeyOf(rows[j]) != key
    ensures r.None? <==> forall j :: 0 <= j < |rows| ==> KeyOf(rows[j]) != key
  {
    if |rows| == 0 then None
    else if KeyOf(rows[0]) == key then Some(0)
    else
      var r := FindFirst(rows[1..], key);
      assert forall j :: 1 <= j < |rows| ==> rows[j] == rows[1..][j - 1];
      match r
      case None => None
      case Some(i) => Some(i + 1)
  }

  /** At most one row per identity. */
  ghost predicate Unique(rows: seq<Row>)
  {
    forall i, j :: 0 <= i < j < |rows| ==> KeyOf(rows[i]) != KeyOf(rows[j])
  }

  /** The effect of `when_matched_update({"schema": ..., "updated_at": ...})`. */
  function UpdateMatching(rows: seq<Row>, key: Key, schema: Option<string>, updatedAt: int): (r: seq<Row>)
    ensures |r| == |rows|
    ensures forall i :: 0 <= i < |rows| ==> r[i] == if KeyOf(rows[i]) == key then rows[i].(schema := schema, updatedAt := updatedAt) else rows[i]
  {
    seq(|rows|, i requires 0 <= i < |rows| =>
      if KeyOf(rows[i]) == key then rows[i].(schema := schema, updatedAt := updatedAt) else rows[i])
  }

  /**
   * The write transaction's merge: rows matching the source's identity get
   * its schema and updated_at and keep everything else; with no match the
   * source row is inserted.
   */
  function Upsert(rows: seq<Row>, src: Row): (r: seq<Row>)
    ensures FindFirst(rows, KeyOf(src)).Some? ==> |r| == |rows|
    ensures FindFirst(rows, KeyOf(src)).None? ==> |r| == |rows| + 1 && r[|rows|] == src
    ensures forall i :: 0 <= i < |rows| ==>
      r[i].uri == rows[i].uri && KeyOf(r[i]) == KeyOf(rows[i]) && r[i].createdAt == rows[i].createdAt
    ensures forall i :: 0 <= i < |rows| && KeyOf(rows[i]) == KeyOf(src) ==>
      r[i].schema == src.schema && r[i].updatedAt == src.updatedAt
    ensures forall i :: 0 <= i < |rows| && KeyOf(rows[i]) != KeyOf(src) ==> r[i] == rows[i]
  {
    if FindFirst(rows, KeyOf(src)).Some? then UpdateMatching(rows, KeyOf(src), src.schema, src.updatedAt)
    else rows + [src]
  }

  /** The delete transaction's merge: every row matching `key` goes, the others stay in order. */
  function Delete(rows: seq<Row>, key: Key): (r: seq<Row>)
    ensures forall x :: x in r <==> x in rows && KeyOf(x) != key
    ensures forall x :: KeyOf(x) != key ==> multiset(r)[x] == multiset(rows)[x]
    ensures |r| <= |rows|
  {
    if |rows| == 0 then []
    else
      var rest := Delete(rows[1..], key);
      assert rows == [rows[0]] + rows[1..];
      if KeyOf(rows[0]) == key then rest else [rows[0]] + rest
  }

  /** `mv_catalog_item`'s merge: matching rows get the new name, tags and updated_at. */
  function Rename(rows: seq<Row>, key: Key, newName: string, newTags: string, now: int): (r: seq<Row>)
    ensures |r| == |rows|
    ensures forall i :: 0 <= i < |rows| ==>
      r[i].uri == rows[i].uri && r[i].itemType == rows[i].itemType &&
      r[i].schema == rows[i].schema && r[i].createdAt == rows[i].createdAt
    ensures forall i :: 0 <= i < |rows| && KeyOf(rows[i]) == key ==>
      r[i].name == newName && r[i].tags == newTags && r[i].updatedAt == now
    ensures forall i :: 0 <= i < |rows| && KeyOf(rows[i]) != key ==> r[i] == rows[i]
  {
    seq(|rows|, i requires 0 <= i < |rows| =>
      if KeyOf(rows[i]) == key then rows[i].(name := newName, tags := newTags, updatedAt := now) else rows[i])
  }

  /** A row whose stored texts read back: its tags always, its schema for a table, no schema for an object. */
  predicate WellFormedRow(row: Row)
  {
    Json.Decode(row.tags).Some? &&
    match row.itemType
    case Object => row.schema.None?
    case Table => row.schema.Some? && Json.Decode(row.schema.value).Some?
  }

  ghost predicate WellFormed(rows: seq<Row>)
  {
    forall i :: 0 <= i < |rows| ==> WellFormedRow(rows[i])
  }

  /** The catalog's Delta table (`s3://metastore/_catalog`), which merges update in place. */
  class CatalogTable {
    var rows: seq<Row>

    /** `_create_catalog_if_not_exists`: an empty table with the catalog's columns. */
    constructor()
      ensures rows == []
    {
      rows := [];
    }

    method MergeUpsert(src: Row)
      modifies this
      ensures rows == Upsert(old(rows), src)
      ensures Unique(old(rows)) ==> Unique(rows)
      ensures WellFormed(old(rows)) && WellFormedRow(src) ==> WellFormed(rows)
    {
      UpsertUnique(rows, src);
      UpsertWellFormed(rows, src);
      rows := Upsert(rows, src);
    }

    method MergeDelete(key: Key)
      modifies this
      ensures rows == Delete(old(rows), key)
      ensures Unique(old(rows)) ==> Unique(rows)
      ensures WellFormed(old(rows)) ==> WellFormed(rows)
    {
      DeleteUnique(rows, key);
      DeleteWellFormed(rows, key);
      rows := Delete(rows, key);
    }

    method MergeRename(key: Key, newName: string, newTags: string, now: int)
      modifies this
      ensures rows == Rename(old(rows), key, newName, newTags, now)
      ensures WellFormed(old(rows)) && Json.Decode(newTags).Some? ==> WellFormed(rows)
    {
      RenameWellFormed(rows, key, newName, newTags, now);
      rows := Rename(rows, key, newName, newTags, now);
    }
  }

  predicate EndsWith(s: string, suffix: string)
  {
    |suffix| <= |s| && s[|s| - |suffix|..] == suffix
  }

  lemma EndsWithPrepend(x: string, y: string, suffix: string)
    requires EndsWith(y, suffix)
    ensures EndsWith(x + y, suffix)
  {
    assert (x + y)[|x + y| - |suffix|..] == y[|y| - |suffix|..];
  }

  /** `s3://metastore/{type}/{timestamp}/{uuid}/{name}`: the name is the last path segment. */
  function MintUri(itemType: ItemType, now: int, uuid: string, name: string): (uri: string)
    ensures EndsWith(uri, "/" + name)
  {
    var tail := uuid + "/" + name;
    var mid := IntToDecimal(now) + "/" + tail;
    var rest := TypeValue(itemType) + "/" + mid;
    assert EndsWith(tail, "/" + name) by {
      assert tail[|tail| - |"/" + name|..] == "/" + name;
    }
    EndsWithPrepend(IntToDecimal(now) + "/", tail, "/" + name);
    EndsWithPrepend(TypeValue(itemType) + "/", mid, "/" + name);
    EndsWithPrepend("s3://" + StorageBucket + "/", rest, "/" + name);
    "s3://" + StorageBucket + "/" + rest
  }

  lemma DecimalHasNoSlash(i: int)
    ensures '/' !in IntToDecimal(i)
  {
    var s := IntToDecimal(i);
    forall k | 0 <= k < |s| ensures s[k] != '/' {
      assert IsDigit(s[k]) || s[k] == '-';
    }
  }

  lemma SamePrefixSameRest(p: string, x: string, y: string)
    requires p + x == p + y
    ensures x == y
  {
    assert (p + x)[|p|..] == x;
    assert (p + y)[|p|..] == y;
  }

  /**
   * A minted uri determines its type, its timestamp text, its token and the
   * name: a fresh token (one without `/`) gives a uri no other token or name
   * can give.
   */
  lemma MintUriInjective(t1: ItemType, ts1: int, u1: string, n1: string, t2: ItemType, ts2: int, u2: string, n2: string)
    requires '/' !in u1 && '/' !in u2
    requires MintUri(t1, ts1, u1, n1) == MintUri(t2, ts2, u2, n2)
    ensures t1 == t2 && IntToDecimal(ts1) == IntToDecimal(ts2) && u1 == u2 && n1 == n2
  {
    var p := "s3://" + StorageBucket + "/";
    var a1, a2 := TypeValue(t1), TypeValue(t2);
    var b1, b2 := IntToDecimal(ts1), IntToDecimal(ts2);
    DecimalHasNoSlash(ts1);
    DecimalHasNoSlash(ts2);
    var m1, m2 := u1 + "/" + n1, u2 + "/" + n2;
    var r1, r2 := b1 + "/" + m1, b2 + "/" + m2;
    SamePrefixSameRest(p, a1 + "/" + r1, a2 + "/" + r2);
    FirstOccurrenceUnique(a1, r1, a2, r2, '/');
    FirstOccurrenceUnique(b1, m1, b2, m2, '/');
    FirstOccurrenceUnique(u1, n1, u2, n2, '/');
  }

  /** `existing_created or current_timestamp`: a remembered 0 counts as absent. */
  function CreatedAt(existing: Option<int>, now: int): (c: int)
    ensures existing.Some? && existing.value != 0 ==> c == existing.value
    ensures existing.None? || existing.value == 0 ==> c == now
  {
    if existing.Some? && existing.value != 0 then existing.value else now
  }

  /** What a transaction's exit checks on storage: the object itself, or a table's `_delta_log` directory. */
  predicate ContentPresent(store: Storage.ObjectStore, itemType: ItemType, uri: string)
    reads store
  {
    match itemType
    case Object => store.Exists(uri)
    case Table => store.Exists(uri + "/_delta_log/")
  }

  /**
   * Python's `with` statement around a body whose outcome is `body`, when
   * `__exit__` (which never suppresses) ends with `exit`: an exception from
   * the exit replaces the body's, otherwise the body's outcome stands.
   */
  function WithExit(body: Outcome<CatalogError>, exit: Outcome<CatalogError>): (r: Outcome<CatalogError>)
    ensures r.Pass? <==> body.Pass? && exit.Pass?
    ensures exit.Fail? ==> r == exit
  {
    if exit.Fail? then exit else body
  }

  /** `WriteCatalogItemTxn`: validated identity, resolved uri and remembered creation time. */
  class WriteTxn {
    const itemType: ItemType
    const name: string
    const tags: string
    const uri: string
    const existingCreated: Option<int>

    /**
     * The part of `__init__` after validation: reuse the uri of the first row
     * with this identity and remember its created_at, or mint a fresh uri.
     */
    constructor(catalog: CatalogTable, itemType: ItemType, name: string, tags: Dict, now: int, uuid: string)
      requires ValidIdentity(name, tags)
      ensures this.itemType == itemType && this.name == name && this.tags == TagsText(tags)
      ensures match FindFirst(catalog.rows, KeyFor(itemType, name, tags))
        case Some(i) => uri == catalog.rows[i].uri && existingCreated == Some(catalog.rows[i].createdAt)
        case None => uri == MintUri(itemType, now, uuid, name) && existingCreated == None
    {
      this.itemType := itemType;
      this.name := name;
      this.tags := TagsText(tags);
      var found := FindFirst(catalog.rows, KeyFor(itemType, name, tags));
      if found.Some? {
        var row := catalog.rows[found.value];
        this.uri := row.uri;
        this.existingCreated := Some(row.createdAt);
      } else {
        this.uri := MintUri(itemType, now, uuid, name);
        this.existingCreated := None;
      }
    }

    function TxnKey(): Key
    {
      Key(name, itemType, tags)
    }

    /** The row `__exit__` merges: a fresh schema for a table, none for an object. */
    function CommitRow(now: int, schemaOf: string -> Dict): (row: Row)
      ensures KeyOf(row) == TxnKey() && row.uri == uri && row.updatedAt == now
      ensures row.createdAt == CreatedAt(existingCreated, now)
      ensures row.schema == if itemType == Table then Some(Json.Encode(schemaOf(uri))) else None
    {
      Row(uri, name, itemType, tags,
        if itemType == Table then Some(Json.Encode(schemaOf(uri))) else None,
        CreatedAt(existingCreated, now), now)
    }

    /**
     * `__exit__`, whatever the body raised: refuse when the content is not
     * there, otherwise merge the row.
     */
    method Complete(catalog: CatalogTable, store: Storage.ObjectStore, now: int, schemaOf: string -> Dict)
      returns (r: Outcome<CatalogError>)
      modifies catalog
      ensures !ContentPresent(store, itemType, uri) ==>
        r == Fail(Violation(if itemType == Object then ObjectMissing else TableMissing, uri)) &&
        catalog.rows == old(catalog.rows)
      ensures ContentPresent(store, itemType, uri) ==>
        r == Pass && catalog.rows == Upsert(old(catalog.rows), CommitRow(now, schemaOf))
    {
      if !ContentPresent(store, itemType, uri) {
        return Fail(Violation(if itemType == Object then ObjectMissing else TableMissing, uri));
      }
      catalog.MergeUpsert(CommitRow(now, schemaOf));
      return Pass;
    }
  }

  /** `WriteCatalogItemTxn(item_type, name, tags)`: ValueError on a refused identity, else the transaction. */
  method BeginWrite(catalog: CatalogTable, itemType: ItemType, name: string, tags: Dict, now: int, uuid: string)
    returns (r: Result<WriteTxn, CatalogError>)
    ensures r.Err? <==> !ValidIdentity(name, tags)
    ensures r.Err? ==> r.error == Invalid(FirstViolation(name, tags).value)
    ensures r.Ok? ==> fresh(r.value) && r.value.itemType == itemType && r.value.name == name && r.value.tags == TagsText(tags)
    ensures r.Ok? ==> match FindFirst(catalog.rows, KeyFor(itemType, name, tags))
      case Some(i) => r.value.uri == catalog.rows[i].uri && r.value.existingCreated == Some(catalog.rows[i].createdAt)
      case None => r.value.uri == MintUri(itemType, now, uuid, name) && r.value.existingCreated == None
  {
    var violation := Validate(name, tags);
    if violation.Some? {
      return Err(Invalid(violation.value));
    }
    var txn := new WriteTxn(catalog, itemType, name, tags, now, uuid);
    return Ok(txn);
  }

  /** `DeleteCatalogItemTxn`: the identity and the uri of its first row. */
  class DeleteTxn {
    const itemType: ItemType
    const name: string
    const tags: string
    const uri: string

    constructor(catalog: CatalogTable, itemType: ItemType, name: string, tags: Dict)
      requires FindFirst(catalog.rows, KeyFor(itemType, name, tags)).Some?
      ensures this.itemType == itemType && this.name == name && this.tags == TagsText(tags)
      ensures uri == catalog.rows[FindFirst(catalog.rows, KeyFor(itemType, name, tags)).value].uri
    {
      this.itemType := itemType;
      this.name := name;
      this.tags := TagsText(tags);
      this.uri := catalog.rows[FindFirst(catalog.rows, KeyFor(itemType, name, tags)).value].uri;
    }

    function TxnKey(): Key
    {
      Key(name, itemType, tags)
    }

    /** `__exit__`, whatever the body raised: refuse while the content is still there, otherwise drop the rows. */
    method Complete(catalog: CatalogTable, store: Storage.ObjectStore) returns (r: Outcome<CatalogError>)
      modifies catalog
      ensures ContentPresent(store, itemType, uri) ==>
        r == Fail(Violation(if itemType == Object then ObjectStillPresent else TableStillPresent, uri)) &&
        catalog.rows == old(catalog.rows)
      ensures !ContentPresent(store, itemType, uri) ==>
        r == Pass && catalog.rows == Delete(old(catalog.rows), TxnKey())
    {
      if ContentPresent(store, itemType, uri) {
        return Fail(Violation(if itemType == Object then ObjectStillPresent else TableStillPresent, uri));
      }
      catalog.MergeDelete(TxnKey());
      return Pass;
    }
  }

  /** `DeleteCatalogItemTxn(item_type, name, tags)`: no validation; CatalogItemNotFoundError when no row matches. */
  method BeginDelete(catalog: CatalogTable, itemType: ItemType, name: string, tags: Dict)
    returns (r: Result<DeleteTxn, CatalogError>)
    ensures r.Err? <==> FindFirst(catalog.rows, KeyFor(itemType, name, tags)).None?
    ensures r.Err? ==> r.error == NotFound(itemType, name, tags)
    ensures r.Ok? ==> fresh(r.value) && r.value.itemType == itemType && r.value.name == name && r.value.tags == TagsText(tags)
    ensures r.Ok? ==> r.value.uri == catalog.rows[FindFirst(catalog.rows, KeyFor(itemType, name, tags)).value].uri
  {
    if FindFirst(catalog.rows, KeyFor(itemType, name, tags)).None? {
      return Err(NotFound(itemType, name, tags));
    }
    var txn := new DeleteTxn(catalog, itemType, name, tags);
    return Ok(txn);
  }

  /** The stored schema read back with `json.loads`. */
  function DecodeSchema(row: Row): Option<Dict>
  {
    if row.schema.None? then None else Json.Decode(row.schema.value)
  }

  /**
   * `get_catalog_item`: no validation; the first matching row's uri and
   * times, with the name and tags as the caller gave them and, for a table,
   * the stored schema read back.
   */
  function GetCatalogItem(rows: seq<Row>, itemType: ItemType, name: string, tags: Dict): (r: Result<ItemMetadata, CatalogError>)
    ensures FindFirst(rows, KeyFor(itemType, name, tags)).None? ==> r == Err(NotFound(itemType, name, tags))
    ensures FindFirst(rows, KeyFor(itemType, name, tags)).Some? ==>
      var row := rows[FindFirst(rows, KeyFor(itemType, name, tags)).value];
      match itemType
      case Object => r == Ok(ObjectItem(row.uri, name, tags, row.createdAt, row.updatedAt))
      case Table =>
        if DecodeSchema(row).None? then r == Err(CorruptRow(row.uri))
        else r == Ok(TableItem(row.uri, name, tags, DecodeSchema(row).value, row.createdAt, row.updatedAt))
  {
    match FindFirst(rows, KeyFor(itemType, name, tags))
    case None => Err(NotFound(itemType, name, tags))
    case Some(i) =>
      var row := rows[i];
      match itemType
      case Object => Ok(ObjectItem(row.uri, name, tags, row.createdAt, row.updatedAt))
      case Table =>
        match DecodeSchema(row)
        case None => Err(CorruptRow(row.uri))
        case Some(schema) => Ok(TableItem(row.uri, name, tags, schema, row.createdAt, row.updatedAt))
  }

  /**
   * `mv_catalog_item`: CatalogItemNotFoundError when no row has the old
   * identity; otherwise every such row is renamed. The new name and tags are
   * neither validated nor checked against existing rows.
   */
  method MoveCatalogItem(catalog: CatalogTable, itemType: ItemType, oldName: string, oldTags: Dict,
                         newName: string, newTags: Dict, now: int)
    returns (r: Outcome<CatalogError>)
    modifies catalog
    ensures FindFirst(old(catalog.rows), KeyFor(itemType, oldName, oldTags)).None? ==>
      r == Fail(NotFound(itemType, oldName, oldTags)) && catalog.rows == old(catalog.rows)
    ensures FindFirst(old(catalog.rows), KeyFor(itemType, oldName, oldTags)).Some? ==>
      r == Pass && catalog.rows == Rename(old(catalog.rows), KeyFor(itemType, oldName, oldTags), newName, TagsText(newTags), now)
  {
    var oldKey := KeyFor(itemType, oldName, oldTags);
    if FindFirst(catalog.rows, oldKey).None? {
      return Fail(NotFound(itemType, oldName, oldTags));
    }
    catalog.MergeRename(oldKey, newName, TagsText(newTags), now);
    return Pass;
  }

  // ---------------------------------------------------------------------------
  // What the merges keep and change.

  /** Two row sequences with the same identities position by position find the same first row. */
  lemma {:induction false} SameKeysFindSame(a: seq<Row>, b: seq<Row>, key: Key)
    requires |a| == |b| && forall i :: 0 <= i < |a| ==> KeyOf(a[i]) == KeyOf(b[i])
    ensures FindFirst(a, key) == FindFirst(b, key)
  {
    if |a| > 0 {
      SameKeysFindSame(a[1..], b[1..], key);
    }
  }

  lemma {:induction false} FindFirstAppend(rows: seq<Row>, row: Row)
    requires FindFirst(rows, KeyOf(row)).None?
    ensures FindFirst(rows + [row], KeyOf(row)) == Some(|rows|)
  {
    if |rows| > 0 {
      assert (rows + [row])[1..] == rows[1..] + [row];
      FindFirstAppend(rows[1..], row);
    }
  }

  /**
   * After the write merge, the identity resolves to a row with the uri and
   * created_at the identity had before (or the source's, for a new identity)
   * and with the source's schema and updated_at.
   */
  lemma UpsertResolves(rows: seq<Row>, src: Row)
    ensures FindFirst(Upsert(rows, src), KeyOf(src)).Some?
    ensures var row := Upsert(rows, src)[FindFirst(Upsert(rows, src), KeyOf(src)).value];
      row.schema == src.schema && row.updatedAt == src.updatedAt && KeyOf(row) == KeyOf(src) &&
      match FindFirst(rows, KeyOf(src))
      case Some(i) => row.uri == rows[i].uri && row.createdAt == rows[i].createdAt
      case None => row == src
  {
    var r := Upsert(rows, src);
    if FindFirst(rows, KeyOf(src)).Some? {
      SameKeysFindSame(rows, r, KeyOf(src));
    } else {
      FindFirstAppend(rows, src);
    }
  }

  lemma UpsertUnique(rows: seq<Row>, src: Row)
    ensures Unique(rows) ==> Unique(Upsert(rows, src))
  {
    var r := Upsert(rows, src);
    if Unique(rows) && FindFirst(rows, KeyOf(src)).None? {
      forall i, j | 0 <= i < j < |r| ensures KeyOf(r[i]) != KeyOf(r[j]) {
        if j == |rows| {
          assert KeyOf(rows[i]) != KeyOf(src);
        }
      }
    }
  }

  lemma UpsertWellFormed(rows: seq<Row>, src: Row)
    ensures WellFormed(rows) && WellFormedRow(src) ==> WellFormed(Upsert(rows, src))
  {
    var r := Upsert(rows, src);
    if WellFormed(rows) && WellFormedRow(src) {
      forall i | 0 <= i < |r| ensures WellFormedRow(r[i]) {
        if i < |rows| && KeyOf(rows[i]) == KeyOf(src) {
          assert r[i] == rows[i].(schema := src.schema, updatedAt := src.updatedAt);
        }
      }
    }
  }

  lemma UniqueTail(rows: seq<Row>)
    requires Unique(rows) && |rows| > 0
    ensures Unique(rows[1..])
    ensures forall x :: x in rows[1..] ==> KeyOf(x) != KeyOf(rows[0])
  {
    forall x | x in rows[1..] ensures KeyOf(x) != KeyOf(rows[0]) {
      var j :| 0 <= j < |rows[1..]| && rows[1..][j] == x;
      assert rows[j + 1] == x;
    }
  }

  lemma UniqueCons(x: Row, rest: seq<Row>)
    requires Unique(rest)
    requires forall y :: y in rest ==> KeyOf(y) != KeyOf(x)
    ensures Unique([x] + rest)
  {
    var r := [x] + rest;
    forall i, j | 0 <= i < j < |r| ensures KeyOf(r[i]) != KeyOf(r[j]) {
      assert r[j] == rest[j - 1];
      if i > 0 {
        assert r[i] == rest[i - 1];
      }
    }
  }

  lemma {:induction false} DeleteUnique(rows: seq<Row>, key: Key)
    ensures Unique(rows) ==> Unique(Delete(rows, key))
  {
    if Unique(rows) && |rows| > 0 {
      UniqueTail(rows);
      DeleteUnique(rows[1..], key);
      var rest := Delete(rows[1..], key);
      if KeyOf(rows[0]) != key {
        UniqueCons(rows[0], rest);
      }
    }
  }

  lemma DeleteWellFormed(rows: seq<Row>, key: Key)
    ensures WellFormed(rows) ==> WellFormed(Delete(rows, key))
  {
    var r := Delete(rows, key);
    if WellFormed(rows) {
      forall i | 0 <= i < |r| ensures WellFormedRow(r[i]) {
        assert r[i] in r;
        var j :| 0 <= j < |rows| && rows[j] == r[i];
      }
    }
  }

  lemma RenameWellFormed(rows: seq<Row>, key: Key, newName: string, newTags: string, now: int)
    ensures WellFormed(rows) && Json.Decode(newTags).Some? ==> WellFormed(Rename(rows, key, newName, newTags, now))
  {
  }

  /** A rename to an identity no row has keeps identities unique. */
  lemma RenameUnique(rows: seq<Row>, key: Key, newName: string, newTags: string, now: int)
    requires Unique(rows)
    requires FindFirst(rows, Key(newName, key.itemType, newTags)).None? || Key(newName, key.itemType, newTags) == key
    ensures Unique(Rename(rows, key, newName, newTags, now))
  {
    var r := Rename(rows, key, newName, newTags, now);
    var newKey := Key(newName, key.itemType, newTags);
    forall i, j | 0 <= i < j < |r| ensures KeyOf(r[i]) != KeyOf(r[j]) {
      assert KeyOf(rows[i]) != KeyOf(rows[j]);
      if KeyOf(rows[i]) == key {
        assert KeyOf(r[i]) == newKey;
      }
      if KeyOf(rows[j]) == key {
        assert KeyOf(r[j]) == newKey;
      }
    }
  }

  /**
   * `mv_catalog_item` does not look for the new identity: renaming onto an
   * identity that already has a row leaves two rows with one identity.
   */
  lemma RenameCanDuplicate(a: Row, b: Row, now: int)
    requires a.itemType == b.itemType && KeyOf(a) != KeyOf(b)
    ensures Unique([a, b])
    ensures !Unique(Rename([a, b], KeyOf(a), b.name, b.tags, now))
  {
    var r := Rename([a, b], KeyOf(a), b.name, b.tags, now);
    assert KeyOf(r[0]) == KeyOf(b) && r[1] == b;
  }

  /** The first row with `key` is at `i` when row `i` has it and none before does. */
  lemma FindFirstIs(rows: seq<Row>, key: Key, i: nat)
    requires i < |rows| && KeyOf(rows[i]) == key
    requires forall j :: 0 <= j < i ==> KeyOf(rows[j]) != key
    ensures FindFirst(rows, key) == Some(i)
  {
  }

  /**
   * After a rename to an identity no row had, the new identity resolves to
   * the row the old one resolved to, with its uri and created_at, and the
   * old identity resolves to nothing.
   */
  lemma RenameResolves(rows: seq<Row>, key: Key, newName: string, newTags: string, now: int)
    requires FindFirst(rows, key).Some?
    requires FindFirst(rows, Key(newName, key.itemType, newTags)).None?
    ensures FindFirst(Rename(rows, key, newName, newTags, now), Key(newName, key.itemType, newTags)) == FindFirst(rows, key)
    ensures FindFirst(Rename(rows, key, newName, newTags, now), key).None?
  {
    var r := Rename(rows, key, newName, newTags, now);
    var newKey := Key(newName, key.itemType, newTags);
    var i := FindFirst(rows, key).value;
    assert newKey != key by {
      assert KeyOf(rows[i]) != newKey;
    }
    forall j | 0 <= j < |r| ensures KeyOf(r[j]) != key {
      if KeyOf(rows[j]) == key {
        assert KeyOf(r[j]) == newKey;
      } else {
        assert r[j] == rows[j];
      }
    }
    forall j | 0 <= j < i ensures KeyOf(r[j]) != newKey {
      assert r[j] == rows[j];
    }
    assert KeyOf(r[i]) == newKey;
    FindFirstIs(r, newKey, i);
  }

  /** After the delete merge nothing carries the identity any more, so a lookup raises CatalogItemNotFoundError. */
  lemma DeleteThenNotFound(rows: seq<Row>, itemType: ItemType, name: string, tags: Dict)
    ensures GetCatalogItem(Delete(rows, KeyFor(itemType, name, tags)), itemType, name, tags) == Err(NotFound(itemType, name, tags))
  {
    var key := KeyFor(itemType, name, tags);
    var r := Delete(rows, key);
    forall j | 0 <= j < |r| ensures KeyOf(r[j]) != key {
      assert r[j] in r;
    }
  }

  /** The row a write commits reads back: its tags always, its schema for a table. */
  lemma CommitRowWellFormed(txn: WriteTxn, tags: Dict, now: int, schemaOf: string -> Dict)
    requires txn.tags == TagsText(tags)
    ensures WellFormedRow(txn.CommitRow(now, schemaOf))
  {
    TagsTextDecodes(tags);
    Json.DecodeEncode(schemaOf(txn.uri));
  }

  /**
   * A committed write is found again: `get_catalog_item` on the same identity
   * returns the transaction's uri, the committed updated_at and, for a
   * table, the schema that was committed (as a dict holding the same pairs).
   */
  lemma WriteThenGet(rows: seq<Row>, txn: WriteTxn, tags: Dict, now: int, schemaOf: string -> Dict)
    requires txn.tags == TagsText(tags)
    requires match FindFirst(rows, txn.TxnKey())
      case Some(i) => txn.uri == rows[i].uri
      case None => true
    ensures var got := GetCatalogItem(Upsert(rows, txn.CommitRow(now, schemaOf)), txn.itemType, txn.name, tags);
      got.Ok? && got.value.uri == txn.uri && got.value.updatedAt == now &&
      got.value.name == txn.name && got.value.tags == tags &&
      (txn.itemType == Object <==> got.value.ObjectItem?) &&
      (got.value.TableItem? ==> ToMap(got.value.schema) == ToMap(schemaOf(txn.uri)))
  {
    var src := txn.CommitRow(now, schemaOf);
    assert KeyFor(txn.itemType, txn.name, tags) == KeyOf(src);
    UpsertResolves(rows, src);
    var schema := schemaOf(txn.uri);
    Json.DecodeEncode(schema);
    SortByKeySorted(schema);
    SortedKeysUnique(SortByKey(schema));
    SameMapIffSamePairs(SortByKey(schema), schema);
  }

  /**
   * Writing again to an identity that has a row keeps its uri and
   * created_at and moves updated_at to the commit time.
   */
  lemma RewriteKeepsCreated(rows: seq<Row>, txn: WriteTxn, now: int, schemaOf: string -> Dict)
    requires FindFirst(rows, txn.TxnKey()).Some?
    ensures var i := FindFirst(rows, txn.TxnKey()).value;
      var after := Upsert(rows, txn.CommitRow(now, schemaOf));
      after[i].uri == rows[i].uri && after[i].createdAt == rows[i].createdAt && after[i].updatedAt == now &&
      |after| == |rows|
  {
  }
}
