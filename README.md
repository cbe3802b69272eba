# Flint catalog — a Dafny model

Flint keeps a catalog of the items in its metastore. Each item is either an
OBJECT (a single blob) or a TABLE (a Delta table). Each item has a logical
identity: a name, an item type and a dict of string tags. The catalog maps
that identity to the physical uri where the content lives, together with a
creation time, an update time and, for tables, a schema. The catalog itself
is a Delta table. It changes only through merges keyed on
`(name, type, tags)`, where tags are compared as the text
`json.dumps(tags, sort_keys=True)`.

Writes and deletes are two-phase transactions.

- A write transaction validates the identity. It then reuses the uri of the
  identity's existing row, or mints
  `s3://metastore/{type}/{timestamp}/{uuid}/{name}`. The caller writes the
  content. On exit the transaction checks that the content is there: the
  object itself, or the table's `_delta_log/` directory. It then merges the
  row.
- A delete transaction resolves the uri. The caller removes the content. On
  exit the transaction checks that the content is gone, then deletes the row.

The object helpers (`fs.py`) and the Delta helpers (`delta.py`) wrap these
transactions. They also wrap the lookup, the rename and the query.

The model is split into these modules:

- `Wrappers`: `Option`, `Result` and `Outcome`.
- `Strings`: code-point order, `split`, `join`, `rstrip` and `str(int)`.
- `Dicts`: insertion-ordered dicts with unique keys, `dict(pairs)`, and
  sorting by key.
- `Json`: `json.dumps(d, sort_keys=True)` for string-to-string dicts, with
  ASCII escaping, and the matching `json.loads`.
- `Utf8`: UTF-8 encoding, and decoding with replacement of ill-formed
  subparts.
- `FormUrl`: `quote_plus`, `unquote_plus`, `urlencode` and `parse_qsl`.
- `Storage`: the object store. It is a set of keys. Writing or removing a
  path uses the path with its trailing slashes stripped as the key, and a
  path exists when, stripped the same way, it is a key or a directory
  prefix of one.
- `Identity`: the name and tag character check, and the canonical tag text.
- `Catalog`: the rows, the three merges, the transactions, the lookup and
  the rename.
- `Query`: `query_catalog`.
- `ItemPath`: `parse_item_path`, `build_item_path`, and the rule that a
  non-empty path overrides the name and tags. `delta.py`'s `_parse_path`
  (`src/common-lib/flint/flint/delta.py:24-31`) has the same body as
  `parse_item_path`, so the Delta helpers use `ItemPath.ParseItemPath`.
- `Fs`: the object helpers.
- `Delta`: the table helpers.

These are parameters rather than calls: the clock (`now`), the UUID
(`uuid`), the table schema reader (`schemaOf`, standing for
`get_delta_schema`), and the Delta writer (`writerOk` and the log entry it
adds).

Exit semantics follow the code. Both transactions' `__exit__` ignore the
exception raised in the `with` body. So a write whose body failed still
commits when the content check passes, and a `drop_delta` whose recursive `fs.rm` raised
still deletes the row when the content is gone. In that case the body's
exception reaches the caller afterwards, and an exception from the exit
replaces it (`Catalog.WithExit`).

## Model

| member | source | states |
|---|---|---|
| Dicts.SortByKeyCanonical | src/common-lib/flint/flint/catalog.py:159 | sorting two dicts by key gives the same sequence exactly when they hold the same pairs |
| Dicts.FromPairsDistinct | src/common-lib/flint/flint/catalog.py:567 | `dict(pairs)` of pairs with distinct keys keeps them all, in order |
| Json.DecodeEncode | src/common-lib/flint/flint/catalog.py:219 | `json.loads(json.dumps(d, sort_keys=True))` gives back `d`'s pairs in key order |
| Json.EncodeCanonical | src/common-lib/flint/flint/catalog.py:159 | two dicts dump to the same sorted-key text exactly when they hold the same pairs |
| Utf8.DecodeEncode | src/common-lib/flint/flint/catalog.py:567 | UTF-8 decoding with replacement undoes encoding for every string |
| FormUrl.QuotePlus | src/common-lib/flint/flint/catalog.py:575 | quoting yields only always-safe characters, `+` and `%`, so no `&`, `=` or `?` survives; it is empty exactly when its input is |
| FormUrl.UnquotePlusQuotePlus | src/common-lib/flint/flint/catalog.py:575 | `unquote_plus(quote_plus(s)) == s` for every string |
| FormUrl.ParseQslUrlEncode | src/common-lib/flint/flint/catalog.py:567 | `parse_qsl(urlencode(d))` returns `d`'s pairs in order when no value is blank |
| FormUrl.ParsePieceEncoded | src/common-lib/flint/flint/catalog.py:567 | one `k=v` piece of `urlencode` parses back to `(k, v)` when `v` is not blank |
| FormUrl.ParsePiecesEncodedStep | src/common-lib/flint/flint/catalog.py:567 | parsing the pieces of `urlencode(d)` yields `d`'s first pair followed by the parse of the remaining pieces |
| FormUrl.BlankValueDropped | src/common-lib/flint/flint/catalog.py:567 | a piece `k=` with a blank value is dropped by `parse_qsl` |
| Storage.ObjectStore.Put | src/common-lib/flint/flint/fs.py:71-72 | closing a written file adds the path's key, the path with trailing slashes stripped, and the path exists afterwards |
| Storage.ObjectStore.Remove | src/common-lib/flint/flint/fs.py:120-121 | `fs.rm` removes exactly the path's stripped key, the same key a write of the path stores, and nothing else |
| Storage.SlashSameKey | src/common-lib/flint/flint/fs.py:121 | a path with or without a trailing slash names the same key |
| Storage.ObjectStore.RemoveTree | src/common-lib/flint/flint/delta.py:158-159 | recursive `fs.rm` removes the key and all below it, after which the path does not exist; it fails without change when nothing is there |
| Storage.TrailingSlashIgnored | src/common-lib/flint/flint/catalog.py:54-60 | `_prefix_exists` gives the same answer with or without a trailing slash |
| Storage.DirectoryExists | src/common-lib/flint/flint/catalog.py:213 | storing a path inside `dir/` makes `dir/` exist, whatever trailing slashes its key loses |
| Storage.NestedExists | src/common-lib/flint/flint/catalog.py:531 | `uri/_delta_log/` exists only if `uri` does |
| Identity.FirstTagViolation | src/common-lib/flint/flint/catalog.py:145-155 | reports nothing exactly when every key and value is admitted; a reported key or value is one of the tags' and is refused |
| Identity.FirstViolation | src/common-lib/flint/flint/catalog.py:138-155 | reports nothing exactly when the identity is valid; a refused name is always reported first |
| Identity.Validate | src/common-lib/flint/flint/catalog.py:138-155 | the validation loop reports the first refused string (name, then each key and its value in insertion order), and nothing exactly when the identity is valid |
| Identity.TagsTextCanonical | src/common-lib/flint/flint/catalog.py:159 | two tag dicts give the same stored tag text exactly when they are equal as dicts, whatever their insertion order |
| Identity.TagsTextDecodes | src/common-lib/flint/flint/catalog.py:453 | the stored tag text always reads back as a dict equal to the tags written |
| Identity.ValidTokenNoQuestionMark | src/common-lib/flint/flint/catalog.py:129 | an admitted name contains no `?` |
| Catalog.FindFirst | src/common-lib/flint/flint/catalog.py:166-174 | `.filter(...).limit(1)` finds the first row with the identity, and finds none exactly when no row has it |
| Catalog.Upsert | src/common-lib/flint/flint/catalog.py:233-255 | the write merge: matching rows keep uri, identity and created_at and take the new schema and updated_at; other rows are unchanged; with no match exactly the source row is appended |
| Catalog.Delete | src/common-lib/flint/flint/catalog.py:538-562 | the delete merge: a row remains exactly when it does not carry the identity, and every other row keeps its multiplicity |
| Catalog.Rename | src/common-lib/flint/flint/catalog.py:364-397 | the rename merge: matching rows take the new name, tags and updated_at and keep uri, type, schema and created_at; other rows are unchanged |
| Catalog.CatalogTable.constructor | src/common-lib/flint/flint/catalog.py:68-90 | the catalog table starts empty |
| Catalog.CatalogTable.MergeUpsert | src/common-lib/flint/flint/catalog.py:233-255 | applies the write merge in place; keeps identities unique and rows well formed |
| Catalog.CatalogTable.MergeDelete | src/common-lib/flint/flint/catalog.py:538-562 | applies the delete merge in place; keeps identities unique and rows well formed |
| Catalog.CatalogTable.MergeRename | src/common-lib/flint/flint/catalog.py:374-397 | applies the rename merge in place; keeps rows well formed |
| Catalog.MintUri | src/common-lib/flint/flint/catalog.py:181-185 | a minted uri ends with `/` and the name |
| Catalog.MintUriInjective | src/common-lib/flint/flint/catalog.py:184 | a minted uri determines type, timestamp text, token and name, so a fresh token never collides |
| Catalog.CreatedAt | src/common-lib/flint/flint/catalog.py:209 | `existing_created or now`: a remembered creation time is kept unless it is 0 |
| Catalog.WithExit | src/common-lib/flint/flint/fs.py:115-121 | a `with` block succeeds exactly when body and exit do; an exit error replaces the body's |
| Catalog.WriteTxn.constructor | src/common-lib/flint/flint/catalog.py:158-185 | reuses the uri and created_at of the identity's first row, or mints a uri when there is none |
| Catalog.WriteTxn.CommitRow | src/common-lib/flint/flint/catalog.py:195-229 | the merged row has the transaction's identity and uri, updated_at = now, the kept created_at, and a schema for tables only |
| Catalog.WriteTxn.Complete | src/common-lib/flint/flint/catalog.py:190-255 | a missing object or `_delta_log/` raises the violation and leaves the rows alone; otherwise the write merge is applied |
| Catalog.BeginWrite | src/common-lib/flint/flint/catalog.py:131-185 | fails with the first validation error exactly when the identity is invalid; otherwise returns a fresh transaction with the resolved uri |
| Catalog.DeleteTxn.constructor | src/common-lib/flint/flint/catalog.py:494-519 | holds the uri of the identity's first row |
| Catalog.DeleteTxn.Complete | src/common-lib/flint/flint/catalog.py:524-562 | content still present raises the violation and leaves the rows alone; otherwise the delete merge is applied |
| Catalog.BeginDelete | src/common-lib/flint/flint/catalog.py:488-519 | fails with not-found exactly when no row has the identity; no validation |
| Catalog.GetCatalogItem | src/common-lib/flint/flint/catalog.py:277-327 | not-found when no row matches; otherwise the first row's uri and times, the caller's name and tags, and for tables the decoded schema (or a corrupt-row error) |
| Catalog.MoveCatalogItem | src/common-lib/flint/flint/catalog.py:329-397 | not-found with rows unchanged, or every row with the old identity renamed; no validation and no collision check |
| Catalog.UpsertResolves | src/common-lib/flint/flint/catalog.py:246-255 | after the write merge the identity resolves to a row with the old uri and created_at (or the new row) and the new schema and updated_at |
| Catalog.UpsertUnique | src/common-lib/flint/flint/catalog.py:246-255 | the write merge keeps identities unique |
| Catalog.UpsertWellFormed | src/common-lib/flint/flint/catalog.py:203-229 | the write merge keeps every row's stored texts readable |
| Catalog.DeleteUnique | src/common-lib/flint/flint/catalog.py:553-562 | the delete merge keeps identities unique |
| Catalog.DeleteWellFormed | src/common-lib/flint/flint/catalog.py:553-562 | the delete merge keeps every row readable |
| Catalog.RenameUnique | src/common-lib/flint/flint/catalog.py:384-397 | a rename onto an unused identity keeps identities unique |
| Catalog.RenameCanDuplicate | src/common-lib/flint/flint/catalog.py:329-397 | a rename onto an identity in use leaves two rows with one identity |
| Catalog.RenameResolves | src/common-lib/flint/flint/catalog.py:384-397 | after a rename onto an unused identity, the new identity resolves to the old identity's row and the old identity to nothing |
| Catalog.DeleteThenNotFound | src/common-lib/flint/flint/catalog.py:302-306 | after the delete merge a lookup of the identity raises not-found |
| Catalog.CommitRowWellFormed | src/common-lib/flint/flint/catalog.py:203-229 | a committed row's tags, and a table's schema, read back |
| Catalog.WriteThenGet | src/common-lib/flint/flint/catalog.py:277-327 | after a commit, the lookup returns the transaction's uri, the commit time and the committed schema |
| Catalog.RewriteKeepsCreated | src/common-lib/flint/flint/catalog.py:209 | rewriting an identity keeps its uri and created_at and sets updated_at to the commit time |
| Query.FieldPredicates | src/common-lib/flint/flint/catalog.py:421-433 | the predicates hold for a row exactly when every given non-tag criterion does |
| Query.BuildPredicatesAsWritten | src/common-lib/flint/flint/catalog.py:434-441 | the late-bound closures hold for a row exactly when the non-tag criteria and the last tag pair do |
| Query.BuildPredicates | src/common-lib/flint/flint/catalog.py:434-441 | with each pair bound, the predicates hold exactly when every criterion holds and every filter pair is among the row's tags |
| Query.KeepMembers | src/common-lib/flint/flint/catalog.py:444 | a filtered frame holds exactly the rows of the frame the predicate holds for |
| Query.SelectMembers | src/common-lib/flint/flint/catalog.py:443-444 | the rows left after all filters are exactly the rows every predicate holds for |
| Query.KeepSelect | src/common-lib/flint/flint/catalog.py:443-444 | filtering by one more predicate is selecting by the longer conjunction |
| Query.ApplyFilters | src/common-lib/flint/flint/catalog.py:443-444 | successive filters give exactly the rows all predicates hold for, in the model's row order |
| Query.Materialise | src/common-lib/flint/flint/catalog.py:449-478 | one metadata entry per row when all rows read back; otherwise the corrupt-row error for the first row that does not |
| Query.QueryCatalog | src/common-lib/flint/flint/catalog.py:399-478 | returns metadata for exactly the matching rows, in order, when they all read back; otherwise the corrupt-row error of the first matching row that does not |
| Query.QueryCatalogAsWritten | src/common-lib/flint/flint/catalog.py:399-478 | as written, returns metadata for exactly the rows passing the last-pair test, in order, or the corrupt-row error of the first that does not read back; every row the filter matches is among the results |
| Query.MatchingLastTag | src/common-lib/flint/flint/catalog.py:434-444 | the rows the query as written keeps are the catalog rows that pass the last-pair test |
| Query.SelectMatchingLastTag | src/common-lib/flint/flint/catalog.py:443-444 | applying the late-bound predicates selects exactly `MatchingLastTag`, in the model's row order |
| Query.MatchingWithinLastTag | src/common-lib/flint/flint/catalog.py:434-441 | every row the query promises is among the rows the query as written returns |
| Query.MatchingLastTagAgrees | src/common-lib/flint/flint/catalog.py:434-441 | with at most one tag pair, the query as written returns exactly the rows it promises |
| Query.SubsetMatch | src/common-lib/flint/flint/fs.py:175-176 | a row passes the tag filter exactly when every filter pair is among the tags it was written with |
| Query.LastTagAgrees | src/common-lib/flint/flint/catalog.py:434-441 | with at most one tag pair, the late-bound test is the intended one |
| Query.LastTagWeaker | src/common-lib/flint/flint/catalog.py:434-441 | the late-bound test only lets extra rows through |
| Query.LateBindingCounterexample | src/common-lib/flint/flint/catalog.py:434-441 | with pairs team=data and env=prod, a row with only env=prod passes the late-bound test but not the intended one |
| Query.StoredTagsForCounterexample | src/common-lib/flint/flint/catalog.py:438 | a row written with env=prod and no team tag has the lookups the counterexample needs |
| Query.MatchingAppend | src/common-lib/flint/flint/catalog.py:253 | in the model's row order (see Left out), an inserted row appears in query results once, after the earlier matches, exactly when it matches |
| Query.FirstWriteQueried | src/common-lib/flint/flint/catalog.py:253 | the first write to an empty catalog is the single entry a matching query returns |
| ItemPath.ParseItemPath | src/common-lib/flint/flint/catalog.py:564-571 | the name is everything before the first `?` (the whole path without one) and the tags are `dict(parse_qsl(rest))` |
| ItemPath.BuildItemPath | src/common-lib/flint/flint/catalog.py:573-578 | the bare name for empty tags, otherwise `name?` followed by the encoded tags |
| ItemPath.ParseBuild | src/common-lib/flint/flint/catalog.py:564-578 | parsing a built path gives back the name and tags when the name has no `?` and no value is blank |
| ItemPath.ValidIdentityParses | src/common-lib/flint/flint/catalog.py:564-578 | every identity a write accepts survives the path round trip |
| ItemPath.BlankTagLost | src/common-lib/flint/flint/catalog.py:564-571 | `name?k=` parses to the name with no tags |
| ItemPath.ResolveIdentity | src/common-lib/flint/flint/fs.py:98-99 | a non-empty path is parsed, otherwise the given name and tags are used |
| Fs.ObjectTxnFile.constructor | src/common-lib/flint/flint/fs.py:29-41 | a handle with the identity and mode, no transaction and no file yet |
| Fs.ObjectTxnFile.Enter | src/common-lib/flint/flint/fs.py:43-69 | read modes look up and open an existing object; "wb"/"ab" begin a write and open its uri; other modes are refused |
| Fs.ObjectTxnFile.Exit | src/common-lib/flint/flint/fs.py:71-75 | closing stores a written object; a write then always commits its row, and a read changes nothing |
| Fs.OpenObject | src/common-lib/flint/flint/fs.py:77-101 | a fresh, unentered handle for the resolved identity |
| Fs.WriteCommitsObject | src/common-lib/flint/flint/fs.py:56-75 | after writing through a handle, the identity resolves to the handle's uri |
| Fs.DeleteObject | src/common-lib/flint/flint/fs.py:103-121 | not-found without change; otherwise the key is removed and the row goes unless another key still lies under the uri, which alone makes the exit raise |
| Fs.DeleteInTxn | src/common-lib/flint/flint/fs.py:114-121 | inside the transaction the key goes; the exit refuses while something remains at the uri, otherwise drops the rows, and it always passes when no other key lies under the uri |
| Fs.MoveObject | src/common-lib/flint/flint/fs.py:123-139 | renames the OBJECT rows, or not-found without change |
| Fs.ExistsObject | src/common-lib/flint/flint/fs.py:141-161 | true exactly when a row has the resolved OBJECT identity |
| Fs.SearchObjects | src/common-lib/flint/flint/fs.py:163-206 | as written, one record per OBJECT row passing the last-pair test, in the model's row order, or the first corrupt row's error; each record holds the last filter pair, and every object holding all pairs is among them |
| Fs.SearchObjectsIntended | src/common-lib/flint/flint/fs.py:163-206 | on the corrected query, one record per matching OBJECT row in the model's row order, each with every filter pair among its tags |
| Fs.TestedPairs | src/common-lib/flint/flint/catalog.py:434-441 | the pairs the late-bound closures test: the filter's last pair, or none |
| Fs.ToRecords | src/common-lib/flint/flint/fs.py:195-204 | one record per metadata entry, same length and order, carrying the entry's uri, name, tags and times |
| Fs.MatchedRecords | src/common-lib/flint/flint/fs.py:185-206 | records built from the metadata of OBJECT rows that all hold some tag pairs describe those rows and hold those pairs |
| Delta.ReadDelta | src/common-lib/flint/flint/delta.py:33-59 | the TABLE lookup's uri read eagerly, or the lookup's error |
| Delta.ScanDelta | src/common-lib/flint/flint/delta.py:61-87 | the TABLE lookup's uri scanned lazily, or the lookup's error |
| Delta.OpenDelta | src/common-lib/flint/flint/delta.py:114-139 | the TABLE lookup's uri opened for management, or the lookup's error |
| Delta.WriteDelta | src/common-lib/flint/flint/delta.py:89-112 | invalid identities change nothing; the uri is resolved or minted at the begin time and the row's times are read at the commit time; a successful write adds its log entry and commits; a failed write commits over an earlier version, or else raises the violation |
| Delta.WriteInTxn | src/common-lib/flint/flint/delta.py:107-112 | inside the transaction: a successful write adds the log entry and commits; a failed one commits when `_delta_log/` is already there, and otherwise the exit raises the violation |
| Delta.DropDelta | src/common-lib/flint/flint/delta.py:141-159 | not-found without change; otherwise the data goes and the rows always go, with FileNotFoundError when nothing was stored |
| Delta.DropInTxn | src/common-lib/flint/flint/delta.py:153-159 | inside the transaction the recursive remove clears the uri, so the exit always drops the rows; a missing uri leaves storage as it was and fails |
| Delta.MoveDelta | src/common-lib/flint/flint/delta.py:161-176 | renames the TABLE rows, or not-found without change |
| Delta.WriteThenRead | src/common-lib/flint/flint/delta.py:107-112 | a table written and then read by the same identity is read from the written uri with the committed schema |
| Delta.MoveThenWrite | src/common-lib/flint/flint/delta.py:170-176 | writing under the new identity after a move reuses the moved table's uri |

## Left out

- Credentials, storage options, `fsspec`, `polars` and `deltalake` are not modelled as such. The catalog table is a sequence of rows, and the object store is a set of keys. Bytes, table data, `fs_open_kwargs` and `polars_kwargs` are not modelled.
- `_ensure_catalog` (`_catalog_exists` and `_create_catalog_if_not_exists`) is not modelled: every operation takes a catalog table that exists. `Catalog.CatalogTable.constructor` stands for its creation.
- Concurrency between transactions and Delta's optimistic commit conflicts are not modelled. Each merge is one atomic step.
- `get_delta_schema` is the parameter `schemaOf`, and the clock and `uuid.uuid4()` are the parameters `now` and `uuid`.
- Identities whose name or tags are `None` or not strings are not modelled; names are strings and tags are dicts of strings.
- The NotImplementedError branches for item types other than OBJECT and TABLE cannot occur, since the type has only those two values.
- The `tags_struct` column that `query_catalog` adds with `str.json_decode` is not modelled. The model does not capture a row whose tag text does not decode making polars raise.
- Query.Eval: a tag predicate on a row whose tags do not decode is false in the model; the source would raise from `json.loads`. Rows written through the model always decode (`Catalog.WellFormed`).
- Json.Decode accepts only the layout `json.dumps(..., sort_keys=True)` produces for dicts of strings, not arbitrary JSON.
- Utf8.EncodeChar: a Dafny `char` is a Unicode scalar value, so lone surrogates cannot occur in the model, and Python's UnicodeEncodeError on them is not modelled.
- Fs.ObjectTxnFile.Enter: opening for read needs the uri, with trailing slashes stripped, to be a key. Opening for append does not read existing content, and the model records the object when the handle is closed.
- Catalog row order: a merge is modelled as keeping the other rows in place and appending an inserted row at the end, and scans read rows in that order. Delta Lake does not guarantee any scan order after a merge, so the order of query and search results, the position `Query.MatchingAppend` gives an inserted row, and which of two duplicate rows `Catalog.FindFirst` picks after `Catalog.RenameCanDuplicate` are facts about the model only. The set of rows a query returns does not depend on the order.
- Delta.WriteDelta: the Delta writer is the log entry it adds and whether it succeeds. Data files and overwrite/append modes are not modelled.
- Storage.ObjectStore.Remove: a non-recursive `fs.rm` of a missing key is taken to succeed silently. `fsspec` passes such a path through without checking that it exists, and the S3 delete ignores missing keys. The storage library is not part of this model, so this is an assumption about it.

## Findings

| source | as written | input that shows it | evidently intended | confidence | as-written member | corrected member |
|---|---|---|---|---|---|---|
| src/common-lib/flint/flint/catalog.py:434-441 | each tag predicate is a lambda over the loop variables `k` and `v`, which the lazy frame evaluates only at `collect()`, so every predicate tests the last pair | `tag_filter={"team": "data", "env": "prod"}` and a row tagged `{"env": "prod"}`: the row is returned | every pair of the filter is among the row's tags (subset match, `fs.py:175-176`) | high, not executed | Query.BuildPredicatesAsWritten, Query.LateBindingCounterexample, Fs.SearchObjects | Query.BuildPredicates, Query.QueryCatalog, Fs.SearchObjectsIntended |
