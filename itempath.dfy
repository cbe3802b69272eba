/**
 * Item paths: a name optionally followed by `?` and the tags as a form-encoded
 * query string, as `parse_item_path` and `build_item_path` read and write
 * them, and the rule the public helpers use to pick an identity from a path
 * or from an explicit name and tags.
 */
module ItemPath {
  import opened Wrappers
  import opened Strings
  import opened Dicts
  import opened Identity
  import FormUrl

  /**
   * `parse_item_path`: everything before the first `?` is the name, the rest
   * is parsed with `parse_qsl` and collected into a dict (a later duplicate
   * key overrides an earlier one). Without `?` the tags are empty.
   */
  function ParseItemPath(path: string): (r: (string, Dict))
    ensures '?' !in r.0
    ensures '?' !in path ==> r == (path, [])
    ensures '?' in path ==> r.0 + "?" <= path
    ensures '?' in path ==> r.1 == FromPairs(FormUrl.ParseQsl(path[|r.0| + 1..]))
    ensures '?' in path ==> ToMap(r.1) == ToMap(FormUrl.ParseQsl(path[|r.0| + 1..]))
  {
    match SplitFirst(path, '?')
    case None => (path, [])
    case Some((name, query)) =>
      assert path[|name| + 1..] == query by {
        assert path == name + ['?'] + query;
      }
      (name, FromPairs(FormUrl.ParseQsl(query)))
  }

  /** `build_item_path`: the name alone for empty tags, else `name?` and the form-encoded tags. */
  function BuildItemPath(name: string, tags: Dict): (path: string)
    ensures |tags| == 0 ==> path == name
    ensures |tags| > 0 ==> name + "?" <= path
  {
    if |tags| > 0 then name + "?" + FormUrl.UrlEncode(tags) else name
  }

  /**
   * A built path parses back to the same name and the same tags in the same
   * order, for a name without `?` and tags whose values are not blank
   * (`parse_qsl` drops blank values).
   */
  lemma ParseBuild(name: string, tags: Dict)
    requires '?' !in name
    requires forall i :: 0 <= i < |tags| ==> |tags[i].1| > 0
    ensures ParseItemPath(BuildItemPath(name, tags)) == (name, tags)
  {
    if |tags| > 0 {
      var query := FormUrl.UrlEncode(tags);
      assert BuildItemPath(name, tags) == name + ['?'] + query;
      SplitFirstAt(name, query, '?');
      FormUrl.ParseQslUrlEncode(tags);
      FromPairsDistinct(tags);
    }
  }

  /** Every identity a write transaction accepts survives the path round trip. */
  lemma ValidIdentityParses(name: string, tags: Dict)
    requires ValidIdentity(name, tags)
    ensures ParseItemPath(BuildItemPath(name, tags)) == (name, tags)
  {
    ValidTokenNoQuestionMark(name);
    ParseBuild(name, tags);
  }

  /** A tag whose value is blank does not survive: `name?k=` parses to no tags at all. */
  lemma BlankTagLost(name: string, k: string)
    requires '?' !in name
    ensures ParseItemPath(name + "?" + FormUrl.QuotePlus(k) + "=") == (name, [])
  {
    var query := FormUrl.QuotePlus(k) + "=";
    assert name + "?" + FormUrl.QuotePlus(k) + "=" == name + ['?'] + query;
    SplitFirstAt(name, query, '?');
    FormUrl.BlankValueDropped(k);
  }

  /**
   * `if path: name, tags = parse_item_path(path)`: a non-empty path wins,
   * an empty or missing one leaves the name and tags as given.
   */
  function ResolveIdentity(path: Option<string>, name: string, tags: Dict): (r: (string, Dict))
    ensures path.Some? && |path.value| > 0 ==> r == ParseItemPath(path.value)
    ensures path.None? || |path.value| == 0 ==> r == (name, tags)
  {
    if path.Some? && |path.value| > 0 then ParseItemPath(path.value) else (name, tags)
  }
}
