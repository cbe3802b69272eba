/**
 * What identifies a catalog item: its type, its name and the canonical text
 * of its tags. Names, tag keys and tag values written through a write
 * transaction are checked against one character set; the tags are stored as
 * `json.dumps(tags, sort_keys=True)`.
 */
module Identity {
  import opened Wrappers
  import opened Dicts
  import Json

  datatype ItemType = Table | Object

  /** `CatalogItemType.value`. */
  function TypeValue(t: ItemType): (s: string)
    ensures '/' !in s
  {
    match t
    case Table => "table"
    case Object => "object"
  }

  /** A character `_VALID_NAME_TAG_RE` admits: a letter, a digit, `-`, `_`, `.` or `/`. */
  predicate ValidChar(c: char)
  {
    ('A' <= c <= 'Z') || ('a' <= c <= 'z') || ('0' <= c <= '9') || c == '-' || c == '_' || c == '.' || c == '/'
  }

  /** `_VALID_NAME_TAG_RE.fullmatch(s)`: one or more admitted characters and nothing else. */
  predicate ValidToken(s: string)
  {
    |s| > 0 && forall i :: 0 <= i < |s| ==> ValidChar(s[i])
  }

  predicate ValidTags(tags: seq<Pair>)
  {
    forall i :: 0 <= i < |tags| ==> ValidToken(tags[i].0) && ValidToken(tags[i].1)
  }

  predicate ValidIdentity(name: string, tags: seq<Pair>)
  {
    ValidToken(name) && ValidTags(tags)
  }

  /** The ValueError a write transaction raises, naming the offending string. */
  datatype IdentityError = InvalidName(name: string) | InvalidTagKey(key: string) | InvalidTagValue(value: string)

  /** The first tag, in insertion order, whose key or else whose value is refused. */
  function FirstTagViolation(tags: seq<Pair>): (r: Option<IdentityError>)
    ensures r.None? <==> ValidTags(tags)
    ensures r.Some? && r.value.InvalidTagKey? ==> exists i :: 0 <= i < |tags| && tags[i].0 == r.value.key && !ValidToken(r.value.key)
    ensures r.Some? && r.value.InvalidTagValue? ==> exists i :: 0 <= i < |tags| && tags[i].1 == r.value.value && !ValidToken(r.value.value)
    ensures r.Some? ==> !r.value.InvalidName?
  {
    if |tags| == 0 then None
    else if !ValidToken(tags[0].0) then Some(InvalidTagKey(tags[0].0))
    else if !ValidToken(tags[0].1) then Some(InvalidTagValue(tags[0].1))
    else
      var r := FirstTagViolation(tags[1..]);
      assert ValidTags(tags) <==> ValidTags(tags[1..]) by {
        assert forall i :: 1 <= i < |tags| ==> tags[i] == tags[1..][i - 1];
      }
      assert r.Some? && r.value.InvalidTagKey? ==> exists i :: 0 <= i < |tags| && tags[i].0 == r.value.key by {
        if r.Some? && r.value.InvalidTagKey? {
          var j :| 0 <= j < |tags[1..]| && tags[1..][j].0 == r.value.key;
          assert tags[j + 1].0 == r.value.key;
        }
      }
      assert r.Some? && r.value.InvalidTagValue? ==> exists i :: 0 <= i < |tags| && tags[i].1 == r.value.value by {
        if r.Some? && r.value.InvalidTagValue? {
          var j :| 0 <= j < |tags[1..]| && tags[1..][j].1 == r.value.value;
          assert tags[j + 1].1 == r.value.value;
        }
      }
      r
  }

  /** The ValueError `WriteCatalogItemTxn.__init__` raises first: the name, then each tag key and value in order. */
  function FirstViolation(name: string, tags: seq<Pair>): (r: Option<IdentityError>)
    ensures r.None? <==> ValidIdentity(name, tags)
    ensures r.Some? && r.value.InvalidName? ==> r.value.name == name && !ValidToken(name)
    ensures !ValidToken(name) ==> r == Some(InvalidName(name))
  {
    if !ValidToken(name) then Some(InvalidName(name)) else FirstTagViolation(tags)
  }

  /**
   * The validation loop of `WriteCatalogItemTxn.__init__`: the name first,
   * then every tag key and its value in insertion order; the first refused
   * string is reported.
   */
  method Validate(name: string, tags: Dict) returns (r: Option<IdentityError>)
    ensures r == FirstViolation(name, tags)
    ensures r.None? <==> ValidIdentity(name, tags)
  {
    if !ValidToken(name) {
      return Some(InvalidName(name));
    }
    var i := 0;
    while i < |tags|
      invariant 0 <= i <= |tags|
      invariant FirstTagViolation(tags) == FirstTagViolation(tags[i..])
    {
      var (key, value) := tags[i];
      assert tags[i..][0] == tags[i] && tags[i..][1..] == tags[i + 1..];
      if !ValidToken(key) {
        return Some(InvalidTagKey(key));
      }
      if !ValidToken(value) {
        return Some(InvalidTagValue(value));
      }
      i := i + 1;
    }
    assert tags[i..] == [];
    return None;
  }

  /** `json.dumps(tags, sort_keys=True)`: the text stored in, and compared against, the `tags` column. */
  function TagsText(tags: Dict): string
  {
    Json.Encode(tags)
  }

  /**
   * Two tag dicts give the same stored text exactly when they hold the same
   * pairs, whatever order they were built in: identity equality on the
   * `tags` column is dict equality.
   */
  lemma TagsTextCanonical(t1: Dict, t2: Dict)
    ensures TagsText(t1) == TagsText(t2) <==> ToMap(t1) == ToMap(t2)
  {
    Json.EncodeCanonical(t1, t2);
  }

  /** The stored text reads back as the same tags, in key order. */
  lemma TagsTextDecodes(tags: Dict)
    ensures Json.Decode(TagsText(tags)).Some?
    ensures ToMap(Json.Decode(TagsText(tags)).value) == ToMap(tags)
  {
    Json.DecodeEncode(tags);
    var s := SortByKey(tags);
    SortByKeySorted(tags);
    SortedKeysUnique(s);
    SameMapIffSamePairs(s, tags);
  }

  /** Admitted strings hold no `?`, so a name splits cleanly from a query string. */
  lemma ValidTokenNoQuestionMark(s: string)
    requires ValidToken(s)
    ensures '?' !in s
  {
    forall i | 0 <= i < |s| ensures s[i] != '?' {
      assert ValidChar(s[i]);
    }
  }
}
