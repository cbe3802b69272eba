/**
 * The object store behind the catalog, seen through `fsspec`: the set of keys
 * of the objects it holds. A path "exists" when it is a key or a prefix
 * (directory) of one, after trailing slashes are stripped, which is what
 * `_prefix_exists` asks of `fs.exists`.
 */
module Storage {
  import opened Wrappers
  import opened Strings

  /** Key `k` lies inside directory `dir`. */
  predicate Under(k: string, dir: string)
  {
    dir + "/" <= k
  }

  class ObjectStore {
    var keys: set<string>

    constructor(keys: set<string>)
      ensures this.keys == keys
    {
      this.keys := keys;
    }

    /** `_prefix_exists(p)`: `fs.exists(p.rstrip("/"))`. */
    predicate Exists(p: string)
      reads this
    {
      var q := RStrip(p, '/');
      q in keys || exists k :: k in keys && Under(k, q)
    }

    /**
     * Closing a file opened for writing stores the object at `path`, under
     * the key `fsspec` makes of it: the path with its trailing slashes
     * stripped.
     */
    method Put(path: string)
      modifies this
      ensures keys == old(keys) + {RStrip(path, '/')}
      ensures Exists(path)
    {
      keys := keys + {RStrip(path, '/')};
    }

    /**
     * `fs.rm(path)`: removes the one object under the stripped key. The
     * store's delete is silent when there is no such key.
     */
    method Remove(path: string)
      modifies this
      ensures keys == old(keys) - {RStrip(path, '/')}
      ensures RStrip(path, '/') !in keys
    {
      keys := keys - {RStrip(path, '/')};
    }

    /** `fs.rm(path, recursive=True)`: removes the object and everything under it, or fails when nothing is there. */
    method RemoveTree(path: string) returns (r: Outcome<string>)
      modifies this
      ensures old(Exists(path)) ==> r == Pass && keys == set k | k in old(keys) && k != RStrip(path, '/') && !Under(k, RStrip(path, '/'))
      ensures old(Exists(path)) ==> !Exists(path)
      ensures !old(Exists(path)) ==> r == Fail(path) && keys == old(keys)
    {
      var q := RStrip(path, '/');
      if Exists(path) {
        keys := set k | k in keys && k != q && !Under(k, q);
        r := Pass;
      } else {
        r := Fail(path);
      }
    }
  }

  /** Trailing slashes make no difference to existence. */
  lemma {:induction false} TrailingSlashIgnored(store: ObjectStore, p: string)
    ensures store.Exists(p + "/") == store.Exists(p)
  {
    assert (p + "/")[..|p|] == p;
  }

  /** A path and the path with a slash appended name the same key, so writing one and removing the other agree. */
  lemma {:induction false} SlashSameKey(p: string)
    ensures RStrip(p + "/", '/') == RStrip(p, '/')
  {
    assert (p + "/")[..|p|] == p;
  }

  /** Whatever lies under `dir + "/" + sub` lies under `dir` with its trailing slashes stripped. */
  lemma {:induction false} NestedUnder(k: string, dir: string, sub: string)
    requires Under(k, dir + "/" + sub)
    ensures Under(k, RStrip(dir, '/')) || k == RStrip(dir, '/')
  {
    var q := RStrip(dir, '/');
    assert k[..|dir| + 1] == dir + "/";
    if q == dir {
      assert k[..|q| + 1] == q + "/";
    } else {
      assert dir[|q|] == '/';
      assert k[..|q| + 1] == q + "/";
    }
  }

  /** One trailing slash after a path that does not end in one is all that is stripped. */
  lemma RStripOneSlash(s: string)
    requires |s| > 0 && s[|s| - 1] != '/'
    ensures RStrip(s + "/", '/') == s
  {
    var r := RStrip(s + "/", '/');
    assert (s + "/")[|s| - 1] == s[|s| - 1];
    assert r == (s + "/")[..|r|];
  }

  /** A key below `dir + "/"` lies inside `dir` with its trailing slashes stripped. */
  lemma InsideDir(k: string, dir: string)
    requires dir + "/" <= k
    ensures Under(k, RStrip(dir, '/'))
  {
    var q := RStrip(dir, '/');
    assert dir <= k;
    if q != dir {
      assert dir[|q|] == '/';
    }
    assert k[..|q| + 1] == q + "/";
  }

  /** Storing a path inside `s + "/"` makes that directory exist, whatever slashes the key loses. */
  lemma DirectoryExists(store: ObjectStore, s: string, entry: string)
    requires |s| > 0 && s[|s| - 1] != '/'
    requires RStrip(s + "/" + entry, '/') in store.keys
    ensures store.Exists(s + "/")
  {
    RStripOneSlash(s);
    var p := s + "/" + entry;
    var k := RStrip(p, '/');
    assert p[|s| - 1] == s[|s| - 1];
    assert |k| >= |s|;
    if |k| == |s| {
      assert k == p[..|s|] == s;
    } else {
      assert k[..|s| + 1] == p[..|s| + 1] == s + "/";
      assert Under(k, s);
    }
  }

  /** A directory nested in `dir` exists only if `dir` does. */
  lemma NestedExists(store: ObjectStore, dir: string, sub: string)
    requires |sub| > 0 && sub[|sub| - 1] != '/'
    ensures store.Exists(dir + "/" + sub + "/") ==> store.Exists(dir)
  {
    if store.Exists(dir + "/" + sub + "/") {
      var q := dir + "/" + sub;
      RStripOneSlash(q);
      var k :| k in store.keys && (k == q || Under(k, q));
      assert q <= k by {
        if k != q {
          assert Under(k, q);
          assert k[..|q| + 1] == q + "/";
          assert k[..|q|] == (q + "/")[..|q|] == q;
        }
      }
      assert q[..|dir| + 1] == dir + "/";
      InsideDir(k, dir);
    }
  }
}
