/**
 * Python's `Dict[str, str]`: an insertion-ordered sequence of pairs with
 * distinct keys. Two dicts are equal in Python exactly when `ToMap` agrees,
 * whatever their insertion orders.
 */
module Dicts {
  import opened Strings

  type Pair = (string, string)

  function Keys(d: seq<Pair>): set<string>
  {
    if |d| == 0 then {} else {d[0].0} + Keys(d[1..])
  }

  predicate KeysUnique(d: seq<Pair>)
  {
    |d| == 0 || (d[0].0 !in Keys(d[1..]) && KeysUnique(d[1..]))
  }

  type Dict = d: seq<Pair> | KeysUnique(d) witness []

  /** The key-to-value mapping a pair sequence denotes; a later pair wins, as in `dict(pairs)`. */
  function ToMap(d: seq<Pair>): (m: map<string, string>)
    ensures m.Keys == Keys(d)
  {
    if |d| == 0 then map[]
    else
      var m := ToMap(d[1..]);
      if d[0].0 in m then m else m[d[0].0 := d[0].1]
  }

  lemma {:induction false} KeysIff(d: seq<Pair>, k: string)
    ensures k in Keys(d) <==> exists p :: p in d && p.0 == k
  {
    if |d| > 0 {
      KeysIff(d[1..], k);
      assert d == [d[0]] + d[1..];
    }
  }

  lemma {:induction false} KeysAppend(a: seq<Pair>, b: seq<Pair>)
    ensures Keys(a + b) == Keys(a) + Keys(b)
  {
    if |a| > 0 {
      assert (a + b)[1..] == a[1..] + b;
      KeysAppend(a[1..], b);
    } else {
      assert a + b == b;
    }
  }

  lemma {:induction false} KeysUniqueSnoc(a: seq<Pair>, p: Pair)
    ensures KeysUnique(a + [p]) <==> KeysUnique(a) && p.0 !in Keys(a)
  {
    if |a| > 0 {
      assert (a + [p])[1..] == a[1..] + [p];
      KeysUniqueSnoc(a[1..], p);
      KeysAppend(a[1..], [p]);
    }
  }

  /** With distinct keys, a pair belongs to the sequence exactly when the mapping holds it. */
  lemma {:induction false} PairInIff(d: seq<Pair>, p: Pair)
    requires KeysUnique(d)
    ensures p in d <==> p.0 in ToMap(d) && ToMap(d)[p.0] == p.1
  {
    if |d| > 0 {
      PairInIff(d[1..], p);
      assert d == [d[0]] + d[1..];
    }
  }

  /** The two sequences hold the same pairs, in whatever order. */
  ghost predicate SamePairs(s1: seq<Pair>, s2: seq<Pair>)
  {
    forall p :: p in s1 <==> p in s2
  }

  /** Dicts are equal as Python dicts exactly when they hold the same pairs. */
  lemma SameMapIffSamePairs(d1: Dict, d2: Dict)
    ensures ToMap(d1) == ToMap(d2) <==> SamePairs(d1, d2)
  {
    forall p: Pair
      ensures p in d1 <==> p.0 in ToMap(d1) && ToMap(d1)[p.0] == p.1
      ensures p in d2 <==> p.0 in ToMap(d2) && ToMap(d2)[p.0] == p.1
    {
      PairInIff(d1, p);
      PairInIff(d2, p);
    }
    if SamePairs(d1, d2) {
      forall k | k in ToMap(d1)
        ensures k in ToMap(d2) && ToMap(d2)[k] == ToMap(d1)[k]
      {
        assert (k, ToMap(d1)[k]) in d1;
      }
      forall k | k in ToMap(d2)
        ensures k in ToMap(d1)
      {
        assert (k, ToMap(d2)[k]) in d2;
      }
    }
  }

  /** Putting a pair with a fresh key in front keeps keys distinct and maps that key to its value. */
  lemma ConsFresh(p: Pair, rest: seq<Pair>)
    requires KeysUnique(rest) && p.0 !in Keys(rest)
    ensures KeysUnique([p] + rest)
    ensures Keys([p] + rest) == {p.0} + Keys(rest)
    ensures ToMap([p] + rest) == ToMap(rest)[p.0 := p.1]
  {
    assert ([p] + rest)[0] == p && ([p] + rest)[1..] == rest;
  }

  /** `d[k] = v`: replaces the value in place when `k` is present, appends otherwise. */
  function Put(d: Dict, k: string, v: string): (r: Dict)
    ensures Keys(r) == Keys(d) + {k}
    ensures ToMap(r) == ToMap(d)[k := v]
    ensures k !in Keys(d) ==> r == d + [(k, v)]
  {
    if |d| == 0 then
      ConsFresh((k, v), []);
      assert [(k, v)] + [] == [(k, v)];
      [(k, v)]
    else
      assert d == [d[0]] + d[1..];
      if d[0].0 == k then
        ConsFresh(d[0], d[1..]);
        ConsFresh((k, v), d[1..]);
        [(k, v)] + d[1..]
      else
        var rest := Put(d[1..], k, v);
        PutStep(d[0], d[1..], rest, k, v);
        [d[0]] + rest
  }

  /** The recursive case of `Put`: an earlier pair with another key stays in front. */
  lemma PutStep(p: Pair, tail: seq<Pair>, rest: seq<Pair>, k: string, v: string)
    requires KeysUnique(tail) && KeysUnique(rest) && p.0 != k && p.0 !in Keys(tail)
    requires Keys(rest) == Keys(tail) + {k} && ToMap(rest) == ToMap(tail)[k := v]
    requires k !in Keys(tail) ==> rest == tail + [(k, v)]
    ensures KeysUnique([p] + rest)
    ensures Keys([p] + rest) == Keys([p] + tail) + {k}
    ensures ToMap([p] + rest) == ToMap([p] + tail)[k := v]
    ensures k !in Keys([p] + tail) ==> [p] + rest == [p] + tail + [(k, v)]
  {
    ConsFresh(p, tail);
    ConsFresh(p, rest);
    UpdateCommutes(ToMap(tail), k, v, p.0, p.1);
    if k !in Keys([p] + tail) {
      assert [p] + (tail + [(k, v)]) == [p] + tail + [(k, v)];
    }
  }

  lemma UpdateCommutes(m: map<string, string>, a: string, x: string, b: string, y: string)
    requires a != b
    ensures m[a := x][b := y] == m[b := y][a := x]
  {
  }

  lemma {:induction false} ToMapSnoc(a: seq<Pair>, p: Pair)
    ensures ToMap(a + [p]) == ToMap(a)[p.0 := p.1]
  {
    if |a| > 0 {
      assert (a + [p])[1..] == a[1..] + [p];
      ToMapSnoc(a[1..], p);
    }
  }

  /** `dict(pairs)`: a later duplicate overwrites the value and keeps the first position. */
  function FromPairs(ps: seq<Pair>): (d: Dict)
    ensures ToMap(d) == ToMap(ps)
  {
    if |ps| == 0 then []
    else
      var init, last := ps[..|ps| - 1], ps[|ps| - 1];
      assert ps == init + [last];
      ToMapSnoc(init, last);
      Put(FromPairs(init), last.0, last.1)
  }

  /** `dict(pairs)` keeps pairs whose keys are already distinct exactly as they are. */
  lemma {:induction false} FromPairsDistinct(ps: seq<Pair>)
    requires KeysUnique(ps)
    ensures FromPairs(ps) == ps
  {
    if |ps| > 0 {
      var init, last := ps[..|ps| - 1], ps[|ps| - 1];
      assert ps == init + [last];
      assert KeysUnique(init) && last.0 !in Keys(init) by {
        KeysUniqueSnoc(init, last);
      }
      assert FromPairs(init) == init by {
        FromPairsDistinct(init);
      }
    }
  }

  /** Keys strictly increasing in Python's string order, as `sorted(d.items())` gives for distinct keys. */
  ghost predicate SortedByKey(s: seq<Pair>)
  {
    |s| == 0 || ((forall p :: p in s[1..] ==> Less(s[0].0, p.0)) && SortedByKey(s[1..]))
  }

  function InsertByKey(p: Pair, s: seq<Pair>): (r: seq<Pair>)
    ensures Keys(r) == Keys(s) + {p.0}
    ensures forall x :: x in r <==> x in s || x == p
  {
    if |s| == 0 then [p]
    else if Less(p.0, s[0].0) then
      assert ([p] + s)[1..] == s;
      [p] + s
    else
      var rest := InsertByKey(p, s[1..]);
      assert ([s[0]] + rest)[1..] == rest;
      assert s == [s[0]] + s[1..];
      [s[0]] + rest
  }

  /** The pairs of `d` ordered by key: the order in which `json.dumps(d, sort_keys=True)` writes them. */
  function SortByKey(d: seq<Pair>): (r: seq<Pair>)
    ensures Keys(r) == Keys(d)
    ensures forall x :: x in r <==> x in d
  {
    if |d| == 0 then []
    else
      assert d == [d[0]] + d[1..];
      InsertByKey(d[0], SortByKey(d[1..]))
  }

  lemma {:induction false} InsertByKeySorted(p: Pair, s: seq<Pair>)
    requires SortedByKey(s) && p.0 !in Keys(s)
    ensures SortedByKey(InsertByKey(p, s))
  {
    if |s| > 0 {
      if Less(p.0, s[0].0) {
        forall x | x in s ensures Less(p.0, x.0) {
          if x != s[0] {
            assert x in s[1..] by { assert s == [s[0]] + s[1..]; }
            LessTransitive(p.0, s[0].0, x.0);
          }
        }
        assert ([p] + s)[1..] == s;
      } else {
        LessTotal(p.0, s[0].0);
        InsertByKeySorted(p, s[1..]);
        var rest := InsertByKey(p, s[1..]);
        assert ([s[0]] + rest)[1..] == rest;
      }
    }
  }

  /** Sorting orders the pairs strictly by key. */
  lemma {:induction false} SortByKeySorted(d: seq<Pair>)
    requires KeysUnique(d)
    ensures SortedByKey(SortByKey(d))
  {
    if |d| > 0 {
      SortByKeySorted(d[1..]);
      InsertByKeySorted(d[0], SortByKey(d[1..]));
    }
  }

  /** Two key-sorted sequences holding the same pairs are the same sequence. */
  lemma {:induction false} SortedUnique(s1: seq<Pair>, s2: seq<Pair>)
    requires SortedByKey(s1) && SortedByKey(s2)
    requires SamePairs(s1, s2)
    ensures s1 == s2
  {
    if |s1| > 0 { assert s1[0] in s1; }
    if |s2| > 0 { assert s2[0] in s2; }
    if |s1| > 0 && |s2| > 0 {
      assert s1 == [s1[0]] + s1[1..] && s2 == [s2[0]] + s2[1..];
      assert s1[0] in s2 && s2[0] in s1;
      assert s1[0] == s2[0] by {
        if s1[0] != s2[0] {
          assert s1[0] in s2[1..] && s2[0] in s1[1..];
          LessAsymmetric(s1[0].0, s2[0].0);
          assert false;
        }
      }
      forall x ensures x in s1[1..] <==> x in s2[1..] {
        LessIrreflexive(s1[0].0);
        if x in s1[1..] {
          assert x in s1 && x in s2 && Less(s1[0].0, x.0);
        }
        if x in s2[1..] {
          assert x in s2 && x in s1 && Less(s2[0].0, x.0);
        }
      }
      SortedUnique(s1[1..], s2[1..]);
    }
  }

  /** Sorting by key forgets the insertion order and nothing else. */
  lemma SortByKeyCanonical(d1: Dict, d2: Dict)
    ensures SortByKey(d1) == SortByKey(d2) <==> ToMap(d1) == ToMap(d2)
  {
    SameMapIffSamePairs(d1, d2);
    if ToMap(d1) == ToMap(d2) {
      SortByKeySorted(d1);
      SortByKeySorted(d2);
      SortedUnique(SortByKey(d1), SortByKey(d2));
    }
  }

  /** A key-sorted sequence has distinct keys, so it is itself a dict. */
  lemma {:induction false} SortedKeysUnique(s: seq<Pair>)
    requires SortedByKey(s)
    ensures KeysUnique(s)
  {
    if |s| > 0 {
      SortedKeysUnique(s[1..]);
      KeysIff(s[1..], s[0].0);
      if s[0].0 in Keys(s[1..]) {
        LessIrreflexive(s[0].0);
      }
    }
  }
}
