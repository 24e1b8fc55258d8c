/**
  Rendering of the status-code histogram: `(key: value, key: value)` with
  the entries in ascending order of their keys, as `sorted(d.items())`
  gives them.
 */
module Dicts {
  import opened Text

  /** Keys in strictly ascending order, each therefore once. */
  predicate StrictlySorted(s: seq<string>)
  {
    forall i, j :: 0 <= i < j < |s| ==> LexLess(s[i], s[j])
  }

  /** `m` is the smallest of the keys. */
  predicate IsLeast(m: string, keys: set<string>)
  {
    m in keys && forall k :: k in keys ==> k == m || LexLess(m, k)
  }

  /** Every non-empty set of strings has a smallest element. */
  lemma {:induction false} LeastExists(keys: set<string>)
    requires keys != {}
    ensures exists m :: IsLeast(m, keys)
    decreases |keys|
  {
    var x :| x in keys;
    if keys == {x} {
      assert IsLeast(x, keys);
    } else {
      var rest := keys - {x};
      LeastExists(rest);
      var m :| IsLeast(m, rest);
      LexTotal(x, m);
      if LexLess(x, m) {
        forall k | k in keys
          ensures k == x || LexLess(x, k)
        {
          if k != x && k != m {
            LexTransitive(x, m, k);
          }
        }
        assert IsLeast(x, keys);
      } else {
        assert IsLeast(m, keys);
      }
    }
  }

  /** There is only one smallest element. */
  lemma LeastUnique(keys: set<string>)
    ensures forall a, b :: IsLeast(a, keys) && IsLeast(b, keys) ==> a == b
  {
    forall a, b | IsLeast(a, keys) && IsLeast(b, keys)
      ensures a == b
    {
      LexAsymmetric(a, b);
    }
  }

  function MinKey(keys: set<string>): (m: string)
    requires keys != {}
    ensures IsLeast(m, keys)
  {
    LeastExists(keys);
    LeastUnique(keys);
    var m :| IsLeast(m, keys);
    m
  }

  /** The smallest key sorts before every key of a list of the other keys. */
  lemma LeastBeforeOthers(m: string, keys: set<string>, rest: seq<string>)
    requires IsLeast(m, keys)
    requires forall k :: k in rest <==> k in keys - {m}
    ensures forall j :: 0 <= j < |rest| ==> LexLess(m, rest[j])
  {
    forall j | 0 <= j < |rest|
      ensures LexLess(m, rest[j])
    {
      assert rest[j] in rest;
    }
  }

  /** `sorted(keys)`: every key once, in ascending order. */
  function SortedKeys(keys: set<string>): (r: seq<string>)
    ensures StrictlySorted(r)
    ensures forall k :: k in r <==> k in keys
    ensures |r| == |keys|
    decreases |keys|
  {
    if keys == {} then []
    else
      var m := MinKey(keys);
      var rest := SortedKeys(keys - {m});
      LeastBeforeOthers(m, keys, rest);
      [m] + rest
  }

  /** The first key of an ascending list of the keys is the smallest key. */
  lemma SortedHeadIsLeast(r: seq<string>, keys: set<string>)
    requires r != [] && StrictlySorted(r)
    requires forall k :: k in r <==> k in keys
    ensures IsLeast(r[0], keys)
  {
    forall k | k in keys
      ensures k == r[0] || LexLess(r[0], k)
    {
      var j :| 0 <= j < |r| && r[j] == k;
    }
  }

  /** Behind the first key, an ascending list holds exactly the other keys. */
  lemma SortedTailKeys(r: seq<string>, keys: set<string>)
    requires r != [] && StrictlySorted(r)
    requires forall k :: k in r <==> k in keys
    ensures StrictlySorted(r[1..])
    ensures forall k :: k in r[1..] <==> k in keys - {r[0]}
  {
    var rest := r[1..];
    forall k
      ensures k in rest <==> k in keys - {r[0]}
    {
      if k in rest {
        var j :| 0 <= j < |rest| && rest[j] == k;
        assert LexLess(r[0], r[j + 1]);
        LexIrreflexive(r[0]);
      }
      if k in keys - {r[0]} {
        var j :| 0 <= j < |r| && r[j] == k;
        assert rest[j - 1] == k;
      }
    }
  }

  /** The ascending enumeration of a set of keys is unique: no other order could be produced. */
  lemma {:induction false} SortedKeysUnique(r: seq<string>, keys: set<string>)
    requires StrictlySorted(r)
    requires forall k :: k in r <==> k in keys
    ensures r == SortedKeys(keys)
    decreases |r|
  {
    if r == [] {
      assert keys == {};
    } else {
      var m := r[0];
      SortedHeadIsLeast(r, keys);
      LeastUnique(keys);
      assert MinKey(keys) == m;
      SortedTailKeys(r, keys);
      SortedKeysUnique(r[1..], keys - {m});
      assert r == [m] + r[1..];
    }
  }

  /** `'%s: %s' % (key, value)`. */
  function Entry(key: string, value: int): string
  {
    key + ": " + IntToString(value)
  }

  /** The rendered pairs, one per key of `ks`, in the order of `ks`. */
  function Entries(d: map<string, int>, ks: seq<string>): (r: seq<string>)
    requires forall k :: k in ks ==> k in d
  {
    seq(|ks|, j requires 0 <= j < |ks| => Entry(ks[j], d[ks[j]]))
  }

  /** `dict_to_str(d)`. */
  function DictToStr(d: map<string, int>): (s: string)
    ensures |s| >= 2 && s[0] == '(' && s[|s| - 1] == ')'
  {
    "(" + Join(", ", Entries(d, SortedKeys(d.Keys))) + ")"
  }

  /**
    The output is the rendered entries joined by ", " inside parentheses,
    taken in the one order in which the keys ascend.
   */
  lemma DictToStrOrdered(d: map<string, int>, ks: seq<string>)
    requires StrictlySorted(ks)
    requires forall k :: k in ks <==> k in d
    ensures DictToStr(d) == "(" + Join(", ", Entries(d, ks)) + ")"
  {
    SortedKeysUnique(ks, d.Keys);
  }

  /** One entry per key of the histogram, and the keys in ascending order. */
  lemma DictToStrEntries(d: map<string, int>)
    ensures var ks := SortedKeys(d.Keys);
            && |Entries(d, ks)| == |d|
            && StrictlySorted(ks)
            && (forall k :: k in ks <==> k in d)
            && (forall j :: 0 <= j < |ks| ==> Entries(d, ks)[j] == Entry(ks[j], d[ks[j]]))
  {
  }

  /** An empty histogram prints as "()". */
  lemma DictToStrEmpty()
    ensures DictToStr(map[]) == "()"
  {
    assert SortedKeys({}) == [];
  }

  lemma DictToStrSingle(k: string, v: int)
    ensures DictToStr(map[k := v]) == "(" + Entry(k, v) + ")"
  {
    DictToStrOrdered(map[k := v], [k]);
  }

  /** Two entries are printed smaller key first, whichever way the map was built. */
  lemma DictToStrPair(k1: string, v1: int, k2: string, v2: int)
    requires LexLess(k1, k2)
    ensures DictToStr(map[k2 := v2, k1 := v1]) == "(" + (Entry(k1, v1) + ", " + Entry(k2, v2)) + ")"
  {
    var d := map[k2 := v2, k1 := v1];
    var ks := [k1, k2];
    LexIrreflexive(k1);
    assert k1 != k2;
    DictToStrOrdered(d, ks);
    var parts := Entries(d, ks);
    assert parts == [Entry(k1, v1)] + [Entry(k2, v2)];
    JoinCons(", ", Entry(k1, v1), [Entry(k2, v2)]);
  }

  /** Status codes of equal length sort by their digits: "200" before "201". */
  lemma StatusCodeOrder()
    ensures LexLess("200", "201")
  {
    assert !LexLess("1", "1");
    assert !LexLess("01", "01");
  }

  lemma TwoEntriesText()
    ensures "(" + (Entry("200", 2) + ", " + Entry("201", 1)) + ")" == "(200: 2, 201: 1)"
  {
    assert IntToString(2) == "2" && IntToString(1) == "1";
    assert Entry("200", 2) == "200: 2" && Entry("201", 1) == "201: 1";
  }

  /** The histogram of the unit tests with two status codes. */
  lemma DictToStrTwoCodes()
    ensures DictToStr(map["201" := 1, "200" := 2]) == "(200: 2, 201: 1)"
  {
    StatusCodeOrder();
    DictToStrPair("200", 2, "201", 1);
    TwoEntriesText();
  }
}
