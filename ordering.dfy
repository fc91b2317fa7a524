/**
 * The iteration order of a `std::map<std::string, int>`: its keys in ascending
 * `Text.Less` order, each exactly once.
 */
module Ordering {

  import opened Text

  /** `s` is strictly ascending, hence also free of duplicates. */
  predicate Ascending(s: seq<string>) {
    forall i, j :: 0 <= i < j < |s| ==> Less(s[i], s[j])
  }

  /** `k` is the smallest element of `keys`. */
  predicate IsLeast(k: string, keys: set<string>) {
    k in keys && forall j :: j in keys ==> j == k || Less(k, j)
  }

  lemma {:induction false} LeastExists(keys: set<string>)
    requires keys != {}
    ensures exists k :: IsLeast(k, keys)
    decreases |keys|
  {
    var x :| x in keys;
    if keys != {x} {
      var rest := keys - {x};
      LeastExists(rest);
      var y :| IsLeast(y, rest);
      if Less(x, y) {
        forall j | j in keys && j != x
          ensures Less(x, j)
        {
          if j != y {
            LessTransitive(x, y, j);
          }
        }
        assert IsLeast(x, keys);
      } else {
        LessTotal(x, y);
        assert IsLeast(y, keys);
      }
    } else {
      assert IsLeast(x, keys);
    }
  }

  lemma LeastUnique(keys: set<string>)
    ensures forall a, b :: IsLeast(a, keys) && IsLeast(b, keys) ==> a == b
  {
    forall a, b | IsLeast(a, keys) && IsLeast(b, keys)
      ensures a == b
    {
      if a != b {
        LessAsymmetric(a, b);
      }
    }
  }

  /** Putting the least key in front of the ascending rest keeps the sequence ascending. */
  lemma PrependLeast(k: string, keys: set<string>, rest: seq<string>)
    requires IsLeast(k, keys)
    requires forall x :: x in rest <==> x in keys - {k}
    requires Ascending(rest)
    ensures Ascending([k] + rest)
    ensures forall x :: x in [k] + rest <==> x in keys
  {
    assert forall j :: 0 <= j < |rest| ==> rest[j] in keys - {k};
  }

  /** The keys in the order a `std::map` visits them. */
  function SortedKeys(keys: set<string>): (r: seq<string>)
    ensures |r| == |keys|
    ensures forall k :: k in r <==> k in keys
    ensures Ascending(r)
    decreases |keys|
  {
    if keys == {} then []
    else
      LeastExists(keys);
      LeastUnique(keys);
      var k :| IsLeast(k, keys);
      var rest := SortedKeys(keys - {k});
      PrependLeast(k, keys, rest);
      [k] + rest
  }

  /** A strictly ascending sequence is determined by its elements. */
  lemma {:induction false} AscendingUnique(keys: set<string>, s: seq<string>)
    requires Ascending(s)
    requires forall k :: k in s <==> k in keys
    ensures s == SortedKeys(keys)
    decreases |keys|
  {
    var r := SortedKeys(keys);
    if s == [] {
      assert keys == {};
    } else {
      assert IsLeast(s[0], keys) by {
        forall j | j in keys && j != s[0]
          ensures Less(s[0], j)
        {
          var p :| 0 <= p < |s| && s[p] == j;
        }
      }
      assert IsLeast(r[0], keys);
      LeastUnique(keys);
      assert s[0] == r[0];
      var rest := keys - {s[0]};
      forall k
        ensures k in s[1..] <==> k in rest
      {
        if k in s[1..] {
          var p :| 1 <= p < |s| && s[p] == k;
          LessIrreflexive(k);
        }
        if k in rest {
          var p :| 0 <= p < |s| && s[p] == k;
        }
      }
      AscendingUnique(rest, s[1..]);
      assert r[1..] == SortedKeys(rest);
      assert s == [s[0]] + s[1..] && r == [r[0]] + r[1..];
    }
  }
}
