/** The few Python dictionary operations the hypercube tables are built
    with, as functions on immutable maps. */
module PyDict {

  datatype Option<+T> = None | Some(value: T)

  /** `d[k]`: the value under k, or None where Python raises KeyError. */
  function Lookup<K, V>(m: map<K, V>, k: K): (r: Option<V>)
    ensures r.Some? <==> k in m
    ensures r.Some? ==> r.value == m[k]
  {
    if k in m then Some(m[k]) else None
  }

  /** `dict.fromkeys(ks, v)`: every element of ks mapped to v. */
  function FromKeys<K, V>(ks: seq<K>, v: V): map<K, V>
  {
    map k | k in ks :: v
  }

  /** The elements of a sequence are pairwise distinct. */
  predicate Distinct<T(==)>(s: seq<T>) {
    forall i, j :: 0 <= i < j < |s| ==> s[i] != s[j]
  }

  function Min(a: nat, b: nat): nat {
    if a <= b then a else b
  }

  /** `dict(zip(ks, vs))`: pairs up to the shorter sequence; a key that
      occurs twice keeps the value of its later occurrence. */
  function Zip<K, V>(ks: seq<K>, vs: seq<V>): map<K, V>
    decreases Min(|ks|, |vs|)
  {
    var len := Min(|ks|, |vs|);
    if len == 0 then map[]
    else Zip(ks[..len - 1], vs[..len - 1])[ks[len - 1] := vs[len - 1]]
  }

  /** With distinct keys, the zipped dictionary has exactly the keys and
      maps the i-th key to the i-th value. */
  lemma {:induction false} ZipLookup<K, V>(ks: seq<K>, vs: seq<V>)
    requires |ks| == |vs|
    requires Distinct(ks)
    ensures forall k :: k in Zip(ks, vs) <==> k in ks
    ensures forall i :: 0 <= i < |ks| ==> Zip(ks, vs)[ks[i]] == vs[i]
    decreases |ks|
  {
    if |ks| > 0 {
      var n := |ks| - 1;
      ZipLookup(ks[..n], vs[..n]);
      forall k
        ensures k in Zip(ks, vs) <==> k in ks
      {
        assert k in ks <==> k in ks[..n] || k == ks[n] by {
          if k in ks {
            var i :| 0 <= i < |ks| && ks[i] == k;
            if i < n { assert ks[..n][i] == k; }
          }
        }
      }
      forall i | 0 <= i < |ks|
        ensures Zip(ks, vs)[ks[i]] == vs[i]
      {
        if i < n {
          assert ks[..n][i] == ks[i];
          assert vs[..n][i] == vs[i];
        }
      }
    }
  }

  /** Every paired key is in the zipped dictionary, repeated or not. */
  lemma {:induction false} ZipHasKeys<K, V>(ks: seq<K>, vs: seq<V>)
    requires |ks| == |vs|
    ensures forall i :: 0 <= i < |ks| ==> ks[i] in Zip(ks, vs)
    decreases |ks|
  {
    if |ks| > 0 {
      var n := |ks| - 1;
      ZipHasKeys(ks[..n], vs[..n]);
      assert forall i :: 0 <= i < n ==> ks[..n][i] == ks[i];
    }
  }

  /** A sequence without repetitions has as many distinct elements as it
      has positions. */
  lemma {:induction false} DistinctCard<T>(s: seq<T>)
    requires Distinct(s)
    ensures |set x | x in s| == |s|
  {
    if |s| > 0 {
      var n := |s| - 1;
      DistinctCard(s[..n]);
      var prefix := set x | x in s[..n];
      assert s[n] !in prefix;
      assert (set x | x in s) == prefix + {s[n]} by {
        forall x | x in s
          ensures x in prefix + {s[n]}
        {
          var i :| 0 <= i < |s| && s[i] == x;
          if i < n { assert s[..n][i] == x; }
        }
      }
    }
  }
}
