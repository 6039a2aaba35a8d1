/** A Python `dict[str, str]` as the list of its items in insertion order:
    the behaviour `dict(pairs)`, `d[k] = v` and `d.update({k: v})` have. */
module Records {
  import opened Common
  import opened Text

  type Pair = (string, string)

  function Keys(d: seq<Pair>): (ks: seq<string>)
    ensures |ks| == |d| && forall i :: 0 <= i < |d| ==> ks[i] == d[i].0
  {
    seq(|d|, i requires 0 <= i < |d| => d[i].0)
  }

  /** Python's `d.values()`, in insertion order. */
  function Values(d: seq<Pair>): (vs: seq<string>)
    ensures |vs| == |d| && forall i :: 0 <= i < |d| ==> vs[i] == d[i].1
  {
    seq(|d|, i requires 0 <= i < |d| => d[i].1)
  }

  predicate DistinctKeys(d: seq<Pair>) {
    forall i, j :: 0 <= i < j < |d| ==> d[i].0 != d[j].0
  }

  /** `d[k] = v`: an existing key keeps its position and takes the new value;
      a new key goes last. */
  function Put(d: seq<Pair>, k: string, v: string): (r: seq<Pair>)
    requires DistinctKeys(d)
    ensures DistinctKeys(r)
    ensures k in Keys(d) ==> |r| == |d| && forall i :: 0 <= i < |d| ==> r[i] == (if d[i].0 == k then (k, v) else d[i])
    ensures k !in Keys(d) ==> r == d + [(k, v)]
  {
    if k in Keys(d) then seq(|d|, i requires 0 <= i < |d| => if d[i].0 == k then (k, v) else d[i])
    else d + [(k, v)]
  }

  /** `d[k]`: the value stored under `k`, or `None` where Python raises `KeyError`. */
  function Lookup(d: seq<Pair>, k: string): (r: Option<string>)
    ensures r.None? <==> k !in Keys(d)
    ensures r.Some? ==> exists i :: 0 <= i < |d| && d[i] == (k, r.value)
    decreases |d|
  {
    if |d| == 0 then None
    else if d[0].0 == k then Some(d[0].1)
    else
      assert Keys(d) == [d[0].0] + Keys(d[1..]);
      var r := Lookup(d[1..], k);
      assert r.Some? ==> exists i :: 0 <= i < |d| - 1 && d[1..][i] == (k, r.value);
      r
  }

  /** `dict(pairs)`: the pairs inserted one after another. */
  function FromPairs(ps: seq<Pair>): (d: seq<Pair>)
    ensures DistinctKeys(d)
    decreases |ps|
  {
    if |ps| == 0 then [] else Put(FromPairs(ps[..|ps| - 1]), Last(ps).0, Last(ps).1)
  }

  /** The value of the last pair with key `k`: what `dict(pairs)[k]` reads. */
  function LastValue(ps: seq<Pair>, k: string): Option<string>
    decreases |ps|
  {
    if |ps| == 0 then None
    else if Last(ps).0 == k then Some(Last(ps).1)
    else LastValue(ps[..|ps| - 1], k)
  }

  /** Position of the first occurrence of `k` in `ks`. */
  function FirstIndex(ks: seq<string>, k: string): (i: nat)
    requires k in ks
    ensures i < |ks| && ks[i] == k && forall j :: 0 <= j < i ==> ks[j] != k
    decreases |ks|
  {
    if ks[0] == k then 0 else 1 + FirstIndex(ks[1..], k)
  }

  lemma KeysSnoc(ps: seq<Pair>)
    requires |ps| > 0
    ensures Keys(ps) == Keys(ps[..|ps| - 1]) + [Last(ps).0]
  {
  }

  lemma LookupPut(d: seq<Pair>, k: string, v: string, x: string)
    requires DistinctKeys(d)
    ensures Lookup(Put(d, k, v), x) == if x == k then Some(v) else Lookup(d, x)
  {
    var r := Put(d, k, v);
    if x == k {
      if k in Keys(d) {
        var i :| 0 <= i < |d| && Keys(d)[i] == k;
        assert r[i] == (k, v);
        LookupAt(r, i);
      } else {
        assert r[|d|] == (k, v);
        LookupAt(r, |d|);
      }
    } else if x in Keys(d) {
      var i :| 0 <= i < |d| && Keys(d)[i] == x;
      assert r[i] == d[i];
      LookupAt(r, i);
      LookupAt(d, i);
    } else {
      forall j | 0 <= j < |r| ensures Keys(r)[j] != x {
        if j < |d| {
          assert r[j] == (k, v) || r[j] == d[j];
          assert Keys(d)[j] == d[j].0;
        }
      }
    }
  }


  /** The keys of `dict(pairs)` are exactly the keys among the pairs. */
  lemma {:induction false} FromPairsKeys(ps: seq<Pair>)
    ensures forall k :: k in Keys(FromPairs(ps)) <==> k in Keys(ps)
    decreases |ps|
  {
    if |ps| > 0 {
      var prefix := ps[..|ps| - 1];
      FromPairsKeys(prefix);
      KeysSnoc(ps);
      var d := FromPairs(prefix);
      var r := FromPairs(ps);
      assert r == Put(d, Last(ps).0, Last(ps).1);
      if Last(ps).0 in Keys(d) {
        assert Keys(r) == Keys(d);
      } else {
        assert Keys(r) == Keys(d) + [Last(ps).0];
      }
    }
  }

  /** `dict(pairs)[k]` is the value of the LAST pair with key `k`. */
  lemma {:induction false} FromPairsLookup(ps: seq<Pair>, k: string)
    ensures Lookup(FromPairs(ps), k) == LastValue(ps, k)
    decreases |ps|
  {
    if |ps| > 0 {
      FromPairsLookup(ps[..|ps| - 1], k);
      LookupPut(FromPairs(ps[..|ps| - 1]), Last(ps).0, Last(ps).1, k);
    }
  }

  lemma FirstIndexSnoc(ks: seq<string>, x: string, k: string)
    requires k in ks
    ensures FirstIndex(ks + [x], k) == FirstIndex(ks, k)
  {
    var i := FirstIndex(ks, k);
    var j := FirstIndex(ks + [x], k);
    assert (ks + [x])[i] == k;
    assert ks[j] == k || j == |ks|;
  }

  lemma FirstIndexNew(ks: seq<string>, k: string)
    requires k !in ks
    ensures FirstIndex(ks + [k], k) == |ks|
  {
    assert (ks + [k])[|ks|] == k;
    assert forall m :: 0 <= m < |ks| ==> (ks + [k])[m] == ks[m];
  }

  /** `keys` appear in `ks`, and in the order of their first occurrence there. */
  predicate InFirstOccurrenceOrder(keys: seq<string>, ks: seq<string>) {
    forall i, j :: 0 <= i < j < |keys| ==>
      keys[i] in ks && keys[j] in ks && FirstIndex(ks, keys[i]) < FirstIndex(ks, keys[j])
  }

  lemma OrderSnoc(keys: seq<string>, ks: seq<string>, x: string)
    requires InFirstOccurrenceOrder(keys, ks)
    requires forall i :: 0 <= i < |keys| ==> keys[i] in ks
    ensures InFirstOccurrenceOrder(keys, ks + [x])
  {
    forall i | 0 <= i < |keys| ensures FirstIndex(ks + [x], keys[i]) == FirstIndex(ks, keys[i]) {
      FirstIndexSnoc(ks, x, keys[i]);
    }
  }

  lemma OrderAppendNew(keys: seq<string>, ks: seq<string>, x: string)
    requires InFirstOccurrenceOrder(keys, ks + [x])
    requires forall i :: 0 <= i < |keys| ==> keys[i] in ks
    requires x !in ks
    ensures InFirstOccurrenceOrder(keys + [x], ks + [x])
  {
    FirstIndexNew(ks, x);
    forall i | 0 <= i < |keys| ensures FirstIndex(ks + [x], keys[i]) < |ks| {
      FirstIndexSnoc(ks, x, keys[i]);
    }
    var all := keys + [x];
    forall i, j | 0 <= i < j < |all|
      ensures all[i] in ks + [x] && all[j] in ks + [x] && FirstIndex(ks + [x], all[i]) < FirstIndex(ks + [x], all[j])
    {
      if j < |keys| {
        assert all[i] == keys[i] && all[j] == keys[j];
      } else {
        assert all[i] == keys[i] && all[j] == x;
      }
    }
  }

  /** `dict(pairs)` lists its keys in the order of their FIRST occurrence among the pairs. */
  lemma {:induction false} FromPairsOrder(ps: seq<Pair>)
    ensures InFirstOccurrenceOrder(Keys(FromPairs(ps)), Keys(ps))
    decreases |ps|
  {
    if |ps| > 0 {
      var prefix := ps[..|ps| - 1];
      var x := Last(ps).0;
      FromPairsOrder(prefix);
      FromPairsKeys(prefix);
      KeysSnoc(ps);
      var d := FromPairs(prefix);
      var r := FromPairs(ps);
      assert r == Put(d, x, Last(ps).1);
      assert forall i :: 0 <= i < |d| ==> Keys(d)[i] in Keys(d);
      OrderSnoc(Keys(d), Keys(prefix), x);
      if x in Keys(d) {
        assert Keys(r) == Keys(d);
      } else {
        OrderAppendNew(Keys(d), Keys(prefix), x);
        assert Keys(r) == Keys(d) + [x];
      }
    }
  }

  /** Pairs with distinct keys make a dict that lists them unchanged. */
  lemma {:induction false} FromDistinctPairs(ps: seq<Pair>)
    requires DistinctKeys(ps)
    ensures FromPairs(ps) == ps
    decreases |ps|
  {
    if |ps| > 0 {
      var prefix := ps[..|ps| - 1];
      assert DistinctKeys(prefix) by {
        forall a, b | 0 <= a < b < |prefix| ensures prefix[a].0 != prefix[b].0 {
          assert prefix[a] == ps[a] && prefix[b] == ps[b];
        }
      }
      FromDistinctPairs(prefix);
      var ks := Keys(prefix);
      forall j | 0 <= j < |ks| ensures ks[j] != Last(ps).0 {
        assert ks[j] == ps[j].0;
      }
      assert FromPairs(ps) == Put(prefix, Last(ps).0, Last(ps).1);
      assert ps == prefix + [Last(ps)];
    }
  }

  /** Setting a new key on a dict built from distinct pairs appends its value. */
  lemma PutNewKeyValues(ps: seq<Pair>, k: string, v: string)
    requires DistinctKeys(ps) && k !in Keys(ps)
    ensures Values(Put(FromPairs(ps), k, v)) == Values(ps) + [v]
  {
    FromDistinctPairs(ps);
    var d := Put(ps, k, v);
    assert d == ps + [(k, v)];
    assert Values(d) == Values(ps) + [v];
  }

  /** In a dict, looking up the key of an item gives that item's value. */
  lemma {:induction false} LookupAt(d: seq<Pair>, i: nat)
    requires DistinctKeys(d) && i < |d|
    ensures Lookup(d, d[i].0) == Some(d[i].1)
    decreases i
  {
    if i > 0 {
      var rest := d[1..];
      assert d[0].0 != d[i].0;
      assert rest[i - 1] == d[i];
      assert DistinctKeys(rest) by {
        forall a, b | 0 <= a < b < |rest| ensures rest[a].0 != rest[b].0 {
          assert rest[a] == d[a + 1] && rest[b] == d[b + 1];
        }
      }
      LookupAt(rest, i - 1);
    }
  }
}
