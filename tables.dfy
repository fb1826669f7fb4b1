/**
 * A JavaScript object used as a dictionary with string keys: an
 * insertion-ordered sequence of key/value pairs. `Object.values` and
 * `Object.entries` enumerate it in insertion order, and assigning to a key
 * that is already present keeps that key where it was.
 */
module Tables {
  import opened Wrappers

  type Table<V> = seq<(string, V)>

  /** The keys, in insertion order (`Object.keys`). */
  function Keys<V>(t: Table<V>): (ks: seq<string>)
    ensures |ks| == |t|
    ensures forall i :: 0 <= i < |t| ==> ks[i] == t[i].0
  {
    if t == [] then [] else [t[0].0] + Keys(t[1..])
  }

  /** A key is present exactly when it is among the keys. */
  lemma KeysHas<V>(t: Table<V>, k: string)
    ensures HasKey(t, k) <==> k in Keys(t)
  {
    if k in Keys(t) {
      var i :| 0 <= i < |Keys(t)| && Keys(t)[i] == k;
      assert t[i].0 == k;
    }
  }

  /** The values, in insertion order (`Object.values`). */
  function Values<V>(t: Table<V>): (vs: seq<V>)
    ensures |vs| == |t|
    ensures forall i :: 0 <= i < |t| ==> vs[i] == t[i].1
  {
    if t == [] then [] else [t[0].1] + Values(t[1..])
  }

  predicate HasKey<V>(t: Table<V>, k: string) {
    exists i :: 0 <= i < |t| && t[i].0 == k
  }

  /** No key occurs twice: what a JavaScript object guarantees. */
  predicate UniqueKeys<V>(t: Table<V>) {
    forall i, j :: 0 <= i < j < |t| ==> t[i].0 != t[j].0
  }

  /** `t[k]`, `undefined` being None. */
  function Find<V>(t: Table<V>, k: string): (r: Option<V>)
    ensures r.Some? <==> HasKey(t, k)
    ensures r.Some? ==> exists i :: 0 <= i < |t| && t[i] == (k, r.value)
  {
    if t == [] then None
    else if t[0].0 == k then Some(t[0].1)
    else
      var r := Find(t[1..], k);
      assert HasKey(t, k) ==> HasKey(t[1..], k) by {
        if HasKey(t, k) {
          var i :| 0 <= i < |t| && t[i].0 == k;
          assert t[1..][i - 1].0 == k;
        }
      }
      assert r.Some? ==> exists i :: 0 <= i < |t| && t[i] == (k, r.value) by {
        if r.Some? {
          var i :| 0 <= i < |t[1..]| && t[1..][i] == (k, r.value);
          assert t[i + 1] == (k, r.value);
        }
      }
      r
  }

  /** The keys of a one-longer prefix are those of the prefix and the key just added. */
  lemma HasKeyPrefix<V>(t: Table<V>, i: nat)
    requires i < |t|
    ensures forall k :: HasKey(t[..i + 1], k) <==> HasKey(t[..i], k) || k == t[i].0
  {
    forall k ensures HasKey(t[..i + 1], k) <==> HasKey(t[..i], k) || k == t[i].0 {
      if HasKey(t[..i + 1], k) {
        var j :| 0 <= j < i + 1 && t[..i + 1][j].0 == k;
        if j < i { assert t[..i][j].0 == k; }
      }
      if HasKey(t[..i], k) {
        var j :| 0 <= j < i && t[..i][j].0 == k;
        assert t[..i + 1][j].0 == k;
      }
      assert t[..i + 1][i].0 == t[i].0;
    }
  }

  /** In a table without repeated keys, every stored pair is what a lookup finds. */
  lemma {:induction false} FindStored<V>(t: Table<V>, i: nat)
    requires UniqueKeys(t) && i < |t|
    ensures Find(t, t[i].0) == Some(t[i].1)
  {
    if i > 0 {
      assert UniqueKeys(t[1..]) by {
        forall p, q | 0 <= p < q < |t[1..]| ensures t[1..][p].0 != t[1..][q].0 {
          assert t[1..][p] == t[p + 1] && t[1..][q] == t[q + 1];
        }
      }
      assert t[0].0 != t[i].0;
      FindStored(t[1..], i - 1);
    }
  }

  /** Every entry of `m` is related by `rel` to the value stored under its key in `t`. */
  ghost predicate RelatedTo<V, W>(t: Table<V>, m: map<string, W>, rel: (V, W) -> bool) {
    forall k :: k in m ==> Find(t, k).Some? && rel(Find(t, k).value, m[k])
  }

  /**
   * `m` is what a `reduce` over the pairs of `t` builds from `{}` when each
   * step stores, under the pair's key, a value related by `rel` to the
   * pair's value: the last pair's key holds such a value, and the rest is
   * the fold of the shorter table.
   */
  ghost predicate FoldedFrom<V, W>(t: Table<V>, m: map<string, W>, rel: (V, W) -> bool)
    decreases |t|
  {
    if t == [] then m == map[]
    else
      var (k, v) := t[|t| - 1];
      k in m && rel(v, m[k]) && FoldedFrom(t[..|t| - 1], m - {k}, rel)
  }

  /** A fold has exactly the keys of its table. */
  lemma {:induction false} FoldedKeys<V, W>(t: Table<V>, m: map<string, W>, rel: (V, W) -> bool)
    requires FoldedFrom(t, m, rel)
    ensures forall k :: k in m <==> HasKey(t, k)
  {
    if t != [] {
      var n := |t| - 1;
      FoldedKeys(t[..n], m - {t[n].0}, rel);
      HasKeyPrefix(t, n);
      assert t[..n + 1] == t;
      forall k ensures k in m <==> HasKey(t, k) {
        assert k in m <==> k in m - {t[n].0} || k == t[n].0;
      }
    }
  }

  /** Storing, under the key of the next pair of `t`, a value related to that pair's value extends the fold by one pair. */
  lemma FoldedStep<V, W>(t: Table<V>, i: nat, m: map<string, W>, rel: (V, W) -> bool, w: W)
    requires UniqueKeys(t) && i < |t|
    requires FoldedFrom(t[..i], m, rel) && rel(t[i].1, w)
    ensures FoldedFrom(t[..i + 1], m[t[i].0 := w], rel)
  {
    var k := t[i].0;
    FoldedKeys(t[..i], m, rel);
    assert m[k := w] - {k} == m;
    assert t[..i + 1][..i] == t[..i];
  }

  /** A fold over a whole table without repeated keys relates every key to its stored value. */
  lemma {:induction false} FoldedWhole<V, W>(t: Table<V>, m: map<string, W>, rel: (V, W) -> bool)
    requires UniqueKeys(t) && FoldedFrom(t, m, rel)
    ensures forall k :: k in m <==> HasKey(t, k)
    ensures RelatedTo(t, m, rel)
  {
    FoldedKeys(t, m, rel);
    if t != [] {
      var n := |t| - 1;
      var init, m0 := t[..n], m - {t[n].0};
      assert UniqueKeys(init) by {
        forall p, q | 0 <= p < q < n ensures init[p].0 != init[q].0 {
          assert init[p] == t[p] && init[q] == t[q];
        }
      }
      FoldedWhole(init, m0, rel);
      forall k | k in m ensures Find(t, k).Some? && rel(Find(t, k).value, m[k]) {
        if k == t[n].0 {
          FindStored(t, n);
        } else {
          assert k in m0;
          var j :| 0 <= j < n && init[j] == (k, Find(init, k).value);
          assert t[j] == init[j];
          FindStored(t, j);
        }
      }
    }
  }

  /**
   * `t[k] = v`: the pair for `k` is replaced where it stands, or appended
   * when `k` is new. Lookups of every other key are unchanged.
   */
  function Put<V>(t: Table<V>, k: string, v: V): (r: Table<V>)
    ensures Find(r, k) == Some(v)
    ensures forall k' :: k' != k ==> Find(r, k') == Find(t, k')
    ensures |t| <= |r| <= |t| + 1
  {
    if t == [] then [(k, v)]
    else if t[0].0 == k then [(k, v)] + t[1..]
    else
      var r := [t[0]] + Put(t[1..], k, v);
      assert r[1..] == Put(t[1..], k, v);
      r
  }

  lemma HasKeyTail<V>(t: Table<V>, k: string)
    requires t != [] && t[0].0 != k
    ensures HasKey(t, k) <==> HasKey(t[1..], k)
  {
    if HasKey(t, k) {
      var i :| 0 <= i < |t| && t[i].0 == k;
      assert t[1..][i - 1].0 == k;
    }
    if HasKey(t[1..], k) {
      var i :| 0 <= i < |t[1..]| && t[1..][i].0 == k;
      assert t[i + 1].0 == k;
    }
  }

  /** Assigning a new key appends its pair. */
  lemma {:induction false} PutNew<V>(t: Table<V>, k: string, v: V)
    requires !HasKey(t, k)
    ensures Put(t, k, v) == t + [(k, v)]
  {
    if t != [] {
      assert t[0].0 != k;
      HasKeyTail(t, k);
      PutNew(t[1..], k, v);
      assert [t[0]] + (t[1..] + [(k, v)]) == t + [(k, v)];
    }
  }

  /** Assigning a present key keeps every key where it stands. */
  lemma {:induction false} PutExisting<V>(t: Table<V>, k: string, v: V)
    requires HasKey(t, k)
    ensures Keys(Put(t, k, v)) == Keys(t)
  {
    if t[0].0 != k {
      HasKeyTail(t, k);
      PutExisting(t[1..], k, v);
      assert Put(t, k, v)[1..] == Put(t[1..], k, v);
    } else {
      assert Put(t, k, v)[1..] == t[1..];
    }
  }

  /** The keys of a table with one more pair end with that pair's key. */
  lemma KeysAppend<V>(t: Table<V>, k: string, v: V)
    ensures Keys(t + [(k, v)]) == Keys(t) + [k]
  {
    var r := t + [(k, v)];
    forall i | 0 <= i < |r| ensures Keys(r)[i] == (Keys(t) + [k])[i] {
      if i < |t| { assert r[i] == t[i]; }
    }
  }

  /** Assignment keeps the key order; a new key goes last. */
  lemma PutKeys<V>(t: Table<V>, k: string, v: V)
    ensures Keys(Put(t, k, v)) == if HasKey(t, k) then Keys(t) else Keys(t) + [k]
  {
    if HasKey(t, k) {
      PutExisting(t, k, v);
    } else {
      PutNew(t, k, v);
      KeysAppend(t, k, v);
    }
  }

  /** Assignment never duplicates a key. */
  lemma PutUnique<V>(t: Table<V>, k: string, v: V)
    requires UniqueKeys(t)
    ensures UniqueKeys(Put(t, k, v))
  {
    var r := Put(t, k, v);
    PutKeys(t, k, v);
    var ks := Keys(r);
    forall p, q | 0 <= p < q < |r| ensures r[p].0 != r[q].0 {
      assert r[p].0 == ks[p] && r[q].0 == ks[q];
      if !HasKey(t, k) && q == |t| {
        assert ks[p] == t[p].0;
      } else {
        assert ks[p] == t[p].0 && ks[q] == t[q].0;
      }
    }
  }

  /** The sum of a measure over the values of a table. */
  function SumBy<V>(t: Table<V>, f: V -> nat): nat {
    if t == [] then 0 else f(t[0].1) + SumBy(t[1..], f)
  }

  /** Replacing the value of `k` changes the sum by the difference of the two measures. */
  lemma {:induction false} PutSum<V>(t: Table<V>, k: string, v: V, f: V -> nat)
    ensures SumBy(Put(t, k, v), f) + (match Find(t, k) case Some(u) => f(u) case None => 0)
         == SumBy(t, f) + f(v)
  {
    if t != [] && t[0].0 != k {
      PutSum(t[1..], k, v, f);
      assert Put(t, k, v)[1..] == Put(t[1..], k, v);
    } else if t != [] {
      assert Put(t, k, v)[1..] == t[1..];
    }
  }
}
