/** A plain JavaScript object used as a dictionary with identifier keys:
    an ordered list of (key, value) entries. `Object.keys` lists keys in the
    order in which they were first written; writing an existing key keeps its
    position and replaces its value. Identifier keys are never array indices,
    so the integer-key reordering of JavaScript objects does not arise. */
module JsObject {
  import opened Results

  type Entries<V> = seq<(string, V)>

  /** `Object.keys(d)`. */
  function Keys<V>(d: Entries<V>): (ks: seq<string>)
  {
    seq(|d|, i requires 0 <= i < |d| => d[i].0)
  }

  predicate DistinctKeys<V>(d: Entries<V>)
  {
    forall i, j :: 0 <= i < j < |d| ==> d[i].0 != d[j].0
  }

  /** Position of the first occurrence of `k` in `ks`. */
  function IndexOf(ks: seq<string>, k: string): (i: nat)
    requires k in ks
    ensures i < |ks| && ks[i] == k
    ensures forall j :: 0 <= j < i ==> ks[j] != k
  {
    if ks[0] == k then 0 else 1 + IndexOf(ks[1..], k)
  }

  /** Appending a key moves no earlier key. */
  lemma IndexOfAppend(ks: seq<string>, k: string)
    ensures forall k' :: k' in ks ==> IndexOf(ks + [k], k') == IndexOf(ks, k')
  {
    forall k' | k' in ks ensures IndexOf(ks + [k], k') == IndexOf(ks, k') {
      var i, j := IndexOf(ks + [k], k'), IndexOf(ks, k');
      assert (ks + [k])[j] == k';
    }
  }

  /** `d[k]`, `undefined` being `None`: the value at the key's position. */
  function Get<V>(d: Entries<V>, k: string): Option<V>
  {
    if k in Keys(d) then Some(d[IndexOf(Keys(d), k)].1) else None
  }

  /** In an object, the key at position `i` holds the value at position `i`. */
  lemma GetDistinct<V>(d: Entries<V>, i: nat)
    requires DistinctKeys(d) && i < |d|
    ensures Get(d, d[i].0) == Some(d[i].1)
  {
    assert Keys(d)[i] == d[i].0;
    var j := IndexOf(Keys(d), d[i].0);
    assert d[j].0 == d[i].0;
  }

  /** The assignment `d[k] = v`: an existing key keeps its position and takes
      the new value; a new key is appended. */
  function Put<V>(d: Entries<V>, k: string, v: V): (r: Entries<V>)
    ensures Get(r, k) == Some(v)
    ensures forall k' :: k' != k ==> Get(r, k') == Get(d, k')
    ensures Keys(r) == if k in Keys(d) then Keys(d) else Keys(d) + [k]
  {
    if k in Keys(d) then
      var r := d[IndexOf(Keys(d), k) := (k, v)];
      assert Keys(r) == Keys(d);
      r
    else
      var r := d + [(k, v)];
      assert Keys(r) == Keys(d) + [k];
      IndexOfAppend(Keys(d), k);
      r
  }

  /** Writing keeps the keys distinct. */
  lemma PutDistinct<V>(d: Entries<V>, k: string, v: V)
    requires DistinctKeys(d)
    ensures DistinctKeys(Put(d, k, v))
  {
    var r := Put(d, k, v);
    forall i, j | 0 <= i < j < |r| ensures r[i].0 != r[j].0 {
      assert Keys(r)[i] == r[i].0 && Keys(r)[j] == r[j].0;
      if k !in Keys(d) && j == |d| {
        assert Keys(d)[i] == d[i].0;
      } else {
        assert Keys(d)[i] == d[i].0 && Keys(d)[j] == d[j].0;
      }
    }
  }

  /** The object built by writing the pairs `ps` into `{}` one after another. */
  function FromPairs<V>(ps: seq<(string, V)>): Entries<V>
  {
    if ps == [] then [] else Put(FromPairs(ps[..|ps| - 1]), ps[|ps| - 1].0, ps[|ps| - 1].1)
  }

  /** The keys of `ks` in order of first appearance, each once. */
  function FirstAppearance(ks: seq<string>): seq<string>
  {
    if ks == [] then []
    else
      var seen := FirstAppearance(ks[..|ks| - 1]);
      if ks[|ks| - 1] in seen then seen else seen + [ks[|ks| - 1]]
  }

  /** The value of the last pair written with key `k`. */
  function LastWrite<V>(ps: seq<(string, V)>, k: string): Option<V>
  {
    if ps == [] then None
    else if ps[|ps| - 1].0 == k then Some(ps[|ps| - 1].1)
    else LastWrite(ps[..|ps| - 1], k)
  }

  /** Building an object from pairs: its keys are the written keys in order of
      first appearance, without repetition, and each key holds the last value
      written to it. */
  lemma {:induction false} FromPairsSpec<V>(ps: seq<(string, V)>)
    ensures Keys(FromPairs(ps)) == FirstAppearance(Keys(ps))
    ensures DistinctKeys(FromPairs(ps))
    ensures forall k :: Get(FromPairs(ps), k) == LastWrite(ps, k)
  {
    if ps != [] {
      var init := ps[..|ps| - 1];
      FromPairsSpec(init);
      PutDistinct(FromPairs(init), ps[|ps| - 1].0, ps[|ps| - 1].1);
      assert Keys(ps)[..|ps| - 1] == Keys(init);
    }
  }
}
