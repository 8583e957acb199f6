/** Python's built-in `dict` as the search layer uses it: an association list
    that remembers insertion order and whose keys are pairwise distinct.
    Reading a key (`d.get(k)`), assigning one (`d[k] = v`) and the display
    `{**d, **o}` are modelled, with the ordering rules Python guarantees. */
module PyDict {

  datatype Option<+T> = None | Some(value: T)

  /** The keys of an association list, in insertion order. */
  function Keys<V>(d: seq<(string, V)>): seq<string>
  {
    seq(|d|, i requires 0 <= i < |d| => d[i].0)
  }

  predicate DistinctKeys<V>(d: seq<(string, V)>)
  {
    forall i, j :: 0 <= i < j < |d| ==> d[i].0 != d[j].0
  }

  /** A dict: no key occurs twice. */
  type Dict<V> = d: seq<(string, V)> | DistinctKeys(d) witness []

  /** `d.get(k)`: the value stored under `k`, or None. */
  function Get<V>(d: seq<(string, V)>, k: string): (r: Option<V>)
    ensures r.Some? <==> k in Keys(d)
    ensures r.Some? ==> (k, r.value) in d
  {
    if d == [] then None
    else
      assert Keys(d) == [d[0].0] + Keys(d[1..]);
      if d[0].0 == k then Some(d[0].1) else Get(d[1..], k)
  }

  /** In a dict, every entry is what `get` returns for its key. */
  lemma {:induction false} GetEntry<V>(d: Dict<V>, i: nat)
    requires i < |d|
    ensures Get(d, d[i].0) == Some(d[i].1)
  {
    if i > 0 {
      var tail: Dict<V> := d[1..];
      GetEntry(tail, i - 1);
    }
  }

  /** Putting an entry in front of a dict whose keys do not include its key
      gives a dict, whose keys are that key followed by the old ones. */
  lemma ConsEntry<V>(x: (string, V), rest: Dict<V>)
    requires x.0 !in Keys(rest)
    ensures DistinctKeys([x] + rest)
    ensures Keys([x] + rest) == [x.0] + Keys(rest)
    ensures ([x] + rest)[0] == x && ([x] + rest)[1..] == rest
  {
    var r := [x] + rest;
    forall i, j | 0 <= i < j < |r| ensures r[i].0 != r[j].0 {
      if i == 0 {
        assert r[j].0 == Keys(rest)[j - 1];
      }
    }
  }

  /** `d[k] = v`: an existing key keeps its position and takes the new
      value; a new key is appended at the end. */
  function Put<V>(d: Dict<V>, k: string, v: V): (r: Dict<V>)
    ensures forall j :: Get(r, j) == if j == k then Some(v) else Get(d, j)
    ensures Keys(r) == if k in Keys(d) then Keys(d) else Keys(d) + [k]
  {
    if d == [] then [(k, v)]
    else
      var tail: Dict<V> := d[1..];
      assert Keys(d) == [d[0].0] + Keys(tail);
      assert d == [d[0]] + tail;
      if d[0].0 == k then
        ConsEntry((k, v), tail);
        [(k, v)] + tail
      else
        var rest := Put(tail, k, v);
        ConsEntry(d[0], rest);
        [d[0]] + rest
  }

  /** The keys of `ks` that are not in `seen`, in the order of `ks`. */
  function NewKeys(ks: seq<string>, seen: seq<string>): seq<string>
  {
    if ks == [] then []
    else (if ks[0] in seen then [] else [ks[0]]) + NewKeys(ks[1..], seen)
  }

  lemma {:induction false} NewKeysAgree(ks: seq<string>, s1: seq<string>, s2: seq<string>)
    requires forall k :: k in ks ==> (k in s1 <==> k in s2)
    ensures NewKeys(ks, s1) == NewKeys(ks, s2)
  {
    if ks != [] {
      NewKeysAgree(ks[1..], s1, s2);
    }
  }

  /** On key sequences alone: assigning key `k` first and then the keys
      `rest` adds the same new keys as adding `[k] + rest` at once. */
  lemma NewKeysStep(k: string, rest: seq<string>, seen: seq<string>, seen': seq<string>)
    requires seen' == if k in seen then seen else seen + [k]
    requires k !in rest
    ensures seen + NewKeys([k] + rest, seen) == seen' + NewKeys(rest, seen')
  {
    assert ([k] + rest)[0] == k && ([k] + rest)[1..] == rest;
    NewKeysAgree(rest, seen', seen);
    if k !in seen {
      assert NewKeys([k] + rest, seen) == [k] + NewKeys(rest, seen);
    }
  }

  /** What one assignment step of `Merge` does to the order of keys. */
  lemma MergeStepKeys<V>(d: Dict<V>, o: Dict<V>)
    requires o != []
    ensures o[0].0 !in Keys(o[1..])
    ensures var d' := Put(d, o[0].0, o[0].1);
      Keys(d) + NewKeys(Keys(o), Keys(d)) == Keys(d') + NewKeys(Keys(o[1..]), Keys(d'))
  {
    var tail: Dict<V> := o[1..];
    assert Keys(o) == [o[0].0] + Keys(tail);
    NewKeysStep(o[0].0, Keys(tail), Keys(d), Keys(Put(d, o[0].0, o[0].1)));
  }

  /** The display `{**d, **o}` (equivalently `d.update(o)` on a copy):
      `o`'s entries are assigned one by one, in `o`'s order. Every key of
      `o` wins over `d`; the keys of `d` keep their positions, and the keys
      only `o` has follow them in `o`'s order. */
  function Merge<V>(d: Dict<V>, o: Dict<V>): (r: Dict<V>)
    ensures forall k :: Get(r, k) == if Get(o, k).Some? then Get(o, k) else Get(d, k)
    ensures Keys(r) == Keys(d) + NewKeys(Keys(o), Keys(d))
    decreases |o|
  {
    if o == [] then d
    else
      var (k, v) := o[0];
      var d' := Put(d, k, v);
      var tail: Dict<V> := o[1..];
      MergeStepKeys(d, o);
      Merge(d', tail)
  }
}
