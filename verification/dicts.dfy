/**
 * Python dictionaries with string keys, as insertion-ordered association
 * lists, and the two ways the scraper fills them: plain assignment
 * (`d[k] = v`, a later write overwrites the value but keeps the key's
 * place) and `setdefault` (the first write wins).  Also `unique()`:
 * distinct values in order of first occurrence.
 */
module Dicts {
  import opened Wrappers

  type Dict<V> = seq<(string, V)>

  function Keys<V>(d: Dict<V>): (r: seq<string>)
    ensures |r| == |d| && forall i :: 0 <= i < |d| ==> r[i] == d[i].0
  {
    if d == [] then [] else [d[0].0] + Keys(d[1..])
  }

  predicate Distinct(xs: seq<string>) {
    forall i, j :: 0 <= i < j < |xs| ==> xs[i] != xs[j]
  }

  /** `d.get(k)`. */
  function Get<V>(d: Dict<V>, k: string): (r: Option<V>)
    ensures r.None? <==> k !in Keys(d)
    ensures r.Some? ==> exists i :: 0 <= i < |d| && d[i] == (k, r.value)
  {
    if d == [] then None
    else if d[0].0 == k then Some(d[0].1)
    else
      var r := Get(d[1..], k);
      assert r.Some? ==> exists i :: 0 <= i < |d[1..]| && d[1..][i] == (k, r.value) && d[i + 1] == d[1..][i];
      assert Keys(d) == [d[0].0] + Keys(d[1..]);
      r
  }

  /** `d[k] = v`. */
  function Put<V>(d: Dict<V>, k: string, v: V): (r: Dict<V>)
    ensures Keys(r) == if k in Keys(d) then Keys(d) else Keys(d) + [k]
    decreases |d|
  {
    if d == [] then [(k, v)]
    else if d[0].0 == k then [(k, v)] + d[1..]
    else
      var r := [d[0]] + Put(d[1..], k, v);
      assert Keys(r) == [d[0].0] + Keys(Put(d[1..], k, v));
      assert Keys(d) == [d[0].0] + Keys(d[1..]);
      r
  }

  /** `d.setdefault(k, v)`. */
  function SetDefault<V>(d: Dict<V>, k: string, v: V): (r: Dict<V>)
    ensures Keys(r) == if k in Keys(d) then Keys(d) else Keys(d) + [k]
  {
    if k in Keys(d) then d else d + [(k, v)]
  }

  /** Assigning the pairs in order, as a loop of `d[k] = v` or a dict display does. */
  function PutAll<V>(ps: seq<(string, V)>): Dict<V> {
    if ps == [] then [] else Put(PutAll(ps[..|ps| - 1]), ps[|ps| - 1].0, ps[|ps| - 1].1)
  }

  /** Calling `setdefault` on the pairs in order. */
  function SetDefaultAll<V>(ps: seq<(string, V)>): Dict<V> {
    if ps == [] then [] else SetDefault(SetDefaultAll(ps[..|ps| - 1]), ps[|ps| - 1].0, ps[|ps| - 1].1)
  }

  /** The value of the last pair with key `k`: the reference for assignment. */
  function LastValue<V>(ps: seq<(string, V)>, k: string): Option<V> {
    if ps == [] then None
    else if ps[|ps| - 1].0 == k then Some(ps[|ps| - 1].1)
    else LastValue(ps[..|ps| - 1], k)
  }

  /** The value of the first pair with key `k`: the reference for `setdefault`. */
  function FirstValue<V>(ps: seq<(string, V)>, k: string): Option<V> {
    if ps == [] then None
    else if ps[0].0 == k then Some(ps[0].1)
    else FirstValue(ps[1..], k)
  }

  /** `list(dict.fromkeys(xs))`, i.e. `unique()`: first occurrences, in order. */
  function Unique(xs: seq<string>): (r: seq<string>)
    ensures Distinct(r)
    ensures forall x :: x in r <==> x in xs
  {
    if xs == [] then []
    else
      var r := Unique(xs[..|xs| - 1]);
      assert xs == xs[..|xs| - 1] + [xs[|xs| - 1]];
      if xs[|xs| - 1] in r then r else r + [xs[|xs| - 1]]
  }

  lemma GetPut<V>(d: Dict<V>, k: string, v: V, k2: string)
    ensures Get(Put(d, k, v), k2) == if k2 == k then Some(v) else Get(d, k2)
    decreases |d|
  {
    if d != [] && d[0].0 != k {
      GetPut(d[1..], k, v, k2);
      assert Put(d, k, v)[1..] == Put(d[1..], k, v);
    }
  }

  lemma GetSetDefault<V>(d: Dict<V>, k: string, v: V, k2: string)
    ensures Get(SetDefault(d, k, v), k2) == if k2 == k && Get(d, k).None? then Some(v) else Get(d, k2)
  {
    if k !in Keys(d) {
      GetAppend(d, (k, v), k2);
    }
  }

  lemma {:induction false} GetAppend<V>(d: Dict<V>, p: (string, V), k: string)
    ensures Get(d + [p], k) == if k in Keys(d) then Get(d, k) else if p.0 == k then Some(p.1) else None
    decreases |d|
  {
    if d != [] {
      assert (d + [p])[1..] == d[1..] + [p];
      GetAppend(d[1..], p, k);
      assert Keys(d) == [d[0].0] + Keys(d[1..]);
    }
  }

  /** A dict built by assignment holds, for each key, its last assigned value. */
  lemma {:induction false} PutAllGet<V>(ps: seq<(string, V)>, k: string)
    ensures Get(PutAll(ps), k) == LastValue(ps, k)
    decreases |ps|
  {
    if ps != [] {
      PutAllGet(ps[..|ps| - 1], k);
      GetPut(PutAll(ps[..|ps| - 1]), ps[|ps| - 1].0, ps[|ps| - 1].1, k);
    }
  }

  /** The last pair with key `k` is the one `LastValue` reports. */
  lemma {:induction false} LastValueAt<V>(ps: seq<(string, V)>, k: string, i: nat)
    requires i < |ps| && ps[i].0 == k && forall j :: i < j < |ps| ==> ps[j].0 != k
    ensures LastValue(ps, k) == Some(ps[i].1)
    decreases |ps|
  {
    if i < |ps| - 1 {
      LastValueAt(ps[..|ps| - 1], k, i);
    }
  }

  /** A dict built by `setdefault` holds, for each key, its first value. */
  lemma {:induction false} SetDefaultAllGet<V>(ps: seq<(string, V)>, k: string)
    ensures Get(SetDefaultAll(ps), k) == FirstValue(ps, k)
    decreases |ps|
  {
    if ps != [] {
      var init, p := ps[..|ps| - 1], ps[|ps| - 1];
      var d := SetDefaultAll(init);
      assert SetDefaultAll(ps) == SetDefault(d, p.0, p.1);
      SetDefaultAllGet(init, k);
      GetSetDefault(d, p.0, p.1, k);
      Snoc(ps);
      FirstValueSnoc(init, p, k);
    }
  }

  lemma Snoc<T>(xs: seq<T>)
    requires xs != []
    ensures xs[..|xs| - 1] + [xs[|xs| - 1]] == xs
  {
  }

  lemma {:induction false} FirstValueSnoc<V>(ps: seq<(string, V)>, p: (string, V), k: string)
    ensures FirstValue(ps + [p], k) == if FirstValue(ps, k).Some? then FirstValue(ps, k)
      else if p.0 == k then Some(p.1) else None
    decreases |ps|
  {
    if ps != [] {
      assert (ps + [p])[1..] == ps[1..] + [p];
      FirstValueSnoc(ps[1..], p, k);
    }
  }

  /** Either way of building, the keys are the distinct keys of the pairs in first-occurrence order. */
  lemma {:induction false} BuildKeys<V>(ps: seq<(string, V)>)
    ensures Keys(PutAll(ps)) == Unique(Keys(ps))
    ensures Keys(SetDefaultAll(ps)) == Unique(Keys(ps))
    decreases |ps|
  {
    if ps != [] {
      var init := ps[..|ps| - 1];
      BuildKeys(init);
      assert Keys(ps)[..|ps| - 1] == Keys(init);
    }
  }

  /** Position of the first occurrence of `x` in `xs`. */
  function FirstIndex(xs: seq<string>, x: string): (i: nat)
    requires x in xs
    ensures i < |xs| && xs[i] == x && forall j :: 0 <= j < i ==> xs[j] != x
  {
    if xs[0] == x then 0 else 1 + FirstIndex(xs[1..], x)
  }

  /** `Unique` lists values in the order of their first occurrences. */
  lemma {:induction false} UniqueOrder(xs: seq<string>, i: nat, j: nat)
    requires i < j < |Unique(xs)|
    ensures FirstIndex(xs, Unique(xs)[i]) < FirstIndex(xs, Unique(xs)[j])
    decreases |xs|
  {
    var init := xs[..|xs| - 1];
    var r := Unique(init);
    var last := xs[|xs| - 1];
    assert xs == init + [last];
    FirstIndexPrefix(init, last);
    if j < |r| {
      UniqueOrder(init, i, j);
    } else {
      assert Unique(xs)[j] == last && last !in init;
      assert Unique(xs)[i] == r[i] && r[i] in init;
      assert FirstIndex(xs, last) == |init| by {
        assert forall m :: 0 <= m < |init| ==> xs[m] == init[m] && init[m] != last;
        FirstIndexIs(xs, last, |init|);
      }
    }
  }

  /** A first occurrence inside a prefix is the first occurrence in the whole. */
  lemma FirstIndexPrefix(init: seq<string>, last: string)
    ensures forall x :: x in init ==> FirstIndex(init + [last], x) == FirstIndex(init, x)
  {
    forall x | x in init ensures FirstIndex(init + [last], x) == FirstIndex(init, x) {
      var s := init + [last];
      var i := FirstIndex(init, x);
      assert forall m :: 0 <= m <= i ==> s[m] == init[m];
      FirstIndexIs(s, x, i);
    }
  }

  lemma FirstIndexIs(xs: seq<string>, x: string, i: nat)
    requires i < |xs| && xs[i] == x && forall j :: 0 <= j < i ==> xs[j] != x
    ensures FirstIndex(xs, x) == i
  {
  }

  /** Applying `f` to every value (`df[c] = df[c].map(f)` on every column of a row). */
  function MapValues<V, W>(d: Dict<V>, f: V -> W): (r: Dict<W>)
    ensures |r| == |d| && forall i :: 0 <= i < |d| ==> r[i] == (d[i].0, f(d[i].1))
  {
    if d == [] then [] else [(d[0].0, f(d[0].1))] + MapValues(d[1..], f)
  }

  /** Mapping the values keeps the keys and maps what `get` finds. */
  lemma {:induction false} GetMapValues<V, W>(d: Dict<V>, f: V -> W, k: string)
    ensures Keys(MapValues(d, f)) == Keys(d)
    ensures Get(MapValues(d, f), k) == if Get(d, k).Some? then Some(f(Get(d, k).value)) else None
    decreases |d|
  {
    if d != [] {
      GetMapValues(d[1..], f, k);
      assert MapValues(d, f)[1..] == MapValues(d[1..], f);
    }
  }
}
