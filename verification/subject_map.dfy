/**
 * The reference map from conference name to subject area
 * (`build_name_to_sub_map`), its re-keying by the lookup key (`norm_map`),
 * the lookup that labels each listing-A row, and the list of names left
 * without a label (`unmatched`).
 */
module SubjectMap {
  import opened Wrappers
  import opened Text
  import opened NameKey
  import opened Dicts

  /** One JSON entry; `None` stands for a missing, null or empty field. */
  datatype RefEntry = RefEntry(name: Option<string>, sub: Option<string>)

  /** The year-stripped, trimmed key an entry is filed under. */
  function KeyOf(e: RefEntry): string {
    YearKey(OrEmpty(e.name))
  }

  function SubOf(e: RefEntry): string {
    Strip(OrEmpty(e.sub))
  }

  /** The `(key, sub)` pairs the loop offers to `setdefault`: entries with an empty key are skipped. */
  function Offered(entries: seq<RefEntry>): (r: seq<(string, string)>)
    ensures forall k :: 0 <= k < |r| ==> r[k].0 != ""
  {
    if entries == [] then []
    else
      var rest := Offered(entries[1..]);
      if KeyOf(entries[0]) == "" then rest else [(KeyOf(entries[0]), SubOf(entries[0]))] + rest
  }

  /** `build_name_to_sub_map`: first write wins. */
  function BuildNameToSub(entries: seq<RefEntry>): Dict<string> {
    SetDefaultAll(Offered(entries))
  }

  /** Reference: the subject of the first entry filed under `key`. */
  function FirstSub(entries: seq<RefEntry>, key: string): Option<string> {
    if entries == [] then None
    else if KeyOf(entries[0]) == key then Some(SubOf(entries[0]))
    else FirstSub(entries[1..], key)
  }

  /**
   * The map has no entry for the empty key, and for any other key the
   * subject of the first entry filed under it.
   */
  lemma NameToSubGet(entries: seq<RefEntry>, key: string)
    ensures Get(BuildNameToSub(entries), key) == if key == "" then None else FirstSub(entries, key)
  {
    SetDefaultAllGet(Offered(entries), key);
    OfferedFirst(entries, key);
  }

  lemma {:induction false} OfferedFirst(entries: seq<RefEntry>, key: string)
    ensures FirstValue(Offered(entries), key) == if key == "" then None else FirstSub(entries, key)
  {
    if entries != [] {
      OfferedFirst(entries[1..], key);
    } else {
      assert Offered(entries) == [];
    }
  }

  /** The keys of the map are the non-empty keys, each once, in the order they first appear. */
  lemma NameToSubKeys(entries: seq<RefEntry>)
    ensures Keys(BuildNameToSub(entries)) == Unique(Keys(Offered(entries)))
  {
    BuildKeys(Offered(entries));
  }

  /** The map's pairs re-keyed by the full lookup key. */
  function Rekeyed(d: Dict<string>): (r: seq<(string, string)>)
    ensures |r| == |d| && forall k :: 0 <= k < |d| ==> r[k] == (Normalize(d[k].0), d[k].1)
  {
    if d == [] then [] else [(Normalize(d[0].0), d[0].1)] + Rekeyed(d[1..])
  }

  /** `norm_map`: a dict comprehension, so among colliding keys the last one wins. */
  function NormMap(d: Dict<string>): Dict<string> {
    PutAll(Rekeyed(d))
  }

  /** Reference: the value of the last item whose key normalises to `key`. */
  function LastSub(d: Dict<string>, key: string): Option<string> {
    if d == [] then None
    else if Normalize(d[|d| - 1].0) == key then Some(d[|d| - 1].1)
    else LastSub(d[..|d| - 1], key)
  }

  lemma NormMapGet(d: Dict<string>, key: string)
    ensures Get(NormMap(d), key) == LastSub(d, key)
  {
    PutAllGet(Rekeyed(d), key);
    RekeyedLast(d, key);
  }

  lemma {:induction false} RekeyedLast(d: Dict<string>, key: string)
    ensures LastValue(Rekeyed(d), key) == LastSub(d, key)
    decreases |d|
  {
    if d != [] {
      var init := d[..|d| - 1];
      RekeyedLast(init, key);
      assert Rekeyed(d)[..|d| - 1] == Rekeyed(init);
    }
  }

  /** `norm_map.get(normalize_for_lookup(name), "")`. */
  function Lookup(m: Dict<string>, name: string): (r: string)
    ensures Get(m, Normalize(name)).None? ==> r == ""
    ensures Get(m, Normalize(name)).Some? ==> r == Get(m, Normalize(name)).value
  {
    match Get(m, Normalize(name))
    case None => ""
    case Some(v) => v
  }

  /**
   * The label a name gets from the reference entries: "" unless some
   * entry's key normalises to the same lookup key, and then the subject of
   * the first entry filed under the last such key.
   */
  lemma LabelFromEntries(entries: seq<RefEntry>, name: string)
    ensures var d := BuildNameToSub(entries); var r := Lookup(NormMap(d), name);
      (LastSub(d, Normalize(name)).None? ==> r == "")
      && (LastSub(d, Normalize(name)).Some? ==> r == LastSub(d, Normalize(name)).value)
    ensures (forall e :: e in entries && KeyOf(e) != "" ==> Normalize(KeyOf(e)) != Normalize(name))
      ==> Lookup(NormMap(BuildNameToSub(entries)), name) == ""
  {
    var d := BuildNameToSub(entries);
    NormMapGet(d, Normalize(name));
    if LastSub(d, Normalize(name)).Some? {
      var k := LastSubKey(d, Normalize(name));
      assert k in Keys(d);
      KeysFromEntries(entries, k);
    }
  }

  /** The key `LastSub` took its value from. */
  lemma {:induction false} LastSubKey(d: Dict<string>, key: string) returns (k: string)
    requires LastSub(d, key).Some?
    ensures k in Keys(d) && Normalize(k) == key
    decreases |d|
  {
    if Normalize(d[|d| - 1].0) == key {
      k := d[|d| - 1].0;
    } else {
      k := LastSubKey(d[..|d| - 1], key);
      assert Keys(d[..|d| - 1]) == Keys(d)[..|d| - 1];
    }
  }

  /** Every key in the map is the non-empty key of some entry. */
  lemma KeysFromEntries(entries: seq<RefEntry>, k: string)
    requires k in Keys(BuildNameToSub(entries))
    ensures exists e :: e in entries && KeyOf(e) == k && k != ""
  {
    NameToSubKeys(entries);
    OfferedKeys(entries, k);
  }

  lemma {:induction false} OfferedKeys(entries: seq<RefEntry>, k: string)
    requires k in Keys(Offered(entries))
    ensures exists e :: e in entries && KeyOf(e) == k && k != ""
  {
    var ps := Offered(entries);
    var i :| 0 <= i < |ps| && Keys(ps)[i] == k;
    assert ps[i].0 == k;
    if KeyOf(entries[0]) == k {
      assert entries[0] in entries;
    } else {
      var rest := Offered(entries[1..]);
      if KeyOf(entries[0]) == "" {
        assert ps == rest;
      } else {
        assert ps == [(KeyOf(entries[0]), SubOf(entries[0]))] + rest;
        assert i > 0 && rest[i - 1] == ps[i];
        assert Keys(rest)[i - 1] == k;
      }
      OfferedKeys(entries[1..], k);
      var e :| e in entries[1..] && KeyOf(e) == k && k != "";
      assert e in entries;
    }
  }

  /** The names whose label is "", with repeats; `unique()` then keeps first occurrences. */
  function Unlabelled(names: seq<string>, subs: seq<string>): (r: seq<string>)
    requires |names| == |subs|
    ensures forall x :: x in r <==> exists k :: 0 <= k < |names| && names[k] == x && subs[k] == ""
  {
    if names == [] then []
    else
      var rest := Unlabelled(names[1..], subs[1..]);
      assert forall k :: 1 <= k < |names| ==> names[k] == names[1..][k - 1] && subs[k] == subs[1..][k - 1];
      forall x | x in rest ensures exists k :: 0 <= k < |names| && names[k] == x && subs[k] == "" {
        var k :| 0 <= k < |names| - 1 && names[1..][k] == x && subs[1..][k] == "";
        assert names[k + 1] == x && subs[k + 1] == "";
      }
      if subs[0] == "" then [names[0]] + rest else rest
  }

  /**
   * `unmatched`: exactly the names that got "" as their label, each once,
   * in the order of their first unlabelled occurrence.
   */
  function Unmatched(names: seq<string>, subs: seq<string>): (r: seq<string>)
    requires |names| == |subs|
    ensures Distinct(r)
    ensures forall x :: x in r <==> exists k :: 0 <= k < |names| && names[k] == x && subs[k] == ""
  {
    Unique(Unlabelled(names, subs))
  }

  /** `Unmatched` lists names in the order of their first unlabelled occurrence. */
  lemma UnmatchedOrder(names: seq<string>, subs: seq<string>, i: nat, j: nat)
    requires |names| == |subs| && i < j < |Unmatched(names, subs)|
    ensures var u, r := Unlabelled(names, subs), Unmatched(names, subs);
      FirstIndex(u, r[i]) < FirstIndex(u, r[j])
  {
    UniqueOrder(Unlabelled(names, subs), i, j);
  }
}
