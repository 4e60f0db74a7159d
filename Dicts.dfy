/** A JSON object whose values are strings, as the program sees one through
    `Object.entries`: an insertion-ordered list of (key, value) pairs with
    distinct keys. Assigning to an existing key keeps its position; assigning to
    a new key appends it. */
module Dicts {
  import opened Wrappers

  type Entry = (string, string)

  predicate DistinctKeys(s: seq<Entry>) {
    forall i, j :: 0 <= i < j < |s| ==> s[i].0 != s[j].0
  }

  type Dict = s: seq<Entry> | DistinctKeys(s) witness []

  function Keys(d: seq<Entry>): (ks: seq<string>)
    ensures |ks| == |d| && forall i :: 0 <= i < |d| ==> ks[i] == d[i].0
  {
    if d == [] then [] else [d[0].0] + Keys(d[1..])
  }

  /** `obj[key]`, `undefined` being `None`. */
  function Get(d: seq<Entry>, key: string): (r: Option<string>)
    ensures r.None? <==> key !in Keys(d)
  {
    if d == [] then None
    else if d[0].0 == key then Some(d[0].1)
    else Get(d[1..], key)
  }

  /** `obj[key] = value`. */
  function Put(d: Dict, key: string, value: string): (r: Dict)
    ensures key in Keys(d) ==> Keys(r) == Keys(d)
    ensures key !in Keys(d) ==> Keys(r) == Keys(d) + [key]
  {
    if d == [] then [(key, value)]
    else if d[0].0 == key then [(key, value)] + d[1..]
    else
      var rest := Put(d[1..], key, value);
      assert Keys(rest) == Keys(d[1..]) || Keys(rest) == Keys(d[1..]) + [key];
      assert d[0].0 !in Keys(rest);
      [d[0]] + rest
  }

  lemma {:induction false} GetPut(d: Dict, key: string, value: string, k: string)
    ensures Get(Put(d, key, value), k) == if k == key then Some(value) else Get(d, k)
  {
    if d != [] && d[0].0 != key {
      GetPut(d[1..], key, value, k);
    }
  }

  /** The result of `for (const [k, v] of Object.entries(over)) base[k] = v`. */
  function Overlay(base: Dict, over: Dict): Dict
    decreases |over|
  {
    if over == [] then base else Overlay(Put(base, over[0].0, over[0].1), over[1..])
  }

  /** After the overlay, every key of `over` has `over`'s value and every other
      key keeps the value it had in `base`. */
  lemma {:induction false} GetOverlay(base: Dict, over: Dict, k: string)
    ensures Get(Overlay(base, over), k) == if k in Keys(over) then Get(over, k) else Get(base, k)
    decreases |over|
  {
    if over != [] {
      var base' := Put(base, over[0].0, over[0].1);
      GetOverlay(base', over[1..], k);
      GetPut(base, over[0].0, over[0].1, k);
      assert Keys(over) == [over[0].0] + Keys(over[1..]);
      if k == over[0].0 {
        assert k !in Keys(over[1..]) by {
          forall i | 0 <= i < |over[1..]| ensures over[1..][i].0 != k {
            assert over[1..][i] == over[i + 1];
          }
        }
      }
    }
  }

  /** The overlay keeps the keys of `base` first and in their order. */
  lemma {:induction false} OverlayKeepsOrder(base: Dict, over: Dict)
    ensures |Keys(base)| <= |Keys(Overlay(base, over))|
    ensures Keys(Overlay(base, over))[..|Keys(base)|] == Keys(base)
    decreases |over|
  {
    if over != [] {
      var base' := Put(base, over[0].0, over[0].1);
      OverlayKeepsOrder(base', over[1..]);
      assert Keys(base')[..|Keys(base)|] == Keys(base);
    }
  }

  /** Assigning the value a key already has changes nothing. */
  lemma {:induction false} PutPresent(d: Dict, key: string, value: string)
    requires Get(d, key) == Some(value)
    ensures Put(d, key, value) == d
  {
    if d != [] && d[0].0 != key {
      PutPresent(d[1..], key, value);
    }
  }

  /** Overlaying entries that are already there changes nothing. */
  lemma {:induction false} OverlayPresent(base: Dict, over: Dict)
    requires forall k :: k in Keys(over) ==> Get(base, k) == Get(over, k)
    ensures Overlay(base, over) == base
    decreases |over|
  {
    if over != [] {
      assert over[0].0 == Keys(over)[0];
      PutPresent(base, over[0].0, over[0].1);
      forall k | k in Keys(over[1..]) ensures Get(base, k) == Get(over[1..], k) {
        var i :| 0 <= i < |over[1..]| && Keys(over[1..])[i] == k;
        assert over[1..][i] == over[i + 1];
        assert Keys(over)[i + 1] == k;
        assert k != over[0].0;
      }
      OverlayPresent(base, over[1..]);
    }
  }

  /** Overlaying the same entries twice is overlaying them once. */
  lemma OverlayIdempotent(base: Dict, over: Dict)
    ensures Overlay(Overlay(base, over), over) == Overlay(base, over)
  {
    forall k | k in Keys(over) ensures Get(Overlay(base, over), k) == Get(over, k) {
      GetOverlay(base, over, k);
    }
    OverlayPresent(Overlay(base, over), over);
  }
}
