/**
 * `[...new Map(xs.map(x => [key(x), x])).values()]`, the deduplication used for
 * download candidates (keyed by countdown URL) and resolved links (keyed by
 * download URL). A JavaScript `Map` keeps each key at the position where it was
 * first inserted, and a later `set` of the same key replaces the value in place:
 * the result lists each key once, in order of first occurrence, carrying the LAST
 * element that had that key.
 */
module KeyedDedup {

  /** Index of the first element of `xs` whose key is `k`, or `|xs|` when there is none. */
  function KeyIndex<T>(xs: seq<T>, key: T -> string, k: string): (i: nat)
    ensures i <= |xs|
    ensures i < |xs| ==> key(xs[i]) == k
    ensures forall j :: 0 <= j < i ==> key(xs[j]) != k
  {
    if xs == [] then 0
    else if key(xs[0]) == k then 0
    else 1 + KeyIndex(xs[1..], key, k)
  }

  predicate HasKey<T>(xs: seq<T>, key: T -> string, k: string)
  {
    KeyIndex(xs, key, k) < |xs|
  }

  /** Index of the last element of `xs` whose key is `k`, or -1. */
  function LastKeyIndex<T>(xs: seq<T>, key: T -> string, k: string): (i: int)
    ensures -1 <= i < |xs|
    ensures i >= 0 ==> key(xs[i]) == k
    ensures forall j :: i < j < |xs| ==> key(xs[j]) != k
    decreases |xs|
  {
    if xs == [] then -1
    else if key(xs[|xs| - 1]) == k then |xs| - 1
    else LastKeyIndex(xs[..|xs| - 1], key, k)
  }

  /** `map.set(key(x), x)`, seen through the map's `values()` order. */
  function MapSet<T>(acc: seq<T>, key: T -> string, x: T): (r: seq<T>)
  {
    var i := KeyIndex(acc, key, key(x));
    if i < |acc| then acc[i := x] else acc + [x]
  }

  /** The values of a `Map` built by setting every element of `xs` under its key, in turn. */
  function Dedup<T>(xs: seq<T>, key: T -> string): (r: seq<T>)
    decreases |xs|
  {
    if xs == [] then [] else MapSet(Dedup(xs[..|xs| - 1], key), key, xs[|xs| - 1])
  }

  predicate DistinctKeys<T>(ys: seq<T>, key: T -> string)
  {
    forall i, j :: 0 <= i < j < |ys| ==> key(ys[i]) != key(ys[j])
  }

  /** Keys that occur in a prefix keep their first index when elements are appended. */
  lemma KeyIndexSnoc<T>(p: seq<T>, key: T -> string, x: T, k: string)
    ensures KeyIndex(p + [x], key, k)
            == if HasKey(p, key, k) then KeyIndex(p, key, k) else if key(x) == k then |p| else |p| + 1
  {
    var xs := p + [x];
    var i := KeyIndex(p, key, k);
    var r := KeyIndex(xs, key, k);
    assert forall j :: 0 <= j < |p| ==> xs[j] == p[j];
    if i < |p| {
      assert key(xs[i]) == k;
    } else if key(x) == k {
      assert key(xs[|p|]) == k;
    }
  }

  lemma LastKeyIndexSnoc<T>(p: seq<T>, key: T -> string, x: T, k: string)
    ensures LastKeyIndex(p + [x], key, k) == if key(x) == k then |p| else LastKeyIndex(p, key, k)
  {
    assert (p + [x])[..|p|] == p;
  }

  /** One `set` keeps the keys distinct, changes the value under `key(x)` only, and adds `key(x)` at the end if it is new. */
  lemma MapSetFacts<T>(acc: seq<T>, key: T -> string, x: T)
    requires DistinctKeys(acc, key)
    ensures var r := MapSet(acc, key, x);
      && DistinctKeys(r, key)
      && (HasKey(acc, key, key(x)) ==> |r| == |acc|)
      && (!HasKey(acc, key, key(x)) ==> |r| == |acc| + 1 && r[|acc|] == x)
      && (forall i :: 0 <= i < |acc| ==> r[i] == if key(acc[i]) == key(x) then x else acc[i])
  {
    var r := MapSet(acc, key, x);
    var i := KeyIndex(acc, key, key(x));
  }

  /** Dedup output keys are pairwise distinct. */
  lemma {:induction false} DedupKeysDistinct<T>(xs: seq<T>, key: T -> string)
    ensures DistinctKeys(Dedup(xs, key), key)
    decreases |xs|
  {
    if xs != [] {
      DedupKeysDistinct(xs[..|xs| - 1], key);
      MapSetFacts(Dedup(xs[..|xs| - 1], key), key, xs[|xs| - 1]);
    }
  }

  /** A key occurs in the dedup output exactly when it occurs in the input. */
  lemma {:induction false} DedupKeepsKeys<T>(xs: seq<T>, key: T -> string)
    ensures forall k :: HasKey(Dedup(xs, key), key, k) <==> HasKey(xs, key, k)
    decreases |xs|
  {
    if xs != [] {
      var p, x := xs[..|xs| - 1], xs[|xs| - 1];
      assert xs == p + [x];
      var a := Dedup(p, key);
      DedupKeepsKeys(p, key);
      DedupKeysDistinct(p, key);
      MapSetFacts(a, key, x);
      var d := Dedup(xs, key);
      forall k ensures HasKey(d, key, k) <==> HasKey(xs, key, k) {
        KeyIndexSnoc(p, key, x, k);
        KeyIndexSnoc(a, key, x, k);
        if HasKey(a, key, k) {
          var i := KeyIndex(a, key, k);
          assert key(d[i]) == k;
        }
      }
    }
  }

  /** One `set` on a map listed in first-occurrence order keeps that order for the longer input. */
  lemma MapSetKeepsOrder<T>(p: seq<T>, key: T -> string, x: T, a: seq<T>, i: nat, j: nat)
    requires DistinctKeys(a, key)
    requires forall k :: HasKey(a, key, k) <==> HasKey(p, key, k)
    requires forall i, j :: 0 <= i < j < |a| ==> KeyIndex(p, key, key(a[i])) < KeyIndex(p, key, key(a[j]))
    requires i < j < |MapSet(a, key, x)|
    ensures KeyIndex(p + [x], key, key(MapSet(a, key, x)[i])) < KeyIndex(p + [x], key, key(MapSet(a, key, x)[j]))
  {
    MapSetFacts(a, key, x);
    var d := MapSet(a, key, x);
    var ki, kj := key(d[i]), key(d[j]);
    KeyIndexSnoc(p, key, x, ki);
    KeyIndexSnoc(p, key, x, kj);
    assert ki == key(a[i]);
    assert HasKey(a, key, ki) by { assert key(a[KeyIndex(a, key, ki)]) == ki; }
    if j < |a| {
      assert kj == key(a[j]);
      assert HasKey(a, key, kj) by { assert key(a[KeyIndex(a, key, kj)]) == kj; }
    } else {
      assert kj == key(x) && !HasKey(a, key, kj);
    }
  }

  /** The dedup output lists the keys in the order of their first occurrence in the input. */
  lemma {:induction false} DedupFirstOccurrenceOrder<T>(xs: seq<T>, key: T -> string)
    ensures forall i, j :: 0 <= i < j < |Dedup(xs, key)| ==>
      KeyIndex(xs, key, key(Dedup(xs, key)[i])) < KeyIndex(xs, key, key(Dedup(xs, key)[j]))
    decreases |xs|
  {
    if xs != [] {
      var p, x := xs[..|xs| - 1], xs[|xs| - 1];
      assert xs == p + [x];
      DedupFirstOccurrenceOrder(p, key);
      var a := Dedup(p, key);
      DedupKeepsKeys(p, key);
      DedupKeysDistinct(p, key);
      forall i, j | 0 <= i < j < |Dedup(xs, key)|
        ensures KeyIndex(xs, key, key(Dedup(xs, key)[i])) < KeyIndex(xs, key, key(Dedup(xs, key)[j]))
      {
        MapSetKeepsOrder(p, key, x, a, i, j);
      }
    }
  }

  /** Each entry of the dedup output is the last input element with that key. */
  lemma {:induction false} DedupLastValue<T>(xs: seq<T>, key: T -> string)
    ensures forall i :: 0 <= i < |Dedup(xs, key)| ==>
      LastKeyIndex(xs, key, key(Dedup(xs, key)[i])) >= 0 && Dedup(xs, key)[i] == xs[LastKeyIndex(xs, key, key(Dedup(xs, key)[i]))]
    decreases |xs|
  {
    if xs != [] {
      var p, x := xs[..|xs| - 1], xs[|xs| - 1];
      assert xs == p + [x];
      var a := Dedup(p, key);
      DedupLastValue(p, key);
      assert forall i :: 0 <= i < |a| ==> LastKeyIndex(p, key, key(a[i])) >= 0 && a[i] == p[LastKeyIndex(p, key, key(a[i]))];
      DedupKeysDistinct(p, key);
      MapSetFacts(a, key, x);
      var d := Dedup(xs, key);
      forall i | 0 <= i < |d|
        ensures LastKeyIndex(xs, key, key(d[i])) >= 0 && d[i] == xs[LastKeyIndex(xs, key, key(d[i]))]
      {
        LastKeyIndexSnoc(p, key, x, key(d[i]));
        if i < |a| && key(a[i]) != key(x) {
          assert d[i] == a[i];
          var l := LastKeyIndex(p, key, key(a[i]));
          assert l >= 0 && a[i] == p[l];
          assert xs[l] == p[l];
        } else {
          assert d[i] == x;
        }
      }
    }
  }

  /** Dedup never lengthens its input, and is empty exactly when the input is. */
  lemma {:induction false} DedupLength<T>(xs: seq<T>, key: T -> string)
    ensures |Dedup(xs, key)| <= |xs|
    ensures |Dedup(xs, key)| == 0 <==> |xs| == 0
    decreases |xs|
  {
    if xs != [] {
      var p, x := xs[..|xs| - 1], xs[|xs| - 1];
      DedupLength(p, key);
      DedupKeysDistinct(p, key);
      MapSetFacts(Dedup(p, key), key, x);
    }
  }

  /** A list whose keys are already distinct is left as it is. */
  lemma {:induction false} DedupOfDistinct<T>(ys: seq<T>, key: T -> string)
    requires DistinctKeys(ys, key)
    ensures Dedup(ys, key) == ys
    decreases |ys|
  {
    if ys != [] {
      var p, y := ys[..|ys| - 1], ys[|ys| - 1];
      assert DistinctKeys(p, key);
      DedupOfDistinct(p, key);
      assert forall i :: 0 <= i < |p| ==> p[i] == ys[i];
      assert p + [y] == ys;
    }
  }

  /** Deduplicating twice is the same as deduplicating once. */
  lemma DedupIdempotent<T>(xs: seq<T>, key: T -> string)
    ensures Dedup(Dedup(xs, key), key) == Dedup(xs, key)
  {
    DedupKeysDistinct(xs, key);
    DedupOfDistinct(Dedup(xs, key), key);
  }

  /** Everything the handlers rely on, in one statement. */
  lemma DedupSpec<T>(xs: seq<T>, key: T -> string)
    ensures DistinctKeys(Dedup(xs, key), key)
    ensures forall k :: HasKey(Dedup(xs, key), key, k) <==> HasKey(xs, key, k)
    ensures forall i, j :: 0 <= i < j < |Dedup(xs, key)| ==>
      KeyIndex(xs, key, key(Dedup(xs, key)[i])) < KeyIndex(xs, key, key(Dedup(xs, key)[j]))
    ensures forall i :: 0 <= i < |Dedup(xs, key)| ==>
      LastKeyIndex(xs, key, key(Dedup(xs, key)[i])) >= 0 && Dedup(xs, key)[i] == xs[LastKeyIndex(xs, key, key(Dedup(xs, key)[i]))]
    ensures |Dedup(xs, key)| <= |xs|
    ensures |Dedup(xs, key)| == 0 <==> |xs| == 0
  {
    DedupKeysDistinct(xs, key);
    DedupKeepsKeys(xs, key);
    DedupFirstOccurrenceOrder(xs, key);
    DedupLastValue(xs, key);
    DedupLength(xs, key);
  }
}
