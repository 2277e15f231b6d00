/** The least-recently-used cache, and the variant that also admits freshly appended pages. */
module Lru {

  /** The cached pairs, most recently used first. */
  type Items<V> = seq<(nat, V)>

  function Keys<V>(items: Items<V>): seq<nat> {
    if items == [] then [] else [items[0].0] + Keys(items[1..])
  }

  /** position of the first pair for key, or the length when there is none */
  function Find<V>(items: Items<V>, key: nat): (p: nat)
    ensures p <= |items|
    ensures p < |items| ==> items[p].0 == key
    ensures forall j :: 0 <= j < p ==> items[j].0 != key
  {
    if items == [] || items[0].0 == key then 0 else 1 + Find(items[1..], key)
  }

  /** the list without its first k */
  function Without(ks: seq<nat>, k: nat): (r: seq<nat>)
    ensures |r| <= |ks|
  {
    if ks == [] then [] else if ks[0] == k then ks[1..] else [ks[0]] + Without(ks[1..], k)
  }

  function Take(ks: seq<nat>, n: nat): seq<nat> {
    if n == 0 || ks == [] then [] else [ks[0]] + Take(ks[1..], n - 1)
  }

  predicate Distinct(ks: seq<nat>) {
    ks == [] || (ks[0] !in ks[1..] && Distinct(ks[1..]))
  }

  function DropAt<V>(items: Items<V>, p: nat): Items<V>
    requires p < |items|
  {
    items[..p] + items[p + 1..]
  }

  function Evicted<V>(items: Items<V>, size: nat): Items<V>
    requires size >= 1
  {
    if |items| >= size then items[..|items| - 1] else items
  }

  /** The cache after one lookup of key, whose loader value is v. */
  function Touched<V>(items: Items<V>, key: nat, v: V, size: nat): Items<V>
    requires size >= 1
  {
    var p := Find(items, key);
    if p < |items| then [(key, items[p].1)] + DropAt(items, p) else [(key, v)] + Evicted(items, size)
  }

  class LruCache<V> {
    const size: nat
    var items: Items<V>

    constructor (size: nat)
      requires size >= 1
      ensures this.size == size && items == []
    {
      this.size := size;
      items := [];
    }

    /** Looks key up: a hit moves its pair to the front, a miss evicts the pair at the back when
        the cache is full and loads the value from the backing store. */
    method Index(key: nat, backing: map<nat, V>) returns (v: V)
      requires size >= 1 && key in backing
      modifies this
      ensures items == Touched(old(items), key, backing[key], size) && v == items[0].1
    {
      var i := 0;
      while i < |items|
        invariant 0 <= i <= |items|
        invariant items == old(items)
        invariant forall j :: 0 <= j < i ==> items[j].0 != key
      {
        if items[i].0 == key {
          FindFirst(items, key, i);
          v := items[i].1;
          items := items[..i] + items[i + 1..];
          items := [(key, v)] + items;
          return;
        }
        i := i + 1;
      }
      FindNone(items, key);
      if |items| >= size {
        items := items[..|items| - 1];
      }
      items := [(key, backing[key])] + items;
      v := items[0].1;
    }

    /** Admits a page that was just appended to the file: for a new key, the same as a lookup. */
    method Append(key: nat, page: V) returns (v: V)
      requires size >= 1
      modifies this
      ensures items == [(key, page)] + Evicted(old(items), size)
      ensures Find(old(items), key) == |old(items)| ==> items == Touched(old(items), key, page, size)
      ensures v == page
    {
      if |items| >= size {
        items := items[..|items| - 1];
      }
      items := [(key, page)] + items;
      v := items[0].1;
    }
  }

  lemma FindFirst<V>(items: Items<V>, key: nat, i: nat)
    requires i < |items| && items[i].0 == key && forall j :: 0 <= j < i ==> items[j].0 != key
    ensures Find(items, key) == i
  {
    var _ := Find(items, key);
  }

  lemma FindNone<V>(items: Items<V>, key: nat)
    requires forall j :: 0 <= j < |items| ==> items[j].0 != key
    ensures Find(items, key) == |items|
  {
    var _ := Find(items, key);
  }

  // ---- what the cache holds after any access sequence -----------------------------------------

  /** The cache after a sequence of lookups, last one last. */
  function After<V>(trace: seq<nat>, load: nat -> V, size: nat): Items<V>
    requires size >= 1
  {
    if trace == [] then []
    else
      var k := trace[|trace| - 1];
      Touched(After(trace[..|trace| - 1], load, size), k, load(k), size)
  }

  /** The distinct keys looked up, the most recently used first. */
  function Recency(trace: seq<nat>): seq<nat> {
    if trace == [] then []
    else
      var k := trace[|trace| - 1];
      [k] + Without(Recency(trace[..|trace| - 1]), k)
  }

  lemma {:induction false} WithoutDistinct(ks: seq<nat>, k: nat)
    requires Distinct(ks)
    ensures Distinct(Without(ks, k)) && k !in Without(ks, k)
    ensures forall x :: x in Without(ks, k) <==> x in ks && x != k
  {
    if ks != [] && ks[0] != k {
      WithoutDistinct(ks[1..], k);
    }
  }

  /** the index of the last lookup of k */
  function LastUse(trace: seq<nat>, k: nat): (i: nat)
    requires k in trace
    ensures i < |trace| && trace[i] == k
    ensures forall j :: i < j < |trace| ==> trace[j] != k
  {
    if trace[|trace| - 1] == k then |trace| - 1 else LastUse(trace[..|trace| - 1], k)
  }

  /** a was looked up after b was looked up for the last time */
  predicate UsedAfter(trace: seq<nat>, a: nat, b: nat) {
    a in trace && b in trace && LastUse(trace, a) > LastUse(trace, b)
  }

  predicate ByLastUse(trace: seq<nat>, ks: seq<nat>) {
    forall i, j :: 0 <= i < j < |ks| ==> UsedAfter(trace, ks[i], ks[j])
  }

  lemma LastUseGrows(trace: seq<nat>, k: nat, a: nat, b: nat)
    requires a != k && b != k && UsedAfter(trace, a, b)
    ensures UsedAfter(trace + [k], a, b)
  {
    assert (trace + [k])[..|trace|] == trace;
  }

  lemma NowUsed(trace: seq<nat>, k: nat, b: nat)
    requires b != k && b in trace
    ensures UsedAfter(trace + [k], k, b)
  {
    assert (trace + [k])[..|trace|] == trace;
  }

  lemma {:induction false} WithoutAt(ks: seq<nat>, k: nat, i: nat) returns (p: nat)
    requires Distinct(ks) && i < |Without(ks, k)|
    ensures p < |ks| && Without(ks, k)[i] == ks[p] && p == if k in ks[..i + 1] then i + 1 else i
  {
    if ks[0] == k {
      p := i + 1;
      assert k in ks[..i + 1];
    } else if i == 0 {
      p := 0;
    } else {
      var q := WithoutAt(ks[1..], k, i - 1);
      assert ks[1..][..i] == ks[1..i + 1];
      assert ks[..i + 1] == [ks[0]] + ks[1..i + 1];
      p := q + 1;
    }
  }

  lemma WithoutByLastUse(trace: seq<nat>, ks: seq<nat>, k: nat)
    requires Distinct(ks) && ByLastUse(trace, ks)
    ensures ByLastUse(trace, Without(ks, k))
  {
    var w := Without(ks, k);
    forall i, j | 0 <= i < j < |w| ensures UsedAfter(trace, w[i], w[j]) {
      var p := WithoutAt(ks, k, i);
      var q := WithoutAt(ks, k, j);
      assert ks[..i + 1] <= ks[..j + 1];
      assert p < q;
    }
  }

  lemma FrontByLastUse(trace: seq<nat>, w: seq<nat>, k: nat)
    requires ByLastUse(trace, w) && k !in w && forall x :: x in w ==> x in trace
    ensures ByLastUse(trace + [k], [k] + w)
  {
    var ks := [k] + w;
    forall i, j | 0 <= i < j < |ks| ensures UsedAfter(trace + [k], ks[i], ks[j]) {
      if i == 0 {
        NowUsed(trace, k, w[j - 1]);
      } else {
        LastUseGrows(trace, k, w[i - 1], w[j - 1]);
      }
    }
  }

  /** `Recency` lists exactly the keys looked up, each once, in descending order of their last lookup. */
  lemma {:induction false} RecencyExact(trace: seq<nat>)
    ensures Distinct(Recency(trace))
    ensures forall x :: x in Recency(trace) <==> x in trace
    ensures ByLastUse(trace, Recency(trace))
  {
    hide ByLastUse;
    if trace != [] {
      var init, k := trace[..|trace| - 1], trace[|trace| - 1];
      RecencyExact(init);
      WithoutDistinct(Recency(init), k);
      WithoutByLastUse(init, Recency(init), k);
      FrontByLastUse(init, Without(Recency(init), k), k);
      assert trace == init + [k];
      assert forall x :: x in trace <==> x in init || x == k;
    } else {
      NothingByLastUse();
    }
  }

  lemma NothingByLastUse()
    ensures ByLastUse([], [])
  {
  }

  lemma {:induction false} TakeIs(ks: seq<nat>, n: nat)
    ensures Take(ks, n) == if n <= |ks| then ks[..n] else ks
  {
    if n > 0 && ks != [] {
      TakeIs(ks[1..], n - 1);
      assert n <= |ks| ==> ks[..n] == [ks[0]] + ks[1..][..n - 1];
    }
  }

  lemma TakeCons(a: nat, ks: seq<nat>, n: nat)
    ensures Take([a] + ks, n) == if n == 0 then [] else [a] + Take(ks, n - 1)
  {
    assert ([a] + ks)[1..] == ks;
  }

  lemma WithoutCons(a: nat, ks: seq<nat>, k: nat)
    ensures Without([a] + ks, k) == if a == k then ks else [a] + Without(ks, k)
  {
    assert ([a] + ks)[1..] == ks;
  }

  lemma NothingToTake(ks: seq<nat>, k: nat, n: nat)
    ensures Take(ks, 0) == [] && Take([], n) == [] && Without([], k) == []
  {
  }

  lemma InCons(a: nat, ks: seq<nat>, k: nat)
    ensures k in [a] + ks <==> k == a || k in ks
  {
  }

  lemma {:induction false} TakeWithout(ks: seq<nat>, k: nat, n: nat)
    requires n >= 1
    ensures Take(Without(ks, k), n - 1) == if k in Take(ks, n) then Without(Take(ks, n), k) else Take(ks, n - 1)
    decreases |ks|, 0
  {
    hide Take, Without;
    if ks == [] {
      NothingToTake(ks, k, n);
      NothingToTake(ks, k, n - 1);
    } else {
      TakeWithoutCons(ks[0], ks[1..], k, n);
      assert ks == [ks[0]] + ks[1..];
    }
  }

  lemma {:induction false} TakeWithoutCons(a: nat, rest: seq<nat>, k: nat, n: nat)
    requires n >= 1
    ensures var ks := [a] + rest;
            Take(Without(ks, k), n - 1) == if k in Take(ks, n) then Without(Take(ks, n), k) else Take(ks, n - 1)
    decreases |rest|, 1
  {
    hide Take, Without;
    var t := Take(rest, n - 1);
    TakeCons(a, rest, n);
    WithoutCons(a, rest, k);
    InCons(a, t, k);
    WithoutCons(a, t, k);
    if a != k {
      TakeCons(a, rest, n - 1);
      TakeCons(a, Without(rest, k), n - 1);
      if n > 1 {
        TakeWithout(rest, k, n - 1);
      } else {
        NothingToTake(rest, k, n);
      }
    }
  }

  lemma KeysCons<V>(item: (nat, V), items: Items<V>)
    ensures Keys([item] + items) == [item.0] + Keys(items)
  {
    assert ([item] + items)[1..] == items;
  }

  lemma {:induction false} KeysPrefix<V>(items: Items<V>, m: nat)
    requires m <= |items|
    ensures |Keys(items)| == |items| && Keys(items[..m]) == Keys(items)[..m]
  {
    if items != [] {
      var x, rest := items[0], items[1..];
      KeysPrefix(rest, if m == 0 then 0 else m - 1);
      if m > 0 {
        assert items[..m] == [x] + rest[..m - 1];
        KeysCons(x, rest[..m - 1]);
      }
    }
  }

  lemma KeysEvicted<V>(items: Items<V>, ks: seq<nat>, n: nat)
    requires n >= 1 && Keys(items) == Take(ks, n)
    ensures Keys(Evicted(items, n)) == Take(ks, n - 1)
  {
    hide Keys, Take;
    TakeIs(ks, n);
    TakeIs(ks, n - 1);
    KeysPrefix(items, |items|);
    if |items| >= n {
      KeysPrefix(items, n - 1);
    }
  }

  lemma FindCons<V>(x: (nat, V), items: Items<V>, key: nat)
    ensures Find([x] + items, key) == if x.0 == key then 0 else 1 + Find(items, key)
  {
    assert ([x] + items)[1..] == items;
  }

  lemma DropCons<V>(x: (nat, V), items: Items<V>, p: nat)
    requires p <= |items|
    ensures DropAt([x] + items, p) == if p == 0 then items else [x] + DropAt(items, p - 1)
  {
  }

  lemma {:induction false} KeysDropAt<V>(items: Items<V>, key: nat)
    requires Find(items, key) < |items|
    ensures Keys(DropAt(items, Find(items, key))) == Without(Keys(items), key)
    ensures key in Keys(items)
    decreases |items|, 0
  {
    hide Keys, Without, Find, DropAt;
    assert items == [items[0]] + items[1..];
    KeysDropCons(items[0], items[1..], key);
  }

  lemma {:induction false} KeysDropCons<V>(x: (nat, V), rest: Items<V>, key: nat)
    requires Find([x] + rest, key) <= |rest|
    ensures var items := [x] + rest;
            Keys(DropAt(items, Find(items, key))) == Without(Keys(items), key) && key in Keys(items)
    decreases |rest|, 1
  {
    hide Keys, Without, Find, DropAt;
    FindCons(x, rest, key);
    KeysCons(x, rest);
    WithoutCons(x.0, Keys(rest), key);
    InCons(x.0, Keys(rest), key);
    DropCons(x, rest, Find([x] + rest, key));
    if x.0 != key {
      KeysDropAt(rest, key);
      KeysCons(x, DropAt(rest, Find(rest, key)));
    }
  }

  lemma {:induction false} KeysMiss<V>(items: Items<V>, key: nat)
    requires Find(items, key) == |items|
    ensures key !in Keys(items)
  {
    if items != [] {
      KeysMiss(items[1..], key);
    }
  }

  /** One lookup moves the cache as it moves the recency list. */
  lemma TouchedKeys<V>(items: Items<V>, ks: seq<nat>, k: nat, v: V, size: nat)
    requires size >= 1 && Distinct(ks) && Keys(items) == Take(ks, size)
    ensures Keys(Touched(items, k, v, size)) == Take([k] + Without(ks, k), size)
  {
    TakeWithout(ks, k, size);
    if Find(items, k) < |items| {
      KeysDropAt(items, k);
    } else {
      KeysMiss(items, k);
      KeysEvicted(items, ks, size);
    }
  }

  lemma TouchedValues<V>(items: Items<V>, k: nat, load: nat -> V, size: nat)
    requires size >= 1 && forall i :: 0 <= i < |items| ==> items[i].1 == load(items[i].0)
    ensures var t := Touched(items, k, load(k), size);
            forall i :: 0 <= i < |t| ==> t[i].1 == load(t[i].0)
  {
  }

  lemma {:induction false} CacheFollows<V>(trace: seq<nat>, load: nat -> V, size: nat)
    requires size >= 1
    ensures Keys(After(trace, load, size)) == Take(Recency(trace), size)
    ensures forall i :: 0 <= i < |After(trace, load, size)| ==>
              After(trace, load, size)[i].1 == load(After(trace, load, size)[i].0)
  {
    if trace != [] {
      var init, k := trace[..|trace| - 1], trace[|trace| - 1];
      CacheFollows(init, load, size);
      RecencyExact(init);
      TouchedKeys(After(init, load, size), Recency(init), k, load(k), size);
      TouchedValues(After(init, load, size), k, load, size);
    }
  }

  /** For every access sequence the cache holds at most `size` of the keys looked up, in descending
      order of their last lookup, each with its loader's value. A key that is not there any more was
      used before all that are, and the cache is full. */
  lemma CacheIsMostRecent<V>(trace: seq<nat>, load: nat -> V, size: nat)
    requires size >= 1
    ensures var items := After(trace, load, size);
            var ks := Keys(items);
            && |ks| <= size && (forall x :: x in ks ==> x in trace)
            && ByLastUse(trace, ks)
            && (forall x, k :: x in trace && x !in ks && k in ks ==> UsedAfter(trace, k, x))
            && (forall x :: x in trace && x !in ks ==> |ks| == size)
            && forall i :: 0 <= i < |items| ==> items[i].1 == load(items[i].0)
  {
    CacheFollows(trace, load, size);
    RecencyExact(trace);
    var ks, all := Keys(After(trace, load, size)), Recency(trace);
    TakeIs(all, size);
    forall x, k | x in trace && x !in ks && k in ks ensures UsedAfter(trace, k, x) {
      var i :| 0 <= i < |ks| && ks[i] == k;
      assert x in all;
      var j :| 0 <= j < |all| && all[j] == x;
      assert i < j;
    }
    forall x | x in trace && x !in ks ensures |ks| == size {
      assert x in all;
    }
  }
}
