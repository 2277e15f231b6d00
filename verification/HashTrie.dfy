/** The hash map run by one thread: a trie that branches sixteen ways on each nibble of the key.

  A bucket on level 1 holds values; one on a higher level holds buckets of the level below, made when
  they are first needed. A key is used from its lowest nibble up. */
module HashTrie {
  datatype Option<+T> = None | Some(value: T)

  const NIBBLES: nat := 16

  /** how many keys a bucket of this level distinguishes */
  function Keys(level: nat): nat {
    if level == 0 then 1 else NIBBLES * Keys(level - 1)
  }

  /** the slots that a key leads to, from the top level down */
  function Path(level: nat, key: nat): seq<nat> {
    if level == 0 then [] else [key % NIBBLES] + Path(level - 1, key / NIBBLES)
  }

  /** Different keys lead to different slots. */
  lemma {:induction false} PathsDiffer(level: nat, k: nat, j: nat)
    requires k < Keys(level) && j < Keys(level) && Path(level, k) == Path(level, j)
    ensures k == j
  {
    if level > 0 {
      var p, q := Path(level, k), Path(level, j);
      assert p[0] == k % NIBBLES && q[0] == j % NIBBLES;
      assert p[1..] == Path(level - 1, k / NIBBLES) && q[1..] == Path(level - 1, j / NIBBLES);
      Below(level, k);
      Below(level, j);
      PathsDiffer(level - 1, k / NIBBLES, j / NIBBLES);
    }
  }

  /** Sixteen levels take every 64-bit key, eight every 32-bit key; the lowest nibble leads first. */
  lemma Widths(k: nat)
    ensures Keys(1) == 16 && Keys(2) == 256 && Keys(8) == 0x1_0000_0000 && Keys(16) == 0x1_0000_0000_0000_0000
    ensures Path(2, k) == [k % 16, k / 16 % 16]
  {
    assert Keys(0) == 1 && Keys(3) == 16 * Keys(2) && Keys(4) == 16 * Keys(3) && Keys(5) == 16 * Keys(4);
    assert Keys(6) == 16 * Keys(5) && Keys(7) == 16 * Keys(6) && Keys(9) == 16 * Keys(8) && Keys(10) == 16 * Keys(9);
    assert Keys(11) == 16 * Keys(10) && Keys(12) == 16 * Keys(11) && Keys(13) == 16 * Keys(12);
    assert Keys(14) == 16 * Keys(13) && Keys(15) == 16 * Keys(14);
    assert Path(1, k / 16) == [k / 16 % 16] + Path(0, k / 16 / 16);
  }

  lemma Below(level: nat, k: nat)
    requires level > 0 && k < Keys(level)
    ensures k / NIBBLES < Keys(level - 1)
  {
  }

  class Bucket<V(0)> {
    const level: nat
    const buckets: array<Bucket?<V>>
    const values: array<Option<V>>
    ghost var Map: map<nat, V>
    ghost var Repr: set<object>

    /** an empty bucket */
    constructor (level: nat)
      requires level > 0
      ensures Valid() && fresh(Repr) && this.level == level && Map == map[]
    {
      this.level := level;
      var bs := new Bucket?<V>[NIBBLES](_ => null);
      var vs := new Option<V>[NIBBLES](_ => None);
      buckets, values := bs, vs;
      Map := map[];
      Repr := {this, bs, vs};
      new;
      assert forall i :: 0 <= i < NIBBLES ==> buckets[i] == null && values[i].None?;
      assert forall k: nat :: k < Keys(level) ==> Entry(k);
      assert forall i, j :: 0 <= i < NIBBLES && 0 <= j < NIBBLES ==> Apart(i, j);
    }

    /** `Map` is what the bucket stands for */
    ghost predicate Valid()
      reads this, Repr
      decreases level, 1
    {
      && Shape()
      && (forall i {:trigger Slot(i)} :: 0 <= i < NIBBLES ==> Slot(i))
      && (forall i, j {:trigger Apart(i, j)} :: 0 <= i < NIBBLES && 0 <= j < NIBBLES ==> Apart(i, j))
      && (forall k: nat {:trigger k in Map} :: k in Map ==> k < Keys(level))
      && forall k: nat {:trigger Entry(k)} :: k < Keys(level) ==> Entry(k)
    }

    ghost predicate Shape()
      reads this
    {
      && level > 0 && {this, buckets, values} <= Repr
      && buckets.Length == NIBBLES && values.Length == NIBBLES
    }

    /** the bucket in slot i is one of the level below, and shares nothing with the others */
    ghost predicate Slot(i: nat)
      requires Shape() && i < NIBBLES
      reads this, Repr
      decreases level, 0, 1
    {
      var b := buckets[i];
      b != null ==>
        level > 1 && b in Repr && b in b.Repr && b.Repr <= Repr && {this, buckets, values} !! b.Repr
          && b.level == level - 1 && b.Valid()
    }

    ghost predicate Apart(i: nat, j: nat)
      requires Shape() && i < NIBBLES && j < NIBBLES
      reads this, Repr
    {
      var b, c := buckets[i], buckets[j];
      i != j && b != null && c != null && b in Repr && c in Repr ==> b.Repr !! c.Repr
    }

    /** key k is in the map exactly when it is found where its nibbles lead */
    ghost predicate Entry(k: nat)
      requires Shape()
      reads this, Repr
      decreases level, 0, 0
    {
      var b := buckets[k % NIBBLES];
      if level == 1 then
        (k in Map <==> values[k % NIBBLES].Some?) && (k in Map ==> Map[k] == values[k % NIBBLES].value)
      else if b == null || b !in Repr then
        k !in Map
      else
        (k in Map <==> k / NIBBLES in b.Map) && (k in Map ==> Map[k] == b.Map[k / NIBBLES])
    }

    method Exists(key: nat) returns (found: bool)
      requires Valid() && key < Keys(level)
      ensures found == (key in Map)
      decreases level
    {
      var i := key % NIBBLES;
      assert Slot(i) && Entry(key);
      if level == 1 {
        return values[i].Some?;
      }
      var b := buckets[i];
      if b == null {
        return false;
      }
      Below(level, key);
      found := b.Exists(key / NIBBLES);
    }

    /** the bucket in slot i, made if there is none */
    method Child(i: nat) returns (b: Bucket<V>)
      requires Valid() && level > 1 && i < NIBBLES
      modifies this, buckets
      ensures Valid() && buckets[i] == b && Map == old(Map) && fresh(Repr - old(Repr))
    {
      assert Slot(i);
      if buckets[i] != null {
        return buckets[i];
      }
      b := new Bucket<V>(level - 1);
      buckets[i] := b;
      Repr := Repr + b.Repr;
      forall j | 0 <= j < NIBBLES ensures Slot(j) {
        assert old(Slot(j));
      }
      forall j, l | 0 <= j < NIBBLES && 0 <= l < NIBBLES ensures Apart(j, l) {
        assert old(Slot(j)) && old(Slot(l)) && old(Apart(j, l));
      }
      forall k: nat | k < Keys(level) ensures Entry(k) {
        assert old(Entry(k)) && old(Slot(k % NIBBLES));
      }
    }

    /** slot j holds no part of b */
    ghost predicate Kept(b: Bucket<V>, j: nat)
      requires Shape() && j < NIBBLES
      reads this, Repr, b
    {
      buckets[j] != null ==> buckets[j] in Repr && buckets[j].Repr !! b.Repr
    }

    /** m says of key k what the bucket that has changed says, or what the map said before */
    ghost predicate Follows(key: nat, b: Bucket<V>, m: map<nat, V>, k: nat)
      requires Shape()
      reads this, Repr, b
    {
      if k % NIBBLES == key % NIBBLES then
        (k in m <==> k / NIBBLES in b.Map) && (k in m ==> m[k] == b.Map[k / NIBBLES])
      else
        Entry(k) && (k in m <==> k in Map) && (k in m ==> m[k] == Map[k])
    }

    /** brings `Map` up to date after the bucket b, in slot `key % 16`, has gained or lost a key */
    ghost method Follow(key: nat, b: Bucket<V>, m: map<nat, V>)
      requires Shape() && level > 1 && buckets[key % NIBBLES] == b
      requires b.Valid() && b.level == level - 1 && {this, buckets, values} !! b.Repr
      requires forall i {:trigger Slot(i)} :: 0 <= i < NIBBLES && i != key % NIBBLES ==> Slot(i)
      requires forall j {:trigger Kept(b, j)} :: 0 <= j < NIBBLES && j != key % NIBBLES ==> Kept(b, j)
      requires forall i, j {:trigger Apart(i, j)} ::
                 0 <= i < NIBBLES && 0 <= j < NIBBLES && i != key % NIBBLES && j != key % NIBBLES ==> Apart(i, j)
      requires forall k: nat {:trigger k in m} :: k in m ==> k < Keys(level)
      requires forall k: nat {:trigger Follows(key, b, m, k)} :: k < Keys(level) ==> Follows(key, b, m, k)
      modifies this
      ensures Valid() && Map == m && Repr == old(Repr) + b.Repr
    {
      Map := m;
      Repr := Repr + b.Repr;
      forall j | 0 <= j < NIBBLES ensures Slot(j) {
        assert j != key % NIBBLES ==> old(Slot(j));
      }
      forall j, l | 0 <= j < NIBBLES && 0 <= l < NIBBLES ensures Apart(j, l) {
        assert j != key % NIBBLES ==> old(Slot(j)) && old(Kept(b, j));
        assert l != key % NIBBLES ==> old(Slot(l)) && old(Kept(b, l));
        assert j != key % NIBBLES && l != key % NIBBLES ==> old(Apart(j, l));
      }
      forall k: nat | k < Keys(level) ensures Entry(k) {
        assert old(Follows(key, b, m, k));
        assert k % NIBBLES != key % NIBBLES ==> old(Slot(k % NIBBLES));
      }
    }

    /** writes a slot of a bucket on level 1 */
    method PutHere(key: nat, v: Option<V>)
      requires Valid() && level == 1 && key < Keys(level)
      modifies this, values
      ensures Valid() && Repr == old(Repr)
      ensures Map == if v.Some? then old(Map)[key := v.value] else old(Map) - {key}
    {
      values[key % NIBBLES] := v;
      Map := if v.Some? then Map[key := v.value] else Map - {key};
      forall j | 0 <= j < NIBBLES ensures Slot(j) {
        assert old(Slot(j));
      }
      forall j, l | 0 <= j < NIBBLES && 0 <= l < NIBBLES ensures Apart(j, l) {
        assert Slot(j) && Slot(l);
      }
      forall k: nat | k < Keys(level) ensures Entry(k) {
        assert old(Entry(k));
      }
    }

    /** Adds a value unless the key has one. */
    method Insert(key: nat, value: V) returns (ok: bool)
      requires Valid() && key < Keys(level)
      modifies Repr
      ensures Valid() && fresh(Repr - old(Repr))
      ensures ok == (key !in old(Map))
      ensures Map == if ok then old(Map)[key := value] else old(Map)
      decreases level
    {
      var i := key % NIBBLES;
      if level == 1 {
        ok := values[i].None?;
        assert Entry(key);
        if ok {
          PutHere(key, Some(value));
        }
      } else {
        var b := Child(i);
        assert Slot(i) && Entry(key);
        Below(level, key);
        ghost var m0 := Map;
        label L:
        ok := b.Insert(key / NIBBLES, value);
        forall j | 0 <= j < NIBBLES && j != i ensures Slot(j) && Kept(b, j) {
          assert old@L(Slot(j)) && old@L(Apart(i, j));
        }
        forall j, l | 0 <= j < NIBBLES && 0 <= l < NIBBLES && j != i && l != i ensures Apart(j, l) {
          assert old@L(Apart(j, l)) && old@L(Slot(j)) && old@L(Slot(l)) && old@L(Apart(i, j)) && old@L(Apart(i, l));
        }
        ghost var m := if ok then m0[key := value] else m0;
        forall k: nat | k < Keys(level) ensures Follows(key, b, m, k) {
          assert old@L(Entry(k)) && old@L(Slot(k % NIBBLES)) && old@L(Apart(i, k % NIBBLES));
        }
        Follow(key, b, m);
      }
    }

    /** Removes a key. */
    method Remove(key: nat) returns (ok: bool)
      requires Valid() && key < Keys(level)
      modifies Repr
      ensures Valid() && fresh(Repr - old(Repr))
      ensures ok == (key in old(Map)) && Map == old(Map) - {key}
      decreases level
    {
      var i := key % NIBBLES;
      assert Slot(i) && Entry(key);
      if level == 1 {
        ok := values[i].Some?;
        if ok {
          PutHere(key, None);
        }
      } else if buckets[i] == null {
        ok := false;
      } else {
        var b := buckets[i];
        Below(level, key);
        ghost var m0 := Map;
        label L:
        ok := b.Remove(key / NIBBLES);
        forall j | 0 <= j < NIBBLES && j != i ensures Slot(j) && Kept(b, j) {
          assert old@L(Slot(j)) && old@L(Apart(i, j));
        }
        forall j, l | 0 <= j < NIBBLES && 0 <= l < NIBBLES && j != i && l != i ensures Apart(j, l) {
          assert old@L(Apart(j, l)) && old@L(Slot(j)) && old@L(Slot(l)) && old@L(Apart(i, j)) && old@L(Apart(i, l));
        }
        ghost var m := m0 - {key};
        forall k: nat | k < Keys(level) ensures Follows(key, b, m, k) {
          assert old@L(Entry(k)) && old@L(Slot(k % NIBBLES)) && old@L(Apart(i, k % NIBBLES));
        }
        Follow(key, b, m);
      }
    }

    /** The value of a key, which gets the default value first if it has none. */
    method Ref(key: nat, default: V) returns (v: V)
      requires Valid() && key < Keys(level)
      modifies Repr
      ensures Valid() && fresh(Repr - old(Repr))
      ensures Map == if key in old(Map) then old(Map) else old(Map)[key := default]
      ensures v == Map[key]
      decreases level, 1
    {
      var i := key % NIBBLES;
      assert Slot(i) && Entry(key);
      if level == 1 {
        if values[i].None? {
          PutHere(key, Some(default));
        }
        assert Entry(key);
        v := values[i].value;
      } else {
        if buckets[i] == null {
          var _ := Insert(key, default);
          assert Slot(i) && Entry(key);
        }
        v := RefBelow(key, buckets[i], default);
      }
    }

    method RefBelow(key: nat, b: Bucket<V>, default: V) returns (v: V)
      requires Valid() && key < Keys(level) && level > 1 && buckets[key % NIBBLES] == b
      modifies Repr
      ensures Valid() && fresh(Repr - old(Repr))
      ensures Map == if key in old(Map) then old(Map) else old(Map)[key := default]
      ensures v == Map[key]
      decreases level, 0
    {
      var i := key % NIBBLES;
      assert Slot(i) && Entry(key);
      Below(level, key);
      ghost var m0 := Map;
      label L:
      v := b.Ref(key / NIBBLES, default);
      forall j | 0 <= j < NIBBLES && j != i ensures Slot(j) && Kept(b, j) {
        assert old@L(Slot(j)) && old@L(Apart(i, j));
      }
      forall j, l | 0 <= j < NIBBLES && 0 <= l < NIBBLES && j != i && l != i ensures Apart(j, l) {
        assert old@L(Apart(j, l)) && old@L(Slot(j)) && old@L(Slot(l)) && old@L(Apart(i, j)) && old@L(Apart(i, l));
      }
      ghost var m := if key in m0 then m0 else m0[key := default];
      forall k: nat | k < Keys(level) ensures Follows(key, b, m, k) {
        assert old@L(Entry(k)) && old@L(Slot(k % NIBBLES)) && old@L(Apart(i, k % NIBBLES));
      }
      Follow(key, b, m);
    }

    /** Stores through the reference that the subscript returns: the same way down, where the value is
        made if there is none, and then the store. */
    method Assign(key: nat, default: V, value: V)
      requires Valid() && key < Keys(level)
      modifies Repr
      ensures Valid() && fresh(Repr - old(Repr))
      ensures Map == old(Map)[key := value]
      decreases level, 1
    {
      var i := key % NIBBLES;
      assert Slot(i) && Entry(key);
      if level == 1 {
        if values[i].None? {
          PutHere(key, Some(default));
        }
        PutHere(key, Some(value));
      } else {
        if buckets[i] == null {
          var _ := Insert(key, default);
          assert Slot(i) && Entry(key);
        }
        AssignBelow(key, buckets[i], default, value);
      }
    }

    method AssignBelow(key: nat, b: Bucket<V>, default: V, value: V)
      requires Valid() && key < Keys(level) && level > 1 && buckets[key % NIBBLES] == b
      modifies Repr
      ensures Valid() && fresh(Repr - old(Repr))
      ensures Map == old(Map)[key := value]
      decreases level, 0
    {
      var i := key % NIBBLES;
      assert Slot(i) && Entry(key);
      Below(level, key);
      ghost var m0 := Map;
      label L:
      b.Assign(key / NIBBLES, default, value);
      forall j | 0 <= j < NIBBLES && j != i ensures Slot(j) && Kept(b, j) {
        assert old@L(Slot(j)) && old@L(Apart(i, j));
      }
      forall j, l | 0 <= j < NIBBLES && 0 <= l < NIBBLES && j != i && l != i ensures Apart(j, l) {
        assert old@L(Apart(j, l)) && old@L(Slot(j)) && old@L(Slot(l)) && old@L(Apart(i, j)) && old@L(Apart(i, l));
      }
      ghost var m := m0[key := value];
      forall k: nat | k < Keys(level) ensures Follows(key, b, m, k) {
        assert old@L(Entry(k)) && old@L(Slot(k % NIBBLES)) && old@L(Apart(i, k % NIBBLES));
      }
      Follow(key, b, m);
    }
  }
}
