/** The finite map that a tree stands for, and how full an insert-only tree must be. */
module BTreeMap {
  import opened BTreeModel
  import opened BTreeInsert
  import opened BTreeErase

  // ---- a sorted record list is a map ----------------------------------------------------------

  function ToMap(recs: seq<Rec>): map<int, Value> {
    if recs == [] then map[] else ToMap(recs[1..])[recs[0].key := recs[0].val]
  }

  lemma {:induction false} InMap(recs: seq<Rec>, k: int)
    requires Sorted(recs)
    ensures k in ToMap(recs) <==> Hit(recs, k)
    ensures Hit(recs, k) ==> ToMap(recs)[k] == recs[Lower(recs, k)].val
  {
    if recs != [] {
      InMap(recs[1..], k);
    }
  }

  lemma {:induction false} MapSize(recs: seq<Rec>)
    requires Sorted(recs)
    ensures |ToMap(recs)| == |recs|
  {
    if recs != [] {
      MapSize(recs[1..]);
      InMap(recs[1..], recs[0].key);
    }
  }

  lemma {:induction false} PutNewMap(recs: seq<Rec>, k: int, v: Value)
    requires Sorted(recs)
    ensures ToMap(PutNew(recs, k, v)) == if k in ToMap(recs) then ToMap(recs) else ToMap(recs)[k := v]
  {
    InMap(recs, k);
    if recs == [] {
      assert PutNew(recs, k, v) == [Rec(k, v)];
    } else if !Hit(recs, k) {
      var s := InsertRec(recs, k, v);
      if k < recs[0].key {
        assert s[1..] == recs;
      } else {
        assert s[1..] == InsertRec(recs[1..], k, v);
        PutNewMap(recs[1..], k, v);
        InMap(recs[1..], k);
      }
    }
  }

  lemma DelTail(recs: seq<Rec>, k: int)
    requires recs != [] && recs[0].key < k
    ensures Hit(recs[1..], k) == Hit(recs, k)
    ensures Del(recs, k) == [recs[0]] + Del(recs[1..], k)
  {
  }

  lemma {:induction false} DelMap(recs: seq<Rec>, k: int)
    requires Sorted(recs)
    ensures ToMap(Del(recs, k)) == ToMap(recs) - {k}
  {
    InMap(recs, k);
    if !Hit(recs, k) {
      assert ToMap(recs) - {k} == ToMap(recs);
    } else if k == recs[0].key {
      assert Del(recs, k) == recs[1..];
      InMap(recs[1..], k);
      assert ToMap(recs[1..])[k := recs[0].val] - {k} == ToMap(recs[1..]);
    } else {
      DelTail(recs, k);
      DelMap(recs[1..], k);
      var m, d := ToMap(recs[1..]), Del(recs, k);
      assert d[0] == recs[0] && d[1..] == Del(recs[1..], k);
      MinusUpdate(m, k, recs[0].key, recs[0].val);
    }
  }

  lemma MinusUpdate(m: map<int, Value>, k: int, x: int, v: Value)
    requires k != x
    ensures (m - {k})[x := v] == m[x := v] - {k}
  {
  }

  lemma SetHead(recs: seq<Rec>, v: Value)
    requires recs != []
    ensures Hit(recs, recs[0].key) && SetRec(recs, recs[0].key, v) == [Rec(recs[0].key, v)] + recs[1..]
  {
  }

  lemma SetTail(recs: seq<Rec>, k: int, v: Value)
    requires Sorted(recs) && recs != [] && Hit(recs, k) && recs[0].key != k
    ensures Hit(recs[1..], k) && SetRec(recs, k, v) == [recs[0]] + SetRec(recs[1..], k, v)
  {
    hide Sorted;
    var p, r := Lower(recs, k), Rec(k, v);
    assert p == 1 + Lower(recs[1..], k);
    assert recs[p := r] == [recs[0]] + recs[1..][p - 1 := r];
  }

  lemma UpdateSwap(m: map<int, Value>, k: int, v: Value, x: int, w: Value)
    requires k != x
    ensures m[k := v][x := w] == m[x := w][k := v]
  {
  }

  lemma ToMapCons(r: Rec, recs: seq<Rec>)
    ensures ToMap([r] + recs) == ToMap(recs)[r.key := r.val]
  {
    assert ([r] + recs)[1..] == recs;
  }

  lemma {:induction false} SetRecMap(recs: seq<Rec>, k: int, v: Value)
    requires Sorted(recs)
    ensures ToMap(SetRec(recs, k, v)) == if k in ToMap(recs) then ToMap(recs)[k := v] else ToMap(recs)
  {
    hide ToMap, SetRec, Hit, Lower;
    InMap(recs, k);
    if Hit(recs, k) {
      HitSome(recs, k);
      var r, rest := recs[0], recs[1..];
      ToMapCons(r, rest);
      assert recs == [r] + rest;
      if k == r.key {
        SetHead(recs, v);
        ToMapCons(Rec(k, v), rest);
      } else {
        SetTail(recs, k, v);
        SetRecMap(rest, k, v);
        InMap(rest, k);
        ToMapCons(r, SetRec(rest, k, v));
        UpdateSwap(ToMap(rest), k, v, r.key, r.val);
      }
    } else {
      MissSame(recs, k, v);
    }
  }

  lemma HitSome(recs: seq<Rec>, k: int)
    requires Hit(recs, k)
    ensures recs != []
  {
  }

  lemma MissSame(recs: seq<Rec>, k: int, v: Value)
    requires !Hit(recs, k)
    ensures SetRec(recs, k, v) == recs
  {
  }
}
