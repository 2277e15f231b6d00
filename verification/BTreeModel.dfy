/** The tree that a page file spells out, as a value.

  A node carries the index of the page it is stored on, so that one value holds all
  three views that the file must keep consistent: the records in key order, the leaf
  pages from left to right, and the pages in use. Insertion and erasure are given here
  as functions on such values; module `BTree` shows that the page-updating methods
  compute exactly them. */
module BTreeModel {
  type Value(==, 0)

  datatype Option<+T> = None | Some(value: T)

  datatype Rec = Rec(key: int, val: Value)

  datatype Tree =
    | Leaf(idx: nat, recs: seq<Rec>)
    | Branch(idx: nat, keys: seq<int>, kids: seq<Tree>)

  // ---- the three views of a tree ------------------------------------------------

  function Recs(t: Tree): seq<Rec> {
    match t
    case Leaf(_, recs) => recs
    case Branch(_, _, kids) => RecsF(kids)
  }

  function RecsF(kids: seq<Tree>): seq<Rec> {
    if kids == [] then [] else Recs(kids[0]) + RecsF(kids[1..])
  }

  function LeafIds(t: Tree): seq<nat> {
    match t
    case Leaf(idx, _) => [idx]
    case Branch(_, _, kids) => LeafIdsF(kids)
  }

  function LeafIdsF(kids: seq<Tree>): seq<nat> {
    if kids == [] then [] else LeafIds(kids[0]) + LeafIdsF(kids[1..])
  }

  function Pages(t: Tree): multiset<nat> {
    match t
    case Leaf(idx, _) => multiset{idx}
    case Branch(idx, _, kids) => multiset{idx} + PagesF(kids)
  }

  function PagesF(kids: seq<Tree>): multiset<nat> {
    if kids == [] then multiset{} else Pages(kids[0]) + PagesF(kids[1..])
  }

  lemma {:induction false} RecsAppend(a: seq<Tree>, b: seq<Tree>)
    ensures RecsF(a + b) == RecsF(a) + RecsF(b)
  {
    if a == [] {
      assert a + b == b;
    } else {
      assert (a + b)[1..] == a[1..] + b;
      RecsAppend(a[1..], b);
    }
  }

  lemma {:induction false} LeafIdsAppend(a: seq<Tree>, b: seq<Tree>)
    ensures LeafIdsF(a + b) == LeafIdsF(a) + LeafIdsF(b)
  {
    if a == [] {
      assert a + b == b;
    } else {
      assert (a + b)[1..] == a[1..] + b;
      LeafIdsAppend(a[1..], b);
    }
  }

  lemma {:induction false} PagesAppend(a: seq<Tree>, b: seq<Tree>)
    ensures PagesF(a + b) == PagesF(a) + PagesF(b)
  {
    if a == [] {
      assert a + b == b;
    } else {
      assert (a + b)[1..] == a[1..] + b;
      PagesAppend(a[1..], b);
    }
  }

  /** A forest with the trees `mid` in place of child i; `mid == []` removes the child. */
  function Graft(kids: seq<Tree>, i: nat, mid: seq<Tree>): seq<Tree>
    requires i < |kids|
  {
    kids[..i] + mid + kids[i + 1..]
  }

  lemma RecsOne(t: Tree)
    ensures RecsF([t]) == Recs(t)
  {
    assert [t][1..] == [];
  }

  lemma RecsGraft(kids: seq<Tree>, i: nat, mid: seq<Tree>)
    requires i < |kids|
    ensures RecsF(Graft(kids, i, mid)) == RecsF(kids[..i]) + RecsF(mid) + RecsF(kids[i + 1..])
  {
    RecsAppend(kids[..i] + mid, kids[i + 1..]);
    RecsAppend(kids[..i], mid);
  }

  lemma RecsAt(kids: seq<Tree>, i: nat)
    requires i < |kids|
    ensures RecsF(kids) == RecsF(kids[..i]) + Recs(kids[i]) + RecsF(kids[i + 1..])
  {
    hide Recs, RecsF;
    assert kids == Graft(kids, i, [kids[i]]);
    RecsGraft(kids, i, [kids[i]]);
    RecsOne(kids[i]);
  }

  lemma LeafIdsOne(t: Tree)
    ensures LeafIdsF([t]) == LeafIds(t)
  {
    assert [t][1..] == [];
  }

  lemma LeafIdsGraft(kids: seq<Tree>, i: nat, mid: seq<Tree>)
    requires i < |kids|
    ensures LeafIdsF(Graft(kids, i, mid)) == LeafIdsF(kids[..i]) + LeafIdsF(mid) + LeafIdsF(kids[i + 1..])
  {
    LeafIdsAppend(kids[..i] + mid, kids[i + 1..]);
    LeafIdsAppend(kids[..i], mid);
  }

  lemma LeafIdsAt(kids: seq<Tree>, i: nat)
    requires i < |kids|
    ensures LeafIdsF(kids) == LeafIdsF(kids[..i]) + LeafIds(kids[i]) + LeafIdsF(kids[i + 1..])
  {
    hide LeafIds, LeafIdsF;
    assert kids == Graft(kids, i, [kids[i]]);
    LeafIdsGraft(kids, i, [kids[i]]);
    LeafIdsOne(kids[i]);
  }

  lemma PagesOne(t: Tree)
    ensures PagesF([t]) == Pages(t)
  {
    assert [t][1..] == [];
  }

  lemma PagesGraft(kids: seq<Tree>, i: nat, mid: seq<Tree>)
    requires i < |kids|
    ensures PagesF(Graft(kids, i, mid)) == PagesF(kids[..i]) + PagesF(mid) + PagesF(kids[i + 1..])
  {
    PagesAppend(kids[..i] + mid, kids[i + 1..]);
    PagesAppend(kids[..i], mid);
  }

  lemma PagesAt(kids: seq<Tree>, i: nat)
    requires i < |kids|
    ensures PagesF(kids) == PagesF(kids[..i]) + Pages(kids[i]) + PagesF(kids[i + 1..])
  {
    hide Pages, PagesF;
    assert kids == Graft(kids, i, [kids[i]]);
    PagesGraft(kids, i, [kids[i]]);
    PagesOne(kids[i]);
  }

  lemma ReplacedViews(kids: seq<Tree>, i: nat, n: Tree)
    requires i < |kids|
    ensures RecsF(kids[i := n]) == RecsF(kids[..i]) + Recs(n) + RecsF(kids[i + 1..])
    ensures LeafIdsF(kids[i := n]) == LeafIdsF(kids[..i]) + LeafIds(n) + LeafIdsF(kids[i + 1..])
    ensures PagesF(kids[i := n]) == PagesF(kids[..i]) + Pages(n) + PagesF(kids[i + 1..])
  {
    assert kids[i := n] == Graft(kids, i, [n]);
    RecsGraft(kids, i, [n]);
    RecsOne(n);
    LeafIdsGraft(kids, i, [n]);
    LeafIdsOne(n);
    PagesGraft(kids, i, [n]);
    PagesOne(n);
  }

  // ---- the search-tree invariant ------------------------------------------------

  /** lo <= k < hi, an absent bound being no bound */
  predicate Within(k: int, lo: Option<int>, hi: Option<int>) {
    (lo.Some? ==> lo.value <= k) && (hi.Some? ==> k < hi.value)
  }

  /** a separator lies strictly inside its node's range */
  predicate Inside(k: int, lo: Option<int>, hi: Option<int>) {
    (lo.Some? ==> lo.value < k) && (hi.Some? ==> k < hi.value)
  }

  ghost predicate Sorted(recs: seq<Rec>) {
    forall i, j :: 0 <= i < j < |recs| ==> recs[i].key < recs[j].key
  }

  ghost predicate Ascending(keys: seq<int>) {
    forall i, j :: 0 <= i < j < |keys| ==> keys[i] < keys[j]
  }

  function LoOf(keys: seq<int>, lo: Option<int>, i: nat): Option<int>
    requires i <= |keys|
  {
    if i == 0 then lo else Some(keys[i - 1])
  }

  function HiOf(keys: seq<int>, hi: Option<int>, i: nat): Option<int>
    requires i <= |keys|
  {
    if i == |keys| then hi else Some(keys[i])
  }

  /** Every leaf is exactly h levels down, and every branch has one child more than keys. */
  predicate Balanced(t: Tree, h: nat) {
    match t
    case Leaf(_, _) => h == 1
    case Branch(_, keys, kids) =>
      && h > 1
      && |kids| == |keys| + 1
      && forall i :: 0 <= i < |kids| ==> Balanced(kids[i], h - 1)
  }

  /** Leaves hold 1..ord sorted records, branches at most ord ascending separators, and
      the keys below child i lie between the separators around it. */
  ghost predicate WF(t: Tree, ord: nat, lo: Option<int>, hi: Option<int>)
    decreases t
  {
    match t
    case Leaf(_, recs) =>
      && 1 <= |recs| <= ord
      && Sorted(recs)
      && forall i :: 0 <= i < |recs| ==> Within(recs[i].key, lo, hi)
    case Branch(_, keys, kids) =>
      |keys| <= ord && ForestWF(keys, kids, ord, lo, hi)
  }

  ghost predicate ForestWF(keys: seq<int>, kids: seq<Tree>, ord: nat, lo: Option<int>, hi: Option<int>)
    decreases kids
  {
    && |kids| == |keys| + 1
    && Ascending(keys)
    && (forall i :: 0 <= i < |keys| ==> Inside(keys[i], lo, hi))
    && forall i :: 0 <= i < |kids| ==> WF(kids[i], ord, LoOf(keys, lo, i), HiOf(keys, hi, i))
  }

  lemma KidWF(t: Tree, ord: nat, lo: Option<int>, hi: Option<int>, ci: nat)
    requires WF(t, ord, lo, hi) && t.Branch? && ci < |t.kids|
    ensures |t.kids| == |t.keys| + 1 && |t.keys| <= ord && Ascending(t.keys)
    ensures WF(t.kids[ci], ord, LoOf(t.keys, lo, ci), HiOf(t.keys, hi, ci))
  {
  }

  /** All records lie in the node's range, in strictly ascending key order. */
  lemma {:induction false} RecsInRange(t: Tree, ord: nat, lo: Option<int>, hi: Option<int>)
    requires WF(t, ord, lo, hi)
    ensures Sorted(Recs(t)) && |Recs(t)| > 0
    ensures forall r :: r in Recs(t) ==> Within(r.key, lo, hi)
    decreases t, 0
  {
    match t
    case Leaf(_, recs) =>
    case Branch(_, keys, kids) => ForestInRange(keys, kids, ord, lo, hi);
  }

  lemma {:induction false} ForestInRange(keys: seq<int>, kids: seq<Tree>, ord: nat, lo: Option<int>, hi: Option<int>)
    requires ForestWF(keys, kids, ord, lo, hi)
    ensures Sorted(RecsF(kids)) && |RecsF(kids)| > 0
    ensures forall r :: r in RecsF(kids) ==> Within(r.key, lo, hi)
    decreases kids, 0
  {
    RecsInRange(kids[0], ord, lo, HiOf(keys, hi, 0));
    if |kids| == 1 {
      assert RecsF(kids[1..]) == [];
    } else {
      CutForest(keys, kids, ord, lo, hi, 0);
      ForestInRange(keys[1..], kids[1..], ord, Some(keys[0]), hi);
      var a: seq<Rec>, b: seq<Rec> := Recs(kids[0]), RecsF(kids[1..]);
      forall i: nat, j: nat | i < j < |a + b| ensures (a + b)[i].key < (a + b)[j].key {
        if i < |a| <= j {
          assert a[i] in a && b[j - |a|] in b;
        }
      }
    }
  }

  /** A forest may be cut at any separator. */
  lemma CutForest(keys: seq<int>, kids: seq<Tree>, ord: nat, lo: Option<int>, hi: Option<int>, m: nat)
    requires ForestWF(keys, kids, ord, lo, hi) && m < |keys|
    ensures ForestWF(keys[..m], kids[..m + 1], ord, lo, Some(keys[m]))
    ensures ForestWF(keys[m + 1..], kids[m + 1..], ord, Some(keys[m]), hi)
  {
    forall i | 0 <= i < m + 1
      ensures WF(kids[..m + 1][i], ord, LoOf(keys[..m], lo, i), HiOf(keys[..m], Some(keys[m]), i))
    {
      assert WF(kids[i], ord, LoOf(keys, lo, i), HiOf(keys, hi, i));
    }
    var ks, ts := keys[m + 1..], kids[m + 1..];
    forall i | 0 <= i < |ts|
      ensures WF(ts[i], ord, LoOf(ks, Some(keys[m]), i), HiOf(ks, hi, i))
    {
      assert WF(kids[m + 1 + i], ord, LoOf(keys, lo, m + 1 + i), HiOf(keys, hi, m + 1 + i));
    }
  }

  // ---- searching ------------------------------------------------------------------

  /** index of the child that must contain k: the number of leading separators not above k */
  function Slot(keys: seq<int>, k: int): (i: nat)
    ensures i <= |keys|
    ensures forall j :: 0 <= j < i ==> keys[j] <= k
    ensures i < |keys| ==> k < keys[i]
  {
    if keys == [] || k < keys[0] then 0 else 1 + Slot(keys[1..], k)
  }

  /** index of the first record whose key is not less than k */
  function Lower(recs: seq<Rec>, k: int): (i: nat)
    ensures i <= |recs|
    ensures forall j :: 0 <= j < i ==> recs[j].key < k
    ensures i < |recs| ==> k <= recs[i].key
  {
    if recs == [] || k <= recs[0].key then 0 else 1 + Lower(recs[1..], k)
  }

  predicate Hit(recs: seq<Rec>, k: int) {
    var p := Lower(recs, k);
    p < |recs| && recs[p].key == k
  }

  /** In a sorted list, the bounds of `Lower` determine the index. */
  lemma LowerUnique(recs: seq<Rec>, k: int, p: nat)
    requires Sorted(recs) && p <= |recs|
    requires forall j :: 0 <= j < p ==> recs[j].key < k
    requires p < |recs| ==> k <= recs[p].key
    ensures Lower(recs, k) == p
  {
    var _ := Lower(recs, k);
  }

  lemma SlotUnique(keys: seq<int>, k: int, p: nat)
    requires Ascending(keys) && p <= |keys|
    requires forall j :: 0 <= j < p ==> keys[j] <= k
    requires p < |keys| ==> k < keys[p]
    ensures Slot(keys, k) == p
  {
    var _ := Slot(keys, k);
  }

  ghost predicate AllBelow(recs: seq<Rec>, k: int) {
    forall i :: 0 <= i < |recs| ==> recs[i].key < k
  }

  ghost predicate AllAbove(recs: seq<Rec>, k: int) {
    forall i :: 0 <= i < |recs| ==> k < recs[i].key
  }

  lemma LowerAround(a: seq<Rec>, b: seq<Rec>, c: seq<Rec>, k: int)
    requires Sorted(b) && Sorted(a + b + c) && AllBelow(a, k) && AllAbove(c, k)
    ensures Lower(a + b + c, k) == |a| + Lower(b, k)
    ensures Hit(a + b + c, k) == Hit(b, k)
  {
    var s, p := a + b + c, |a| + Lower(b, k);
    forall j | 0 <= j < p ensures s[j].key < k {
      assert j >= |a| ==> s[j] == b[j - |a|];
    }
    LowerUnique(s, k, p);
  }

  lemma BelowBound(recs: seq<Rec>, lo: Option<int>, x: int, k: int)
    requires (forall r :: r in recs ==> Within(r.key, lo, Some(x))) && x <= k
    ensures AllBelow(recs, k)
  {
    forall i | 0 <= i < |recs| ensures recs[i].key < k {
      assert recs[i] in recs;
    }
  }

  lemma AboveBound(recs: seq<Rec>, x: int, hi: Option<int>, k: int)
    requires (forall r :: r in recs ==> Within(r.key, Some(x), hi)) && k < x
    ensures AllAbove(recs, k)
  {
    forall i | 0 <= i < |recs| ensures k < recs[i].key {
      assert recs[i] in recs;
    }
  }

  /** All the records left (right) of the child for k are below (above) k. */
  lemma SidesOfSlot(keys: seq<int>, kids: seq<Tree>, ord: nat, lo: Option<int>, hi: Option<int>, k: int)
    requires ForestWF(keys, kids, ord, lo, hi)
    ensures var ci := Slot(keys, k);
            && AllBelow(RecsF(kids[..ci]), k) && AllAbove(RecsF(kids[ci + 1..]), k)
            && (Within(k, lo, hi) ==> Within(k, LoOf(keys, lo, ci), HiOf(keys, hi, ci)))
  {
    hide AllBelow, AllAbove, Sorted, Ascending, WF, Balanced;
    var ci := Slot(keys, k);
    if ci > 0 {
      CutForest(keys, kids, ord, lo, hi, ci - 1);
      assert kids[..ci - 1 + 1] == kids[..ci];
      ForestInRange(keys[..ci - 1], kids[..ci], ord, lo, Some(keys[ci - 1]));
      BelowBound(RecsF(kids[..ci]), lo, keys[ci - 1], k);
    } else {
      BelowBound(RecsF(kids[..ci]), lo, k, k);
    }
    if ci < |keys| {
      CutForest(keys, kids, ord, lo, hi, ci);
      ForestInRange(keys[ci + 1..], kids[ci + 1..], ord, Some(keys[ci]), hi);
      AboveBound(RecsF(kids[ci + 1..]), keys[ci], hi, k);
    } else {
      AboveBound(RecsF(kids[ci + 1..]), k + 1, hi, k);
    }
  }

  /** The leaf that the descent for k reaches. */
  function LeafFor(t: Tree, h: nat, k: int): (l: Tree)
    requires Balanced(t, h)
    ensures l.Leaf?
  {
    match t
    case Leaf(_, _) => t
    case Branch(_, keys, kids) => LeafFor(kids[Slot(keys, k)], h - 1, k)
  }

  /** Looking into that one leaf finds k exactly when k is in the whole tree. */
  lemma {:induction false} DescentFinds(t: Tree, h: nat, ord: nat, lo: Option<int>, hi: Option<int>, k: int)
    requires Balanced(t, h) && WF(t, ord, lo, hi)
    ensures var l := LeafFor(t, h, k).recs;
            && Hit(Recs(t), k) == Hit(l, k)
            && Sorted(l)
            && (Hit(l, k) ==> Recs(t)[Lower(Recs(t), k)] == l[Lower(l, k)])
  {
    hide Sorted, AllBelow, AllAbove, Lower, Inside, Within;
    match t
    case Leaf(_, _) =>
    case Branch(_, keys, kids) =>
      var ci := Slot(keys, k);
      DescentFinds(kids[ci], h - 1, ord, LoOf(keys, lo, ci), HiOf(keys, hi, ci), k);
      SidesOfSlot(keys, kids, ord, lo, hi, k);
      RecsAt(kids, ci);
      RecsInRange(t, ord, lo, hi);
      RecsInRange(kids[ci], ord, LoOf(keys, lo, ci), HiOf(keys, hi, ci));
      LowerAround(RecsF(kids[..ci]), Recs(kids[ci]), RecsF(kids[ci + 1..]), k);
  }
}
