/** Erasure and overwriting as functions on trees, and what they keep.

  Erasure never merges or borrows: a node disappears only when it has become empty. */
module BTreeErase {
  import opened BTreeModel

  /** What erasing from one node yields. `node` is absent when the node became empty, and then
      its own page is still to be reclaimed; `freed` lists the pages reclaimed below it. */
  datatype Shrunk = Shrunk(erased: bool, node: Option<Tree>, freed: seq<nat>)

  function DropRec(recs: seq<Rec>, p: nat): (r: seq<Rec>)
    requires p < |recs|
    ensures |r| == |recs| - 1
    ensures forall j :: 0 <= j < p ==> r[j] == recs[j]
    ensures forall j :: p <= j < |r| ==> r[j] == recs[j + 1]
  {
    recs[..p] + recs[p + 1..]
  }

  function DropKey(keys: seq<int>, p: nat): (r: seq<int>)
    requires p < |keys|
    ensures |r| == |keys| - 1
    ensures forall j :: 0 <= j < p ==> r[j] == keys[j]
    ensures forall j :: p <= j < |r| ==> r[j] == keys[j + 1]
  {
    keys[..p] + keys[p + 1..]
  }

  function DropKid(kids: seq<Tree>, p: nat): (r: seq<Tree>)
    requires p < |kids|
    ensures |r| == |kids| - 1
    ensures forall j :: 0 <= j < p ==> r[j] == kids[j]
    ensures forall j :: p <= j < |r| ==> r[j] == kids[j + 1]
  {
    kids[..p] + kids[p + 1..]
  }

  /** the separator that goes with child ci: the one after it, or the last one for the last child */
  function KeyOf(keys: seq<int>, ci: nat): nat
    requires ci <= |keys| && |keys| > 0
  {
    if ci == |keys| then ci - 1 else ci
  }

  function ShrinkLeaf(t: Tree, k: int): Shrunk
    requires t.Leaf?
  {
    if !Hit(t.recs, k) then Shrunk(false, Some(t), [])
    else if |t.recs| == 1 then Shrunk(true, None, [])
    else Shrunk(true, Some(Leaf(t.idx, DropRec(t.recs, Lower(t.recs, k)))), [])
  }

  function ShrinkBranch(idx: nat, keys: seq<int>, kids: seq<Tree>, ci: nat, s: Shrunk): Shrunk
    requires ci < |kids| == |keys| + 1
  {
    match s.node
    case Some(n) => Shrunk(s.erased, Some(Branch(idx, keys, kids[ci := n])), s.freed)
    case None =>
      var freed := s.freed + [kids[ci].idx];
      if keys == [] then Shrunk(true, None, freed)
      else Shrunk(true, Some(Branch(idx, DropKey(keys, KeyOf(keys, ci)), DropKid(kids, ci))), freed)
  }

  function Shrink(t: Tree, h: nat, k: int): Shrunk
    requires Balanced(t, h)
    decreases t
  {
    match t
    case Leaf(_, _) => ShrinkLeaf(t, k)
    case Branch(idx, keys, kids) =>
      var ci := Slot(keys, k);
      ShrinkBranch(idx, keys, kids, ci, Shrink(kids[ci], h - 1, k))
  }

  lemma {:induction false} ShrinkMiss(t: Tree, h: nat, k: int)
    requires Balanced(t, h) && !Shrink(t, h, k).erased
    ensures Shrink(t, h, k) == Shrunk(false, Some(t), [])
  {
    if t.Branch? {
      var ci := Slot(t.keys, k);
      ShrinkMiss(t.kids[ci], h - 1, k);
      assert t.kids[ci := t.kids[ci]] == t.kids;
    }
  }

  // ---- shape and order --------------------------------------------------------------------

  lemma ShrinkBranchBalanced(t: Tree, h: nat, ci: nat, s: Shrunk)
    requires t.Branch? && Balanced(t, h) && ci < |t.kids|
    requires s.node.Some? ==> Balanced(s.node.value, h - 1)
    ensures var b := ShrinkBranch(t.idx, t.keys, t.kids, ci, s);
            b.node.Some? ==> Balanced(b.node.value, h)
  {
  }

  lemma {:induction false} ShrinkBalanced(t: Tree, h: nat, k: int)
    requires Balanced(t, h)
    ensures Shrink(t, h, k).node.Some? ==> Balanced(Shrink(t, h, k).node.value, h)
  {
    if t.Branch? {
      var ci := Slot(t.keys, k);
      ShrinkBalanced(t.kids[ci], h - 1, k);
      ShrinkBranchBalanced(t, h, ci, Shrink(t.kids[ci], h - 1, k));
    }
  }

  lemma {:induction false} Widen(t: Tree, ord: nat, lo: Option<int>, hi: Option<int>, lo': Option<int>,
                                 hi': Option<int>)
    requires WF(t, ord, lo, hi)
    requires lo'.Some? ==> lo.Some? && lo'.value <= lo.value
    requires hi'.Some? ==> hi.Some? && hi.value <= hi'.value
    ensures WF(t, ord, lo', hi')
  {
    match t
    case Leaf(_, _) =>
    case Branch(_, keys, kids) =>
      forall i | 0 <= i < |kids|
        ensures WF(kids[i], ord, LoOf(keys, lo', i), HiOf(keys, hi', i))
      {
        Widen(kids[i], ord, LoOf(keys, lo, i), HiOf(keys, hi, i), LoOf(keys, lo', i), HiOf(keys, hi', i));
      }
  }

  lemma DroppedKeys(keys: seq<int>, p: nat, lo: Option<int>, hi: Option<int>)
    requires Ascending(keys) && p < |keys|
    requires forall i :: 0 <= i < |keys| ==> Inside(keys[i], lo, hi)
    ensures Ascending(DropKey(keys, p))
    ensures forall i :: 0 <= i < |DropKey(keys, p)| ==> Inside(DropKey(keys, p)[i], lo, hi)
  {
  }

  /** The neighbour of a removed child takes over its range. */
  lemma DroppedKid(keys: seq<int>, kids: seq<Tree>, ord: nat, lo: Option<int>, hi: Option<int>, ci: nat, i: nat)
    requires ForestWF(keys, kids, ord, lo, hi) && |keys| > 0 && ci < |kids| && i < |keys|
    ensures var ks, ts := DropKey(keys, KeyOf(keys, ci)), DropKid(kids, ci);
            WF(ts[i], ord, LoOf(ks, lo, i), HiOf(ks, hi, i))
  {
    var ks := DropKey(keys, KeyOf(keys, ci));
    var j := if i < ci then i else i + 1;
    Widen(kids[j], ord, LoOf(keys, lo, j), HiOf(keys, hi, j), LoOf(ks, lo, i), HiOf(ks, hi, i));
  }

  lemma DroppedWF(keys: seq<int>, kids: seq<Tree>, ord: nat, lo: Option<int>, hi: Option<int>, ci: nat)
    requires ForestWF(keys, kids, ord, lo, hi) && |keys| > 0 && ci < |kids|
    ensures ForestWF(DropKey(keys, KeyOf(keys, ci)), DropKid(kids, ci), ord, lo, hi)
  {
    var ks, ts := DropKey(keys, KeyOf(keys, ci)), DropKid(kids, ci);
    DroppedKeys(keys, KeyOf(keys, ci), lo, hi);
    forall i | 0 <= i < |ts| ensures WF(ts[i], ord, LoOf(ks, lo, i), HiOf(ks, hi, i)) {
      DroppedKid(keys, kids, ord, lo, hi, ci, i);
    }
  }

  lemma ShrinkBranchWF(idx: nat, keys: seq<int>, kids: seq<Tree>, ord: nat, lo: Option<int>, hi: Option<int>, ci: nat,
                       s: Shrunk)
    requires ForestWF(keys, kids, ord, lo, hi) && |keys| <= ord && ci < |kids|
    requires s.node.Some? ==> WF(s.node.value, ord, LoOf(keys, lo, ci), HiOf(keys, hi, ci))
    ensures var b := ShrinkBranch(idx, keys, kids, ci, s);
            b.node.Some? ==> WF(b.node.value, ord, lo, hi)
  {
    if s.node.None? && keys != [] {
      DroppedWF(keys, kids, ord, lo, hi, ci);
    }
  }

  lemma {:induction false} ShrinkWF(t: Tree, h: nat, k: int, ord: nat, lo: Option<int>, hi: Option<int>)
    requires Balanced(t, h) && WF(t, ord, lo, hi)
    ensures Shrink(t, h, k).node.Some? ==> WF(Shrink(t, h, k).node.value, ord, lo, hi)
  {
    match t
    case Leaf(_, _) =>
    case Branch(idx, keys, kids) =>
      var ci := Slot(keys, k);
      ShrinkWF(kids[ci], h - 1, k, ord, LoOf(keys, lo, ci), HiOf(keys, hi, ci));
      ShrinkBranchWF(idx, keys, kids, ord, lo, hi, ci, Shrink(kids[ci], h - 1, k));
  }

  // ---- the records --------------------------------------------------------------------------

  function RecsS(s: Shrunk): seq<Rec> {
    if s.node.Some? then Recs(s.node.value) else []
  }

  function LeafIdsS(s: Shrunk): seq<nat> {
    if s.node.Some? then LeafIds(s.node.value) else []
  }

  function PagesS(s: Shrunk): multiset<nat> {
    if s.node.Some? then Pages(s.node.value) else multiset{}
  }

  /** The sorted list without k. */
  function Del(recs: seq<Rec>, k: int): seq<Rec> {
    if Hit(recs, k) then DropRec(recs, Lower(recs, k)) else recs
  }

  lemma DelAround(a: seq<Rec>, b: seq<Rec>, c: seq<Rec>, k: int)
    requires Sorted(b) && Sorted(a + b + c) && AllBelow(a, k) && AllAbove(c, k)
    ensures Hit(a + b + c, k) == Hit(b, k)
    ensures Del(a + b + c, k) == a + Del(b, k) + c
  {
    LowerAround(a, b, c, k);
    var s, x := Del(a + b + c, k), Del(b, k);
    if Hit(b, k) {
      forall j | 0 <= j < |s| ensures s[j] == (a + x + c)[j] {
      }
    }
  }

  lemma ShrinkBranchParts(idx: nat, keys: seq<int>, kids: seq<Tree>, ci: nat, s: Shrunk)
    requires ci < |kids| == |keys| + 1
    ensures var b := ShrinkBranch(idx, keys, kids, ci, s);
            && RecsS(b) == RecsF(kids[..ci]) + RecsS(s) + RecsF(kids[ci + 1..])
            && LeafIdsS(b) == LeafIdsF(kids[..ci]) + LeafIdsS(s) + LeafIdsF(kids[ci + 1..])
            && PagesS(b) == PagesF(kids[..ci]) + PagesS(s) + PagesF(kids[ci + 1..])
                            + (if b.node.Some? then multiset{idx} else multiset{})
  {
    match s.node
    case Some(n) =>
      ReplacedViews(kids, ci, n);
    case None =>
      assert DropKid(kids, ci) == Graft(kids, ci, []);
      RecsGraft(kids, ci, []);
      LeafIdsGraft(kids, ci, []);
      PagesGraft(kids, ci, []);
  }

  lemma ShrinkBranchRecs(idx: nat, keys: seq<int>, kids: seq<Tree>, ord: nat, lo: Option<int>, hi: Option<int>,
                         k: int, s: Shrunk)
    requires ForestWF(keys, kids, ord, lo, hi)
    requires var b := Recs(kids[Slot(keys, k)]);
             Sorted(b) && s.erased == Hit(b, k) && RecsS(s) == Del(b, k) && (s.node.None? ==> s.erased)
    ensures ShrinkBranch(idx, keys, kids, Slot(keys, k), s).erased == Hit(RecsF(kids), k)
    ensures RecsS(ShrinkBranch(idx, keys, kids, Slot(keys, k), s)) == Del(RecsF(kids), k)
  {
    var ci := Slot(keys, k);
    var a, b, c := RecsF(kids[..ci]), Recs(kids[ci]), RecsF(kids[ci + 1..]);
    ShrinkBranchParts(idx, keys, kids, ci, s);
    RecsAt(kids, ci);
    assert Sorted(a + b + c) && AllBelow(a, k) && AllAbove(c, k) by {
      SidesOfSlot(keys, kids, ord, lo, hi, k);
      ForestInRange(keys, kids, ord, lo, hi);
    }
    DelAround(a, b, c, k);
  }

  /** Erasure from the tree is erasure from its sorted record list. */
  lemma {:induction false} ShrinkRecs(t: Tree, h: nat, k: int, ord: nat, lo: Option<int>, hi: Option<int>)
    requires Balanced(t, h) && WF(t, ord, lo, hi)
    ensures Shrink(t, h, k).erased == Hit(Recs(t), k) && (Shrink(t, h, k).node.None? ==> Shrink(t, h, k).erased)
    ensures RecsS(Shrink(t, h, k)) == Del(Recs(t), k)
  {
    hide ForestWF, Sorted, Ascending, Within, Lower, RecsF;
    match t
    case Leaf(_, _) =>
    case Branch(idx, keys, kids) =>
      var ci := Slot(keys, k);
      KidWF(t, ord, lo, hi, ci);
      ShrinkRecs(kids[ci], h - 1, k, ord, LoOf(keys, lo, ci), HiOf(keys, hi, ci));
      RecsInRange(kids[ci], ord, LoOf(keys, lo, ci), HiOf(keys, hi, ci));
      ShrinkBranchRecs(idx, keys, kids, ord, lo, hi, k, Shrink(kids[ci], h - 1, k));
  }

  // ---- the pages ------------------------------------------------------------------------------

  lemma ShrinkBranchPages(idx: nat, keys: seq<int>, kids: seq<Tree>, ci: nat, s: Shrunk)
    requires ci < |kids| == |keys| + 1
    requires PagesS(s) + multiset(s.freed) +
             (if s.node.None? then multiset{kids[ci].idx} else multiset{}) == Pages(kids[ci])
    ensures var b := ShrinkBranch(idx, keys, kids, ci, s);
            PagesS(b) + multiset(b.freed) + (if b.node.None? then multiset{idx} else multiset{})
            == multiset{idx} + PagesF(kids)
  {
    ShrinkBranchParts(idx, keys, kids, ci, s);
    PagesAt(kids, ci);
  }

  /** Erasure loses no page: each is still in use, or reclaimed, or the emptied node's own. */
  lemma {:induction false} ShrinkPages(t: Tree, h: nat, k: int, ord: nat, lo: Option<int>, hi: Option<int>)
    requires Balanced(t, h) && WF(t, ord, lo, hi)
    ensures var s := Shrink(t, h, k);
            PagesS(s) + multiset(s.freed) + (if s.node.None? then multiset{t.idx} else multiset{}) == Pages(t)
  {
    match t
    case Leaf(_, _) =>
    case Branch(idx, keys, kids) =>
      var ci := Slot(keys, k);
      ShrinkPages(kids[ci], h - 1, k, ord, LoOf(keys, lo, ci), HiOf(keys, hi, ci));
      ShrinkBranchPages(idx, keys, kids, ci, Shrink(kids[ci], h - 1, k));
  }

  // ---- collapsing a chain of single-child roots -------------------------------------------------

  function Collapse(t: Tree): Tree {
    if t.Branch? && t.keys == [] && |t.kids| == 1 then Collapse(t.kids[0]) else t
  }

  /** the root pages dropped on the way, topmost first */
  function Dropped(t: Tree): seq<nat> {
    if t.Branch? && t.keys == [] && |t.kids| == 1 then [t.idx] + Dropped(t.kids[0]) else []
  }

  lemma OneKid(t: Tree, ord: nat, h: nat)
    requires Balanced(t, h) && WF(t, ord, None, None) && t.Branch? && t.keys == []
    ensures t.kids == [t.kids[0]] && Balanced(t.kids[0], h - 1) && WF(t.kids[0], ord, None, None)
    ensures LeafIds(t) == LeafIds(t.kids[0]) && Recs(t) == Recs(t.kids[0])
    ensures Pages(t) == multiset{t.idx} + Pages(t.kids[0])
    ensures Collapse(t) == Collapse(t.kids[0]) && Dropped(t) == [t.idx] + Dropped(t.kids[0])
  {
    KidWF(t, ord, None, None, 0);
    var kid := t.kids[0];
    assert t.kids == [kid];
    RecsOne(kid);
    LeafIdsOne(kid);
    PagesOne(kid);
  }

  lemma NotOneKid(t: Tree, h: nat)
    requires Balanced(t, h) && (t.Branch? ==> t.keys != [])
    ensures h >= 1 && Collapse(t) == t && Dropped(t) == []
  {
  }

  lemma {:induction false} CollapseKeeps(t: Tree, h: nat, ord: nat)
    requires Balanced(t, h) && WF(t, ord, None, None)
    ensures var c := Collapse(t);
            && |Dropped(t)| < h && Balanced(c, h - |Dropped(t)|) && WF(c, ord, None, None)
            && (c.Branch? ==> c.keys != [])
            && Recs(c) == Recs(t) && LeafIds(c) == LeafIds(t)
            && Pages(c) + multiset(Dropped(t)) == Pages(t)
  {
    hide *;
    if t.Branch? && t.keys == [] {
      OneKid(t, ord, h);
      CollapseKeeps(t.kids[0], h - 1, ord);
      assert multiset([t.idx] + Dropped(t.kids[0])) == multiset{t.idx} + multiset(Dropped(t.kids[0]));
    } else {
      NotOneKid(t, h);
    }
  }

  // ---- overwriting a value ------------------------------------------------------------------------

  function SetLeaf(t: Tree, k: int, v: Value): Tree
    requires t.Leaf?
  {
    if Hit(t.recs, k) then Leaf(t.idx, SetRec(t.recs, k, v)) else t
  }

  function SetRec(recs: seq<Rec>, k: int, v: Value): seq<Rec> {
    if Hit(recs, k) then recs[Lower(recs, k) := Rec(k, v)] else recs
  }

  function Assign(t: Tree, h: nat, k: int, v: Value): Tree
    requires Balanced(t, h)
    decreases t
  {
    match t
    case Leaf(_, _) => SetLeaf(t, k, v)
    case Branch(idx, keys, kids) =>
      var ci := Slot(keys, k);
      Branch(idx, keys, kids[ci := Assign(kids[ci], h - 1, k, v)])
  }

  lemma SetLeafWF(t: Tree, k: int, v: Value, ord: nat, lo: Option<int>, hi: Option<int>)
    requires t.Leaf? && WF(t, ord, lo, hi)
    ensures WF(SetLeaf(t, k, v), ord, lo, hi)
  {
  }

  lemma {:induction false} AssignWF(t: Tree, h: nat, k: int, v: Value, ord: nat, lo: Option<int>, hi: Option<int>)
    requires Balanced(t, h) && WF(t, ord, lo, hi)
    ensures Balanced(Assign(t, h, k, v), h) && WF(Assign(t, h, k, v), ord, lo, hi)
  {
    match t
    case Leaf(_, _) => SetLeafWF(t, k, v, ord, lo, hi);
    case Branch(idx, keys, kids) =>
      var ci := Slot(keys, k);
      AssignWF(kids[ci], h - 1, k, v, ord, LoOf(keys, lo, ci), HiOf(keys, hi, ci));
      var s := Shrunk(true, Some(Assign(kids[ci], h - 1, k, v)), []);
      ShrinkBranchWF(idx, keys, kids, ord, lo, hi, ci, s);
      ShrinkBranchBalanced(t, h, ci, s);
  }

  lemma SetAround(a: seq<Rec>, b: seq<Rec>, c: seq<Rec>, k: int, v: Value)
    requires Sorted(b) && Sorted(a + b + c) && AllBelow(a, k) && AllAbove(c, k)
    ensures SetRec(a + b + c, k, v) == a + SetRec(b, k, v) + c
  {
    hide Sorted, AllBelow, AllAbove, Lower;
    LowerAround(a, b, c, k);
    var s, x := SetRec(a + b + c, k, v), SetRec(b, k, v);
    if Hit(b, k) {
      forall j | 0 <= j < |s| ensures s[j] == (a + x + c)[j] {
      }
    }
  }

  /** Overwriting touches one record and moves no page. */
  lemma {:induction false} AssignViews(t: Tree, h: nat, k: int, v: Value, ord: nat, lo: Option<int>, hi: Option<int>)
    requires Balanced(t, h) && WF(t, ord, lo, hi)
    ensures Recs(Assign(t, h, k, v)) == SetRec(Recs(t), k, v)
    ensures LeafIds(Assign(t, h, k, v)) == LeafIds(t) && Pages(Assign(t, h, k, v)) == Pages(t)
  {
    if t.Branch? {
      var ci := Slot(t.keys, k);
      AssignViews(t.kids[ci], h - 1, k, v, ord, LoOf(t.keys, lo, ci), HiOf(t.keys, hi, ci));
      RecsInRange(t.kids[ci], ord, LoOf(t.keys, lo, ci), HiOf(t.keys, hi, ci));
      AssignKid(t.keys, t.kids, k, v, ord, lo, hi, Assign(t.kids[ci], h - 1, k, v));
      SamePlace(t.kids, ci, Assign(t.kids[ci], h - 1, k, v));
    }
  }

  lemma AssignKid(keys: seq<int>, kids: seq<Tree>, k: int, v: Value, ord: nat, lo: Option<int>, hi: Option<int>,
                  n: Tree)
    requires ForestWF(keys, kids, ord, lo, hi)
    requires Sorted(Recs(kids[Slot(keys, k)])) && Recs(n) == SetRec(Recs(kids[Slot(keys, k)]), k, v)
    ensures RecsF(kids[Slot(keys, k) := n]) == SetRec(RecsF(kids), k, v)
  {
    var ci := Slot(keys, k);
    var a, b, c := RecsF(kids[..ci]), Recs(kids[ci]), RecsF(kids[ci + 1..]);
    ReplacedViews(kids, ci, n);
    RecsAt(kids, ci);
    assert Sorted(a + b + c) && AllBelow(a, k) && AllAbove(c, k) by {
      SidesOfSlot(keys, kids, ord, lo, hi, k);
      ForestInRange(keys, kids, ord, lo, hi);
    }
    SetAround(a, b, c, k, v);
  }

  lemma SamePlace(kids: seq<Tree>, ci: nat, n: Tree)
    requires ci < |kids| && LeafIds(n) == LeafIds(kids[ci]) && Pages(n) == Pages(kids[ci])
    ensures LeafIdsF(kids[ci := n]) == LeafIdsF(kids) && PagesF(kids[ci := n]) == PagesF(kids)
  {
    ReplacedViews(kids, ci, n);
    LeafIdsAt(kids, ci);
    PagesAt(kids, ci);
  }
}
