/** The tree with its root: what each public modifier does to it, over whole runs. */
module BTreeRoot {
  import opened BTreeModel
  import opened BTreeInsert
  import opened BTreeErase
  import opened BTreeMap

  /** h is the number of levels, as recorded in the file header */
  datatype Root = NoRoot | Root(t: Tree, h: nat)

  function RecsR(r: Root): seq<Rec> {
    if r.NoRoot? then [] else Recs(r.t)
  }

  function LeafIdsR(r: Root): seq<nat> {
    if r.NoRoot? then [] else LeafIds(r.t)
  }

  function PagesR(r: Root): multiset<nat> {
    if r.NoRoot? then multiset{} else Pages(r.t)
  }

  function Contents(r: Root): map<int, Value> {
    ToMap(RecsR(r))
  }

  /** a root branch has at least two children */
  ghost predicate ValidRoot(ord: nat, r: Root) {
    r.Root? ==>
      && Balanced(r.t, r.h) && WF(r.t, ord, None, None)
      && (r.t.Branch? ==> r.t.keys != [])
  }

  /** ids: the pages taken for the new nodes, lowest level first */
  function Inserted(ord: nat, r: Root, k: int, v: Value, ids: seq<nat>): Root
    requires 2 <= ord && (r.Root? ==> Balanced(r.t, r.h))
  {
    match r
    case NoRoot => Root(Leaf(PageFor(ids, 1), [Rec(k, v)]), 1)
    case Root(t, h) => Rooted(Grow(ord, t, h, k, v, ids), h, PageFor(ids, h + 1))
  }

  /** a root that split gets a new root above it */
  function Rooted(g: Grown, h: nat, idx: nat): Root {
    match g.split
    case None => Root(g.node, h)
    case Some((sep, right)) => Root(Branch(idx, [sep], [g.node, right]), h + 1)
  }

  /** the number of pages that takes */
  function Needed(ord: nat, r: Root, k: int): nat
    requires r.Root? ==> Balanced(r.t, r.h)
  {
    match r
    case NoRoot => 1
    case Root(t, h) => var s := Splits(ord, t, h, k); if s == h then h + 1 else s
  }

  function Erased(r: Root, k: int): Root
    requires r.Root? ==> Balanced(r.t, r.h)
  {
    match r
    case NoRoot => NoRoot
    case Root(t, h) =>
      var s := Shrink(t, h, k);
      if !s.erased then r
      else
        match s.node
        case None => NoRoot
        case Some(n) => Root(Collapse(n), if |Dropped(n)| <= h then h - |Dropped(n)| else 0)
  }

  /** the pages reclaimed, in order */
  function Reclaimed(r: Root, k: int): seq<nat>
    requires r.Root? ==> Balanced(r.t, r.h)
  {
    match r
    case NoRoot => []
    case Root(t, h) =>
      var s := Shrink(t, h, k);
      if !s.erased then []
      else
        match s.node
        case None => s.freed + [t.idx]
        case Some(n) => s.freed + Dropped(n)
  }

  function Assigned(r: Root, k: int, v: Value): Root
    requires r.Root? ==> Balanced(r.t, r.h)
  {
    if r.NoRoot? then r else Root(Assign(r.t, r.h, k, v), r.h)
  }

  // ---- each modifier keeps the search tree and acts on the map ------------------------------------

  lemma RootSorted(ord: nat, r: Root)
    requires ValidRoot(ord, r)
    ensures Sorted(RecsR(r)) && |Contents(r)| == |RecsR(r)|
    ensures r.Root? ==> |RecsR(r)| > 0
  {
    if r.Root? {
      RecsInRange(r.t, ord, None, None);
    }
    MapSize(RecsR(r));
  }

  lemma NewRootWF(ord: nat, idx: nat, l: Tree, sep: int, r: Tree)
    requires 2 <= ord && GrownWF(Grown(true, l, Some((sep, r))), ord, None, None)
    ensures WF(Branch(idx, [sep], [l, r]), ord, None, None)
  {
    var keys, kids := [sep], [l, r];
    assert WF(kids[0], ord, LoOf(keys, None, 0), HiOf(keys, None, 0));
    assert WF(kids[1], ord, LoOf(keys, None, 1), HiOf(keys, None, 1));
  }

  lemma RootedValid(ord: nat, g: Grown, h: nat, idx: nat)
    requires 2 <= ord && h >= 1 && GrownBalanced(g, h) && GrownWF(g, ord, None, None)
    requires g.split.None? && g.node.Branch? ==> g.node.keys != []
    ensures ValidRoot(ord, Rooted(g, h, idx))
  {
    hide WF;
    if g.split.Some? {
      NewRootWF(ord, idx, g.node, g.split.value.0, g.split.value.1);
    }
  }

  /** Insertion keeps the search-tree invariant. */
  lemma InsertedValid(ord: nat, r: Root, k: int, v: Value, ids: seq<nat>)
    requires 2 <= ord && ValidRoot(ord, r)
    ensures ValidRoot(ord, Inserted(ord, r, k, v, ids))
  {
    hide Grow, GrownBalanced, GrownWF, WF, Rooted;
    if r.Root? {
      var g := Grow(ord, r.t, r.h, k, v, ids);
      GrowBalanced(ord, r.t, r.h, k, v, ids);
      GrowWF(ord, r.t, r.h, k, v, ids, None, None);
      if g.split.None? {
        GrowKeepsKeys(ord, r.t, r.h, k, v, ids);
      }
      RootedValid(ord, g, r.h, PageFor(ids, r.h + 1));
    } else {
      FirstLeafValid(ord, PageFor(ids, 1), k, v);
    }
  }

  lemma FirstLeafValid(ord: nat, idx: nat, k: int, v: Value)
    requires 2 <= ord
    ensures ValidRoot(ord, Root(Leaf(idx, [Rec(k, v)]), 1))
  {
  }

  lemma GrowKeepsKeys(ord: nat, t: Tree, h: nat, k: int, v: Value, ids: seq<nat>)
    requires 2 <= ord && Balanced(t, h) && Grow(ord, t, h, k, v, ids).split.None?
    requires t.Branch? ==> t.keys != []
    ensures var n := Grow(ord, t, h, k, v, ids).node; n.Branch? ==> n.keys != []
  {
  }

  /** A new key is added; an existing one changes nothing. */
  lemma InsertedContents(ord: nat, r: Root, k: int, v: Value, ids: seq<nat>)
    requires 2 <= ord && ValidRoot(ord, r)
    ensures Contents(Inserted(ord, r, k, v, ids)) == if k in Contents(r) then Contents(r) else Contents(r)[k := v]
    ensures r.Root? ==> Grow(ord, r.t, r.h, k, v, ids).inserted == (k !in Contents(r))
    ensures RecsR(Inserted(ord, r, k, v, ids)) == PutNew(RecsR(r), k, v)
    ensures LeafIdsR(Inserted(ord, r, k, v, ids)) ==
            if r.Root? then LeafIdsG(Grow(ord, r.t, r.h, k, v, ids)) else [PageFor(ids, 1)]
  {
    hide Grow, WF, Balanced, Sorted, Hit, Lower, ToMap, PutNew, Recs, RecsG, LeafIds, LeafIdsG, Rooted;
    match r
    case NoRoot => FirstContents(PageFor(ids, 1), k, v);
    case Root(t, h) =>
      RootSorted(ord, r);
      InsertedRecs(ord, t, h, k, v, ids);
      PutNewMap(Recs(t), k, v);
      InMap(Recs(t), k);
      RootedViews(Grow(ord, t, h, k, v, ids), h, PageFor(ids, h + 1));
  }

  lemma InsertedRecs(ord: nat, t: Tree, h: nat, k: int, v: Value, ids: seq<nat>)
    requires 2 <= ord && Balanced(t, h) && WF(t, ord, None, None)
    ensures RecsG(Grow(ord, t, h, k, v, ids)) == PutNew(Recs(t), k, v)
    ensures Grow(ord, t, h, k, v, ids).inserted == !Hit(Recs(t), k)
  {
    hide Grow, WF, Balanced, RecsG, PutNew, Hit, Lower, Sorted;
    GrowRecs(ord, t, h, k, v, ids, None, None);
  }

  lemma FirstContents(idx: nat, k: int, v: Value)
    ensures RecsR(Root(Leaf(idx, [Rec(k, v)]), 1)) == [Rec(k, v)] && LeafIdsR(Root(Leaf(idx, [Rec(k, v)]), 1)) == [idx]
    ensures ToMap([Rec(k, v)]) == ToMap([])[k := v] && k !in ToMap([])
    ensures PutNew([], k, v) == [Rec(k, v)]
  {
    assert [Rec(k, v)][1..] == [];
  }

  lemma RootedViews(g: Grown, h: nat, idx: nat)
    ensures RecsR(Rooted(g, h, idx)) == RecsG(g) && LeafIdsR(Rooted(g, h, idx)) == LeafIdsG(g)
  {
    ViewsBoth(g);
  }

  lemma RootedPages(g: Grown, h: nat, idx: nat)
    ensures PagesR(Rooted(g, h, idx)) == PagesG(g) + (if g.split.Some? then multiset{idx} else multiset{})
  {
    ViewsBoth(g);
    if g.split.Some? {
      assert [g.node, g.split.value.1] == Both(g);
    }
  }

  lemma TakeMore(ids: seq<nat>, s: nat, n: nat)
    requires s <= n == |ids| <= s + 1
    ensures multiset(ids) == multiset(ids[..s]) + (if n > s then multiset{ids[s]} else multiset{})
  {
    assert ids == ids[..s] + (if n > s then [ids[s]] else []);
  }

  /** Every page taken is used by the new tree, beside all the old ones. */
  lemma InsertedPages(ord: nat, r: Root, k: int, v: Value, ids: seq<nat>)
    requires 2 <= ord && ValidRoot(ord, r) && |ids| == Needed(ord, r, k)
    ensures PagesR(Inserted(ord, r, k, v, ids)) == PagesR(r) + multiset(ids)
  {
    hide Grow, Splits, WF, PagesG;
    match r
    case NoRoot => assert ids == [ids[0]];
    case Root(t, h) =>
      var s := Splits(ord, t, h, k);
      SplitsUpward(ord, t, h, k, v, ids);
      GrowPages(ord, t, h, k, v, ids, None, None);
      RootedPages(Grow(ord, t, h, k, v, ids), h, PageFor(ids, h + 1));
      TakeMore(ids, s, |ids|);
  }

  /** Erasure keeps the search-tree invariant, removes exactly k, and accounts for every page. */
  lemma ErasedKeeps(ord: nat, r: Root, k: int)
    requires ValidRoot(ord, r)
    ensures ValidRoot(ord, Erased(r, k))
    ensures Contents(Erased(r, k)) == Contents(r) - {k}
    ensures r.Root? ==> Shrink(r.t, r.h, k).erased == (k in Contents(r))
    ensures PagesR(Erased(r, k)) + multiset(Reclaimed(r, k)) == PagesR(r)
  {
    hide Shrink, WF, Pages, Recs, Del, Hit;
    if r.Root? {
      ErasedValid(ord, r, k);
      ErasedRecs(ord, r, k);
      ErasedPages(ord, r, k);
      RootSorted(ord, r);
      DelMap(Recs(r.t), k);
      InMap(Recs(r.t), k);
    }
  }

  lemma ErasedValid(ord: nat, r: Root, k: int)
    requires ValidRoot(ord, r)
    ensures ValidRoot(ord, Erased(r, k))
  {
    hide Shrink, WF, Pages, Recs, LeafIds;
    if r.Root? {
      ShrinkBalanced(r.t, r.h, k);
      ShrinkWF(r.t, r.h, k, ord, None, None);
      var s := Shrink(r.t, r.h, k);
      if s.node.Some? {
        CollapseKeeps(s.node.value, r.h, ord);
      }
    }
  }

  lemma ErasedRecs(ord: nat, r: Root, k: int)
    requires ValidRoot(ord, r) && r.Root?
    ensures RecsR(Erased(r, k)) == Del(RecsR(r), k)
    ensures LeafIdsR(Erased(r, k)) == LeafIdsS(Shrink(r.t, r.h, k))
    ensures Shrink(r.t, r.h, k).erased == Hit(RecsR(r), k)
  {
    hide Shrink, WF, Pages, Recs, LeafIds, Hit, Lower;
    var s := Shrink(r.t, r.h, k);
    ShrinkBalanced(r.t, r.h, k);
    ShrinkWF(r.t, r.h, k, ord, None, None);
    ShrinkRecs(r.t, r.h, k, ord, None, None);
    if !s.erased {
      ShrinkMiss(r.t, r.h, k);
    } else if s.node.Some? {
      CollapseKeeps(s.node.value, r.h, ord);
    }
  }

  lemma ErasedPages(ord: nat, r: Root, k: int)
    requires ValidRoot(ord, r) && r.Root?
    ensures PagesR(Erased(r, k)) + multiset(Reclaimed(r, k)) == PagesR(r)
  {
    hide Shrink, WF, Pages, Recs, LeafIds;
    var s := Shrink(r.t, r.h, k);
    ShrinkBalanced(r.t, r.h, k);
    ShrinkWF(r.t, r.h, k, ord, None, None);
    ShrinkPages(r.t, r.h, k, ord, None, None);
    if !s.erased {
      ShrinkMiss(r.t, r.h, k);
    } else if s.node.Some? {
      CollapseKeeps(s.node.value, r.h, ord);
    }
  }

  lemma AssignedKeeps(ord: nat, r: Root, k: int, v: Value)
    requires ValidRoot(ord, r)
    ensures ValidRoot(ord, Assigned(r, k, v))
    ensures Contents(Assigned(r, k, v)) == if k in Contents(r) then Contents(r)[k := v] else Contents(r)
    ensures LeafIdsR(Assigned(r, k, v)) == LeafIdsR(r) && PagesR(Assigned(r, k, v)) == PagesR(r)
  {
    if r.Root? {
      AssignWF(r.t, r.h, k, v, ord, None, None);
      AssignViews(r.t, r.h, k, v, ord, None, None);
      RootSorted(ord, r);
      SetRecMap(Recs(r.t), k, v);
    }
  }

  // ---- how full an insert-only tree is ----------------------------------------------------------------

  /** every node holds at least m records or separators */
  predicate Dense(t: Tree, m: nat)
    decreases t, 1
  {
    Fill(t) >= m && DenseKids(t, m)
  }

  predicate DenseKids(t: Tree, m: nat)
    decreases t, 0
  {
    t.Branch? ==> forall i :: 0 <= i < |t.kids| ==> Dense(t.kids[i], m)
  }

  function Fill(t: Tree): nat {
    if t.Leaf? then |t.recs| else |t.keys|
  }

  ghost predicate GrownDense(g: Grown, fill: nat, m: nat) {
    match g.split
    case None => Fill(g.node) >= fill && DenseKids(g.node, m)
    case Some((_, right)) => Dense(g.node, m) && Dense(right, m)
  }

  lemma GrowBranchDense(ord: nat, t: Tree, ci: nat, g: Grown, r: nat)
    requires t.Branch? && ci < |t.kids| == |t.keys| + 1 && 2 <= ord && |t.keys| <= ord
    requires DenseKids(t, ord / 2) && GrownDense(g, Fill(t.kids[ci]), ord / 2)
    ensures GrownDense(GrowBranch(ord, t.idx, t.keys, t.kids, ci, g, r), |t.keys|, ord / 2)
  {
    if g.split.Some? {
      SplicedDense(t.kids, ci, g.node, g.split.value.1, ord / 2);
    }
  }

  lemma SplicedDense(kids: seq<Tree>, ci: nat, l: Tree, r: Tree, m: nat)
    requires ci < |kids| && Dense(l, m) && Dense(r, m) && forall i :: 0 <= i < |kids| ==> Dense(kids[i], m)
    ensures forall i :: 0 <= i < |Spliced(kids, ci, l, r)| ==> Dense(Spliced(kids, ci, l, r)[i], m)
  {
    hide Dense;
  }

  lemma {:induction false} GrowDense(ord: nat, t: Tree, h: nat, k: int, v: Value, ids: seq<nat>, lo: Option<int>,
                                     hi: Option<int>)
    requires 2 <= ord && Balanced(t, h) && WF(t, ord, lo, hi) && DenseKids(t, ord / 2)
    ensures GrownDense(Grow(ord, t, h, k, v, ids), Fill(t), ord / 2)
  {
    if t.Branch? {
      var ci := Slot(t.keys, k);
      GrowDense(ord, t.kids[ci], h - 1, k, v, ids, LoOf(t.keys, lo, ci), HiOf(t.keys, hi, ci));
      GrowBranchDense(ord, t, ci, Grow(ord, t.kids[ci], h - 1, k, v, ids), PageFor(ids, h));
    }
  }

  /** what insertions alone keep: only the root may be thinner than half full */
  predicate DenseRoot(ord: nat, r: Root) {
    r.Root? ==> DenseKids(r.t, ord / 2)
  }

  lemma InsertedDense(ord: nat, r: Root, k: int, v: Value, ids: seq<nat>)
    requires 2 <= ord && ValidRoot(ord, r) && DenseRoot(ord, r)
    ensures DenseRoot(ord, Inserted(ord, r, k, v, ids))
  {
    if r.Root? {
      GrowDense(ord, r.t, r.h, k, v, ids, None, None);
    }
  }

  lemma NoRootDense(ord: nat)
    requires 2 <= ord
    ensures DenseRoot(ord, NoRoot)
  {
  }

  function Pow(b: nat, e: nat): nat {
    if e == 0 then 1 else b * Pow(b, e - 1)
  }

  lemma {:induction false} ForestSize(kids: seq<Tree>, c: nat)
    requires forall i :: 0 <= i < |kids| ==> |Recs(kids[i])| >= c
    ensures |RecsF(kids)| >= |kids| * c
  {
    if kids != [] {
      ForestSize(kids[1..], c);
    }
  }

  lemma {:induction false} DenseSize(t: Tree, h: nat, m: nat)
    requires Balanced(t, h) && Dense(t, m)
    ensures |Recs(t)| >= m * Pow(m + 1, h - 1)
  {
    if t.Branch? {
      var c := m * Pow(m + 1, h - 2);
      forall i | 0 <= i < |t.kids| ensures |Recs(t.kids[i])| >= c {
        DenseSize(t.kids[i], h - 1, m);
      }
      ForestSize(t.kids, c);
      MulGrow(m + 1, |t.kids|, c);
      MulSwap(m + 1, m, Pow(m + 1, h - 2));
    }
  }

  lemma MulSwap(a: nat, b: nat, c: nat)
    ensures a * (b * c) == b * (a * c)
  {
  }

  lemma MulGrow(a: nat, b: nat, c: nat)
    requires a <= b
    ensures a * c <= b * c
  {
  }

  /** The height of a dense tree is logarithmic in the number of its records. */
  lemma HeightBound(ord: nat, r: Root)
    requires 2 <= ord && ValidRoot(ord, r) && DenseRoot(ord, r) && r.Root? && r.h >= 2
    ensures |Contents(r)| >= 2 * (ord / 2) * Pow(ord / 2 + 1, r.h - 2)
  {
    var t, m := r.t, ord / 2;
    var c := m * Pow(m + 1, r.h - 2);
    forall i | 0 <= i < |t.kids| ensures |Recs(t.kids[i])| >= c {
      DenseSize(t.kids[i], r.h - 1, m);
    }
    ForestSize(t.kids, c);
    MulGrow(2, |t.kids|, c);
    RootSorted(ord, r);
    assert 2 * m * Pow(m + 1, r.h - 2) == 2 * c;
  }

  /** one insertion with the pages it was given */
  datatype Put = Put(k: int, v: Value, ids: seq<nat>)

  function AfterPuts(ord: nat, puts: seq<Put>): Root
    requires 2 <= ord
    ensures ValidRoot(ord, AfterPuts(ord, puts))
  {
    if puts == [] then NoRoot
    else
      var p, r := puts[|puts| - 1], AfterPuts(ord, puts[..|puts| - 1]);
      InsertedValid(ord, r, p.k, p.v, p.ids);
      Inserted(ord, r, p.k, p.v, p.ids)
  }

  /** After any run of insertions alone, height h >= 2 needs at least 2·t·(t+1)^(h-2) keys, t = ord/2. */
  lemma {:induction false} InsertOnlyHeight(ord: nat, puts: seq<Put>)
    requires 2 <= ord
    ensures DenseRoot(ord, AfterPuts(ord, puts))
    ensures var r := AfterPuts(ord, puts);
            r.Root? && r.h >= 2 ==> |Contents(r)| >= 2 * (ord / 2) * Pow(ord / 2 + 1, r.h - 2)
  {
    hide Pow, DenseRoot, ValidRoot, Contents, Inserted;
    if puts != [] {
      var p, r := puts[|puts| - 1], AfterPuts(ord, puts[..|puts| - 1]);
      InsertOnlyHeight(ord, puts[..|puts| - 1]);
      InsertedDense(ord, r, p.k, p.v, p.ids);
    } else {
      NoRootDense(ord);
    }
    var r := AfterPuts(ord, puts);
    if r.Root? && r.h >= 2 {
      HeightBound(ord, r);
    }
  }

  // ---- whole runs ---------------------------------------------------------------------------------------

  /** one call of a public modifier; `ids` are the pages it was given for new nodes */
  datatype Op = InsertOp(k: int, v: Value, ids: seq<nat>) | UpdateOp(k: int, v: Value) | EraseOp(k: int) | ClearOp

  function Step(ord: nat, r: Root, op: Op): Root
    requires 2 <= ord && ValidRoot(ord, r)
  {
    match op
    case InsertOp(k, v, ids) => Inserted(ord, r, k, v, ids)
    case UpdateOp(k, v) => if k in Contents(r) then Assigned(r, k, v) else r
    case EraseOp(k) => Erased(r, k)
    case ClearOp => NoRoot
  }

  function MapStep(m: map<int, Value>, op: Op): map<int, Value> {
    match op
    case InsertOp(k, v, _) => if k in m then m else m[k := v]
    case UpdateOp(k, v) => if k in m then m[k := v] else m
    case EraseOp(k) => m - {k}
    case ClearOp => map[]
  }

  function MapAfter(ops: seq<Op>): map<int, Value> {
    if ops == [] then map[] else MapStep(MapAfter(ops[..|ops| - 1]), ops[|ops| - 1])
  }

  lemma StepRefines(ord: nat, r: Root, op: Op)
    requires 2 <= ord && ValidRoot(ord, r)
    ensures ValidRoot(ord, Step(ord, r, op)) && Contents(Step(ord, r, op)) == MapStep(Contents(r), op)
  {
    hide Inserted, Assigned, Erased, Contents, ValidRoot;
    match op
    case InsertOp(k, v, ids) =>
      InsertedValid(ord, r, k, v, ids);
      InsertedContents(ord, r, k, v, ids);
    case UpdateOp(k, v) => AssignedKeeps(ord, r, k, v);
    case EraseOp(k) => ErasedKeeps(ord, r, k);
    case ClearOp => NothingLeft(ord);
  }

  lemma NothingLeft(ord: nat)
    ensures ValidRoot(ord, NoRoot) && Contents(NoRoot) == map[]
  {
  }

  ghost function AfterOps(ord: nat, ops: seq<Op>): (r: Root)
    requires 2 <= ord
    ensures ValidRoot(ord, r)
  {
    if ops == [] then NoRoot
    else
      var r := AfterOps(ord, ops[..|ops| - 1]);
      StepRefines(ord, r, ops[|ops| - 1]);
      Step(ord, r, ops[|ops| - 1])
  }

  /** Every run from an empty file is a run of a finite map, and leaves a search tree whose leaves all
      lie on level h. */
  lemma {:induction false} RunRefinesMap(ord: nat, ops: seq<Op>)
    requires 2 <= ord
    ensures Contents(AfterOps(ord, ops)) == MapAfter(ops)
    ensures ValidRoot(ord, AfterOps(ord, ops))
  {
    if ops == [] {
      NothingLeft(ord);
    } else {
      RunRefinesMap(ord, ops[..|ops| - 1]);
      StepRefines(ord, AfterOps(ord, ops[..|ops| - 1]), ops[|ops| - 1]);
    }
  }
}
