/** Insertion as a function on trees, and what it keeps. */
module BTreeInsert {
  import opened BTreeModel

  /** What inserting into one node yields: the node itself and, if it split, the promoted
      separator and the new right sibling. */
  datatype Grown = Grown(inserted: bool, node: Tree, split: Option<(int, Tree)>)

  function InsertRec(recs: seq<Rec>, k: int, v: Value): (r: seq<Rec>)
    ensures var p := Lower(recs, k);
            && |r| == |recs| + 1 && r[p] == Rec(k, v)
            && (forall j :: 0 <= j < p ==> r[j] == recs[j])
            && (forall j :: p < j < |r| ==> r[j] == recs[j - 1])
  {
    var p := Lower(recs, k);
    recs[..p] + [Rec(k, v)] + recs[p..]
  }

  function InsertKey(keys: seq<int>, at: nat, sep: int): (r: seq<int>)
    requires at <= |keys|
    ensures |r| == |keys| + 1 && r[at] == sep
    ensures forall j :: 0 <= j < at ==> r[j] == keys[j]
    ensures forall j :: at < j < |r| ==> r[j] == keys[j - 1]
  {
    keys[..at] + [sep] + keys[at..]
  }

  /** child ci replaced by the two halves it split into */
  function Spliced(kids: seq<Tree>, ci: nat, l: Tree, r: Tree): (ts: seq<Tree>)
    requires ci < |kids|
    ensures |ts| == |kids| + 1 && ts[ci] == l && ts[ci + 1] == r
    ensures forall j :: 0 <= j < ci ==> ts[j] == kids[j]
    ensures forall j :: ci + 1 < j < |ts| ==> ts[j] == kids[j - 1]
  {
    kids[..ci] + [l, r] + kids[ci + 1..]
  }

  /** The page for a node split at level h; a split there follows splits at all lower levels. */
  function PageFor(ids: seq<nat>, h: nat): nat
    requires h >= 1
  {
    if h <= |ids| then ids[h - 1] else 0
  }

  function GrowLeaf(ord: nat, t: Tree, k: int, v: Value, r: nat): Grown
    requires t.Leaf? && 2 <= ord
  {
    if Hit(t.recs, k) then Grown(false, t, None)
    else if |t.recs| < ord then Grown(true, Leaf(t.idx, InsertRec(t.recs, k, v)), None)
    else SplitLeaf(ord, t.idx, t.recs, k, v, r)
  }

  function SplitLeaf(ord: nat, idx: nat, recs: seq<Rec>, k: int, v: Value, r: nat): Grown
    requires 2 <= ord <= |recs|
  {
    var lows, highs := recs[..ord / 2], recs[ord / 2..];
    if k < highs[0].key then
      Grown(true, Leaf(idx, InsertRec(lows, k, v)), Some((highs[0].key, Leaf(r, highs))))
    else
      var highs' := InsertRec(highs, k, v);
      Grown(true, Leaf(idx, lows), Some((highs'[0].key, Leaf(r, highs'))))
  }

  function GrowBranch(ord: nat, idx: nat, keys: seq<int>, kids: seq<Tree>, ci: nat, g: Grown, r: nat): Grown
    requires ci < |kids| == |keys| + 1 && 2 <= ord
  {
    match g.split
    case None => Grown(g.inserted, Branch(idx, keys, kids[ci := g.node]), None)
    case Some((sep, right)) =>
      var ks, ts := InsertKey(keys, ci, sep), Spliced(kids, ci, g.node, right);
      if |keys| < ord then Grown(g.inserted, Branch(idx, ks, ts), None)
      else SplitBranch(ord, g.inserted, idx, ks, ts, r)
  }

  /** An over-full branch splits around its median, which moves up. */
  function SplitBranch(ord: nat, inserted: bool, idx: nat, ks: seq<int>, ts: seq<Tree>, r: nat): Grown
    requires |ts| == |ks| + 1 && |ks| > ord >= 2
  {
    var m := (ord + 1) / 2;
    Grown(inserted, Branch(idx, ks[..m], ts[..m + 1]), Some((ks[m], Branch(r, ks[m + 1..], ts[m + 1..]))))
  }

  /** Inserting k below t; `ids` are the pages allocated for splits, lowest level first. */
  function Grow(ord: nat, t: Tree, h: nat, k: int, v: Value, ids: seq<nat>): Grown
    requires Balanced(t, h) && 2 <= ord
    decreases t
  {
    match t
    case Leaf(_, _) => GrowLeaf(ord, t, k, v, PageFor(ids, h))
    case Branch(idx, keys, kids) =>
      var ci := Slot(keys, k);
      GrowBranch(ord, idx, keys, kids, ci, Grow(ord, kids[ci], h - 1, k, v, ids), PageFor(ids, h))
  }

  // ---- every level stays level ----------------------------------------------------------

  ghost predicate GrownBalanced(g: Grown, h: nat) {
    Balanced(g.node, h) && (g.split.Some? ==> Balanced(g.split.value.1, h))
  }

  ghost predicate AllBalanced(kids: seq<Tree>, h: nat) {
    forall i {:trigger kids[i]} :: 0 <= i < |kids| ==> Balanced(kids[i], h)
  }

  lemma BalancedKids(t: Tree, h: nat)
    requires t.Branch? && Balanced(t, h)
    ensures h > 1 && |t.kids| == |t.keys| + 1 && AllBalanced(t.kids, h - 1)
  {
  }

  lemma BranchBalanced(idx: nat, keys: seq<int>, kids: seq<Tree>, h: nat)
    requires h > 1 && |kids| == |keys| + 1 && AllBalanced(kids, h - 1)
    ensures Balanced(Branch(idx, keys, kids), h)
  {
  }

  lemma SplicedBalanced(kids: seq<Tree>, ci: nat, l: Tree, r: Tree, h: nat)
    requires ci < |kids| && AllBalanced(kids, h) && Balanced(l, h) && Balanced(r, h)
    ensures AllBalanced(kids[ci := l], h) && AllBalanced(Spliced(kids, ci, l, r), h)
  {
    hide Balanced;
    var ts := Spliced(kids, ci, l, r);
    forall i | 0 <= i < |ts| ensures Balanced(ts[i], h) {
      if i < ci {
        assert ts[i] == kids[i];
      } else if i > ci + 1 {
        assert ts[i] == kids[i - 1];
      }
    }
  }

  lemma SplitBalanced(ord: nat, inserted: bool, idx: nat, ks: seq<int>, ts: seq<Tree>, r: nat, h: nat)
    requires |ts| == |ks| + 1 && |ks| > ord >= 2 && h > 1 && AllBalanced(ts, h - 1)
    ensures GrownBalanced(SplitBranch(ord, inserted, idx, ks, ts, r), h)
  {
    hide Balanced;
    var m := (ord + 1) / 2;
    BranchBalanced(idx, ks[..m], ts[..m + 1], h);
    BranchBalanced(r, ks[m + 1..], ts[m + 1..], h);
  }

  lemma GrowBranchBalanced(ord: nat, t: Tree, h: nat, ci: nat, g: Grown, r: nat)
    requires t.Branch? && Balanced(t, h) && ci < |t.kids| && 2 <= ord && GrownBalanced(g, h - 1)
    ensures GrownBalanced(GrowBranch(ord, t.idx, t.keys, t.kids, ci, g, r), h)
  {
    hide Balanced, AllBalanced, SplitBranch, InsertKey, Spliced;
    BalancedKids(t, h);
    match g.split
    case None =>
      SplicedBalanced(t.kids, ci, g.node, g.node, h - 1);
      BranchBalanced(t.idx, t.keys, t.kids[ci := g.node], h);
    case Some((sep, right)) =>
      var ks, ts := InsertKey(t.keys, ci, sep), Spliced(t.kids, ci, g.node, right);
      SplicedBalanced(t.kids, ci, g.node, right, h - 1);
      if |t.keys| < ord {
        BranchBalanced(t.idx, ks, ts, h);
      } else {
        SplitBalanced(ord, g.inserted, t.idx, ks, ts, r, h);
      }
  }

  lemma {:induction false} GrowBalanced(ord: nat, t: Tree, h: nat, k: int, v: Value, ids: seq<nat>)
    requires Balanced(t, h) && 2 <= ord
    ensures GrownBalanced(Grow(ord, t, h, k, v, ids), h)
  {
    if t.Branch? {
      var ci := Slot(t.keys, k);
      GrowBalanced(ord, t.kids[ci], h - 1, k, v, ids);
      GrowBranchBalanced(ord, t, h, ci, Grow(ord, t.kids[ci], h - 1, k, v, ids), PageFor(ids, h));
    }
  }

  // ---- the search-tree invariant ----------------------------------------------------------

  ghost predicate GrownWF(g: Grown, ord: nat, lo: Option<int>, hi: Option<int>) {
    match g.split
    case None => WF(g.node, ord, lo, hi)
    case Some((sep, right)) =>
      Inside(sep, lo, hi) && WF(g.node, ord, lo, Some(sep)) && WF(right, ord, Some(sep), hi)
  }

  /** what a leaf for keys in [lo, hi) may hold */
  ghost predicate InRange(recs: seq<Rec>, lo: Option<int>, hi: Option<int>) {
    Sorted(recs) && forall i :: 0 <= i < |recs| ==> Within(recs[i].key, lo, hi)
  }

  lemma InsertRecInRange(recs: seq<Rec>, k: int, v: Value, lo: Option<int>, hi: Option<int>)
    requires InRange(recs, lo, hi) && Within(k, lo, hi) && !Hit(recs, k)
    ensures InRange(InsertRec(recs, k, v), lo, hi)
  {
    var p := Lower(recs, k);
    assert forall j :: p <= j < |recs| ==> k < recs[j].key;
  }

  /** Searching a sorted list is searching the half that k belongs to. */
  lemma HitHalf(recs: seq<Rec>, m: nat, k: int)
    requires Sorted(recs) && m < |recs|
    ensures k < recs[m].key ==> Lower(recs, k) == Lower(recs[..m], k) && Hit(recs, k) == Hit(recs[..m], k)
    ensures k >= recs[m].key ==> Lower(recs, k) == m + Lower(recs[m..], k) && Hit(recs, k) == Hit(recs[m..], k)
  {
    if k < recs[m].key {
      LowerUnique(recs, k, Lower(recs[..m], k));
    } else {
      var p := m + Lower(recs[m..], k);
      forall j | 0 <= j < p ensures recs[j].key < k {
        assert j >= m ==> recs[j] == recs[m..][j - m];
      }
      LowerUnique(recs, k, p);
    }
  }

  lemma Halves(recs: seq<Rec>, m: nat, lo: Option<int>, hi: Option<int>)
    requires InRange(recs, lo, hi) && 0 < m < |recs|
    ensures Inside(recs[m].key, lo, hi)
    ensures InRange(recs[..m], lo, Some(recs[m].key)) && InRange(recs[m..], Some(recs[m].key), hi)
  {
    assert recs[0].key < recs[m].key;
  }

  lemma LeafWF(idx: nat, recs: seq<Rec>, ord: nat, lo: Option<int>, hi: Option<int>)
    requires InRange(recs, lo, hi) && 1 <= |recs| <= ord
    ensures WF(Leaf(idx, recs), ord, lo, hi)
  {
  }

  lemma FirstStays(recs: seq<Rec>, k: int, v: Value)
    requires recs != [] && recs[0].key <= k && !Hit(recs, k)
    ensures InsertRec(recs, k, v)[0] == recs[0]
  {
  }

  lemma SplitLeafWF(ord: nat, idx: nat, recs: seq<Rec>, k: int, v: Value, r: nat, lo: Option<int>, hi: Option<int>)
    requires InRange(recs, lo, hi) && Within(k, lo, hi) && !Hit(recs, k) && |recs| == ord >= 2
    ensures GrownWF(SplitLeaf(ord, idx, recs, k, v, r), ord, lo, hi)
  {
    hide InRange, WF, Hit, Lower, InsertRec, Inside;
    var m := ord / 2;
    var sep, lows, highs := recs[m].key, recs[..m], recs[m..];
    HalvesOf(recs, m, k, lo, hi);
    if k < sep {
      InsertRecInRange(lows, k, v, lo, Some(sep));
      LeafWF(idx, InsertRec(lows, k, v), ord, lo, Some(sep));
      LeafWF(r, highs, ord, Some(sep), hi);
    } else {
      InsertRecInRange(highs, k, v, Some(sep), hi);
      FirstStays(highs, k, v);
      LeafWF(idx, lows, ord, lo, Some(sep));
      LeafWF(r, InsertRec(highs, k, v), ord, Some(sep), hi);
    }
  }

  lemma HalvesOf(recs: seq<Rec>, m: nat, k: int, lo: Option<int>, hi: Option<int>)
    requires InRange(recs, lo, hi) && 0 < m < |recs| && !Hit(recs, k)
    ensures Inside(recs[m].key, lo, hi)
    ensures InRange(recs[..m], lo, Some(recs[m].key)) && InRange(recs[m..], Some(recs[m].key), hi)
    ensures if k < recs[m].key then !Hit(recs[..m], k) else !Hit(recs[m..], k)
  {
    hide Hit, Lower, Sorted;
    Halves(recs, m, lo, hi);
    HitHalf(recs, m, k);
  }

  /** A full leaf leaves half of its records, rounded down, on the left; the new record goes to its half, and the
      first key on the right is promoted. */
  lemma LeafShares(ord: nat, idx: nat, recs: seq<Rec>, k: int, v: Value, r: nat)
    requires Sorted(recs) && !Hit(recs, k) && |recs| == ord >= 2
    ensures var g := SplitLeaf(ord, idx, recs, k, v, r);
            && g.node.Leaf? && g.split.Some? && g.split.value.1.Leaf? && g.split.value.1.recs != []
            && var left, sep, right := g.node.recs, g.split.value.0, g.split.value.1.recs;
               && sep == right[0].key && |left| + |right| == ord + 1
               && if k < sep then |left| == ord / 2 + 1 && Rec(k, v) in left
                  else |left| == ord / 2 && Rec(k, v) in right
  {
    hide Sorted, Hit, Lower;
    var m := ord / 2;
    HitHalf(recs, m, k);
    if k < recs[m].key {
      var left := InsertRec(recs[..m], k, v);
      assert left[Lower(recs[..m], k)] in left;
    } else {
      FirstStays(recs[m..], k, v);
      var right := InsertRec(recs[m..], k, v);
      assert right[Lower(recs[m..], k)] in right;
    }
  }

  /** An over-full branch keeps its keys around the promoted one, equally many on both sides, or one more on
      the left. */
  lemma BranchShares(ord: nat, inserted: bool, idx: nat, ks: seq<int>, ts: seq<Tree>, r: nat)
    requires |ts| == |ks| + 1 && |ks| == ord + 1 && 2 <= ord
    ensures var g := SplitBranch(ord, inserted, idx, ks, ts, r);
            && g.node.Branch? && g.split.Some? && g.split.value.1.Branch?
            && var left, right := g.node, g.split.value.1;
               && left.keys + [g.split.value.0] + right.keys == ks && left.kids + right.kids == ts
               && |left.kids| == |left.keys| + 1 && |right.keys| <= |left.keys| <= |right.keys| + 1
  {
    var m := (ord + 1) / 2;
    assert ks == ks[..m] + [ks[m]] + ks[m + 1..] && ts == ts[..m + 1] + ts[m + 1..];
  }

  lemma GrowLeafWF(ord: nat, t: Tree, k: int, v: Value, r: nat, lo: Option<int>, hi: Option<int>)
    requires t.Leaf? && 2 <= ord && WF(t, ord, lo, hi) && Within(k, lo, hi)
    ensures GrownWF(GrowLeaf(ord, t, k, v, r), ord, lo, hi)
  {
    if !Hit(t.recs, k) {
      if |t.recs| < ord {
        InsertRecInRange(t.recs, k, v, lo, hi);
      } else {
        SplitLeafWF(ord, t.idx, t.recs, k, v, r, lo, hi);
      }
    }
  }

  lemma SplicedKeys(keys: seq<int>, ci: nat, sep: int, lo: Option<int>, hi: Option<int>)
    requires Ascending(keys) && ci <= |keys|
    requires forall i :: 0 <= i < |keys| ==> Inside(keys[i], lo, hi)
    requires Inside(sep, LoOf(keys, lo, ci), HiOf(keys, hi, ci))
    ensures Ascending(InsertKey(keys, ci, sep))
    ensures forall i :: 0 <= i < |InsertKey(keys, ci, sep)| ==> Inside(InsertKey(keys, ci, sep)[i], lo, hi)
  {
    hide InsertKey, Ascending;
    var ks := InsertKey(keys, ci, sep);
    forall i | 0 <= i < |ks| ensures Inside(ks[i], lo, hi) {
      if i < ci {
        assert ks[i] == keys[i];
      } else if i > ci {
        assert ks[i] == keys[i - 1];
      } else {
        assert ci > 0 ==> Inside(keys[ci - 1], lo, hi);
        assert ci < |keys| ==> Inside(keys[ci], lo, hi);
      }
    }
    SepAscends(keys, ci, sep, lo, hi);
  }

  lemma SepAscends(keys: seq<int>, ci: nat, sep: int, lo: Option<int>, hi: Option<int>)
    requires Ascending(keys) && ci <= |keys| && Inside(sep, LoOf(keys, lo, ci), HiOf(keys, hi, ci))
    ensures Ascending(InsertKey(keys, ci, sep))
  {
    hide InsertKey;
    var ks := InsertKey(keys, ci, sep);
    forall i, j | 0 <= i < j < |ks| ensures ks[i] < ks[j] {
      var a := if i < ci then i else i - 1;
      var b := if j < ci then j else j - 1;
      if i == ci {
        assert ks[j] == keys[b] && keys[ci] <= keys[b];
      } else if j == ci {
        assert ks[i] == keys[a] && keys[a] <= keys[ci - 1];
      } else {
        assert ks[i] == keys[a] && ks[j] == keys[b];
      }
    }
  }

  lemma SplicedKid(keys: seq<int>, kids: seq<Tree>, ord: nat, lo: Option<int>, hi: Option<int>,
                   ci: nat, l: Tree, sep: int, r: Tree, i: nat)
    requires |kids| == |keys| + 1 && ci < |kids| && i <= |kids|
    requires forall i :: 0 <= i < |kids| ==> WF(kids[i], ord, LoOf(keys, lo, i), HiOf(keys, hi, i))
    requires WF(l, ord, LoOf(keys, lo, ci), Some(sep)) && WF(r, ord, Some(sep), HiOf(keys, hi, ci))
    ensures var ks, ts := InsertKey(keys, ci, sep), Spliced(kids, ci, l, r);
            WF(ts[i], ord, LoOf(ks, lo, i), HiOf(ks, hi, i))
  {
    if i < ci {
      assert WF(kids[i], ord, LoOf(keys, lo, i), HiOf(keys, hi, i));
    } else if i > ci + 1 {
      assert WF(kids[i - 1], ord, LoOf(keys, lo, i - 1), HiOf(keys, hi, i - 1));
    }
  }

  lemma SplicedWF(keys: seq<int>, kids: seq<Tree>, ord: nat, lo: Option<int>, hi: Option<int>,
                  ci: nat, l: Tree, sep: int, r: Tree)
    requires ForestWF(keys, kids, ord, lo, hi) && ci < |kids|
    requires Inside(sep, LoOf(keys, lo, ci), HiOf(keys, hi, ci))
    requires WF(l, ord, LoOf(keys, lo, ci), Some(sep)) && WF(r, ord, Some(sep), HiOf(keys, hi, ci))
    ensures ForestWF(InsertKey(keys, ci, sep), Spliced(kids, ci, l, r), ord, lo, hi)
  {
    SplicedKeys(keys, ci, sep, lo, hi);
    var ks, ts := InsertKey(keys, ci, sep), Spliced(kids, ci, l, r);
    forall i | 0 <= i < |ts| ensures WF(ts[i], ord, LoOf(ks, lo, i), HiOf(ks, hi, i)) {
      SplicedKid(keys, kids, ord, lo, hi, ci, l, sep, r, i);
    }
  }

  lemma ReplacedWF(keys: seq<int>, kids: seq<Tree>, ord: nat, lo: Option<int>, hi: Option<int>, ci: nat, t: Tree)
    requires ForestWF(keys, kids, ord, lo, hi) && ci < |kids|
    requires WF(t, ord, LoOf(keys, lo, ci), HiOf(keys, hi, ci))
    ensures ForestWF(keys, kids[ci := t], ord, lo, hi)
  {
  }

  lemma SplitBranchWF(ord: nat, inserted: bool, idx: nat, ks: seq<int>, ts: seq<Tree>, r: nat, lo: Option<int>,
                      hi: Option<int>)
    requires ForestWF(ks, ts, ord, lo, hi) && |ks| == ord + 1 && 2 <= ord
    ensures GrownWF(SplitBranch(ord, inserted, idx, ks, ts, r), ord, lo, hi)
  {
    var m := (ord + 1) / 2;
    CutForest(ks, ts, ord, lo, hi, m);
    assert Inside(ks[m], lo, hi);
  }

  lemma GrowBranchWF(ord: nat, idx: nat, keys: seq<int>, kids: seq<Tree>, ci: nat, g: Grown, r: nat,
                     lo: Option<int>, hi: Option<int>)
    requires ForestWF(keys, kids, ord, lo, hi) && ci < |kids| && |keys| <= ord && 2 <= ord
    requires GrownWF(g, ord, LoOf(keys, lo, ci), HiOf(keys, hi, ci))
    ensures GrownWF(GrowBranch(ord, idx, keys, kids, ci, g, r), ord, lo, hi)
  {
    match g.split
    case None => ReplacedWF(keys, kids, ord, lo, hi, ci, g.node);
    case Some((sep, right)) =>
      SplicedWF(keys, kids, ord, lo, hi, ci, g.node, sep, right);
      if |keys| == ord {
        SplitBranchWF(ord, g.inserted, idx, InsertKey(keys, ci, sep), Spliced(kids, ci, g.node, right), r, lo, hi);
      }
  }

  lemma {:induction false} GrowWF(ord: nat, t: Tree, h: nat, k: int, v: Value, ids: seq<nat>, lo: Option<int>,
                                  hi: Option<int>)
    requires Balanced(t, h) && 2 <= ord && WF(t, ord, lo, hi) && Within(k, lo, hi)
    ensures GrownWF(Grow(ord, t, h, k, v, ids), ord, lo, hi)
  {
    hide GrownWF, GrowBranch, GrowLeaf, AllBelow, AllAbove, Within, Inside;
    match t
    case Leaf(_, _) => GrowLeafWF(ord, t, k, v, PageFor(ids, h), lo, hi);
    case Branch(idx, keys, kids) =>
      var ci := Slot(keys, k);
      SidesOfSlot(keys, kids, ord, lo, hi, k);
      GrowWF(ord, kids[ci], h - 1, k, v, ids, LoOf(keys, lo, ci), HiOf(keys, hi, ci));
      GrowBranchWF(ord, idx, keys, kids, ci, Grow(ord, kids[ci], h - 1, k, v, ids), PageFor(ids, h), lo, hi);
  }

  // ---- the records ------------------------------------------------------------------------

  function Both(g: Grown): seq<Tree> {
    if g.split.Some? then [g.node, g.split.value.1] else [g.node]
  }

  function RecsG(g: Grown): seq<Rec> {
    if g.split.Some? then Recs(g.node) + Recs(g.split.value.1) else Recs(g.node)
  }

  function LeafIdsG(g: Grown): seq<nat> {
    if g.split.Some? then LeafIds(g.node) + LeafIds(g.split.value.1) else LeafIds(g.node)
  }

  function PagesG(g: Grown): multiset<nat> {
    if g.split.Some? then Pages(g.node) + Pages(g.split.value.1) else Pages(g.node)
  }

  lemma ViewsBoth(g: Grown)
    ensures RecsF(Both(g)) == RecsG(g) && LeafIdsF(Both(g)) == LeafIdsG(g) && PagesF(Both(g)) == PagesG(g)
  {
    RecsOne(g.node);
    LeafIdsOne(g.node);
    PagesOne(g.node);
    if g.split.Some? {
      var r := g.split.value.1;
      RecsOne(r);
      LeafIdsOne(r);
      PagesOne(r);
      assert Both(g)[1..] == [r];
    }
  }

  /** The sorted list with k added, unless it is there already. */
  function PutNew(recs: seq<Rec>, k: int, v: Value): seq<Rec> {
    if Hit(recs, k) then recs else InsertRec(recs, k, v)
  }

  lemma LowHalf(recs: seq<Rec>, m: nat, k: int, v: Value)
    requires m <= |recs| && Lower(recs, k) == Lower(recs[..m], k)
    ensures InsertRec(recs[..m], k, v) + recs[m..] == InsertRec(recs, k, v)
  {
    var x, y := InsertRec(recs[..m], k, v), InsertRec(recs, k, v);
    forall j | 0 <= j < |y| ensures (x + recs[m..])[j] == y[j] {
    }
  }

  lemma HighHalf(recs: seq<Rec>, m: nat, k: int, v: Value)
    requires m <= |recs| && Lower(recs, k) == m + Lower(recs[m..], k)
    ensures recs[..m] + InsertRec(recs[m..], k, v) == InsertRec(recs, k, v)
  {
    var x, y := InsertRec(recs[m..], k, v), InsertRec(recs, k, v);
    forall j | 0 <= j < |y| ensures (recs[..m] + x)[j] == y[j] {
    }
  }

  lemma SplitLeafRecs(ord: nat, idx: nat, recs: seq<Rec>, k: int, v: Value, r: nat)
    requires 2 <= ord <= |recs| && Sorted(recs)
    ensures RecsG(SplitLeaf(ord, idx, recs, k, v, r)) == InsertRec(recs, k, v)
  {
    var m := ord / 2;
    HitHalf(recs, m, k);
    if k < recs[m].key {
      LowHalf(recs, m, k, v);
    } else {
      HighHalf(recs, m, k, v);
    }
  }

  lemma GrowLeafRecs(ord: nat, t: Tree, k: int, v: Value, r: nat)
    requires t.Leaf? && 2 <= ord && Sorted(t.recs) && |t.recs| <= ord
    ensures GrowLeaf(ord, t, k, v, r).inserted == !Hit(t.recs, k)
    ensures RecsG(GrowLeaf(ord, t, k, v, r)) == PutNew(t.recs, k, v)
  {
    if !Hit(t.recs, k) && |t.recs| == ord {
      SplitLeafRecs(ord, t.idx, t.recs, k, v, r);
    }
  }

  lemma SplitBranchViews(ord: nat, inserted: bool, idx: nat, ks: seq<int>, ts: seq<Tree>, r: nat)
    requires |ts| == |ks| + 1 && |ks| > ord >= 2
    ensures var b := SplitBranch(ord, inserted, idx, ks, ts, r);
            && RecsG(b) == RecsF(ts) && LeafIdsG(b) == LeafIdsF(ts)
            && PagesG(b) == PagesF(ts) + multiset{idx} + multiset{r}
  {
    var m := (ord + 1) / 2;
    var l, u := ts[..m + 1], ts[m + 1..];
    assert ts == l + u;
    RecsAppend(l, u);
    LeafIdsAppend(l, u);
    PagesAppend(l, u);
  }

  /** Splitting a branch moves no record: what lies below its halves is what lay below its children. */
  lemma GrowBranchViews(ord: nat, idx: nat, keys: seq<int>, kids: seq<Tree>, ci: nat, g: Grown, r: nat)
    requires ci < |kids| == |keys| + 1 && 2 <= ord && |keys| <= ord
    ensures var b := GrowBranch(ord, idx, keys, kids, ci, g, r);
            && RecsG(b) == RecsF(Graft(kids, ci, Both(g)))
            && LeafIdsG(b) == LeafIdsF(Graft(kids, ci, Both(g)))
            && PagesG(b) == PagesF(Graft(kids, ci, Both(g))) + multiset{idx} +
               (if b.split.Some? then multiset{r} else multiset{})
  {
    match g.split
    case None => assert kids[ci := g.node] == Graft(kids, ci, Both(g));
    case Some((sep, right)) =>
      if |keys| == ord {
        SplitBranchViews(ord, g.inserted, idx, InsertKey(keys, ci, sep), Spliced(kids, ci, g.node, right), r);
      }
  }

  lemma InsertRecCat(a: seq<Rec>, b: seq<Rec>, c: seq<Rec>, k: int, v: Value)
    requires Lower(a + b + c, k) == |a| + Lower(b, k)
    ensures InsertRec(a + b + c, k, v) == a + InsertRec(b, k, v) + c
  {
    var s, x := InsertRec(a + b + c, k, v), InsertRec(b, k, v);
    forall j | 0 <= j < |s| ensures s[j] == (a + x + c)[j] {
    }
  }

  lemma InsertRecAround(a: seq<Rec>, b: seq<Rec>, c: seq<Rec>, k: int, v: Value)
    requires Sorted(b) && Sorted(a + b + c) && AllBelow(a, k) && AllAbove(c, k)
    ensures Hit(a + b + c, k) == Hit(b, k)
    ensures PutNew(a + b + c, k, v) == a + PutNew(b, k, v) + c
  {
    LowerAround(a, b, c, k);
    InsertRecCat(a, b, c, k, v);
  }

  lemma GrowBranchParts(ord: nat, idx: nat, keys: seq<int>, kids: seq<Tree>, ci: nat, g: Grown, r: nat)
    requires ci < |kids| == |keys| + 1 && 2 <= ord && |keys| <= ord
    ensures GrowBranch(ord, idx, keys, kids, ci, g, r).inserted == g.inserted
    ensures RecsG(GrowBranch(ord, idx, keys, kids, ci, g, r)) == RecsF(kids[..ci]) + RecsG(g) + RecsF(kids[ci + 1..])
    ensures LeafIdsG(GrowBranch(ord, idx, keys, kids, ci, g, r)) == LeafIdsF(kids[..ci]) + LeafIdsG(g) +
            LeafIdsF(kids[ci + 1..])
  {
    GrowBranchViews(ord, idx, keys, kids, ci, g, r);
    RecsGraft(kids, ci, Both(g));
    LeafIdsGraft(kids, ci, Both(g));
    ViewsBoth(g);
  }

  lemma ForestLength(keys: seq<int>, kids: seq<Tree>, ord: nat, lo: Option<int>, hi: Option<int>)
    requires ForestWF(keys, kids, ord, lo, hi)
    ensures |kids| == |keys| + 1
  {
  }

  lemma GrowBranchRecs(ord: nat, idx: nat, keys: seq<int>, kids: seq<Tree>, lo: Option<int>, hi: Option<int>,
                       k: int, v: Value, g: Grown, r: nat)
    requires ForestWF(keys, kids, ord, lo, hi) && 2 <= ord && |keys| <= ord
    requires var b := Recs(kids[Slot(keys, k)]);
             Sorted(b) && g.inserted == !Hit(b, k) && RecsG(g) == PutNew(b, k, v)
    ensures GrowBranch(ord, idx, keys, kids, Slot(keys, k), g, r).inserted == !Hit(RecsF(kids), k)
    ensures RecsG(GrowBranch(ord, idx, keys, kids, Slot(keys, k), g, r)) == PutNew(RecsF(kids), k, v)
  {
    hide ForestWF, GrowBranch, PutNew, RecsG, Slot, Sorted, AllBelow, AllAbove, Hit;
    ForestLength(keys, kids, ord, lo, hi);
    var ci := Slot(keys, k);
    var a, b, c := RecsF(kids[..ci]), Recs(kids[ci]), RecsF(kids[ci + 1..]);
    GrowBranchParts(ord, idx, keys, kids, ci, g, r);
    RecsAt(kids, ci);
    assert Sorted(a + b + c) && AllBelow(a, k) && AllAbove(c, k) by {
      SidesOfSlot(keys, kids, ord, lo, hi, k);
      ForestInRange(keys, kids, ord, lo, hi);
    }
    InsertRecAround(a, b, c, k, v);
  }

  /** Insertion into the tree is insertion into its sorted record list. */
  lemma {:induction false} GrowRecs(ord: nat, t: Tree, h: nat, k: int, v: Value, ids: seq<nat>, lo: Option<int>,
                                    hi: Option<int>)
    requires Balanced(t, h) && 2 <= ord && WF(t, ord, lo, hi)
    ensures Grow(ord, t, h, k, v, ids).inserted == !Hit(Recs(t), k)
    ensures RecsG(Grow(ord, t, h, k, v, ids)) == PutNew(Recs(t), k, v)
  {
    hide PutNew, RecsG, GrowLeaf, GrowBranch, Hit, Slot;
    match t
    case Leaf(_, _) => GrowLeafRecs(ord, t, k, v, PageFor(ids, h));
    case Branch(idx, keys, kids) =>
      var ci := Slot(keys, k);
      GrowRecs(ord, kids[ci], h - 1, k, v, ids, LoOf(keys, lo, ci), HiOf(keys, hi, ci));
      RecsInRange(kids[ci], ord, LoOf(keys, lo, ci), HiOf(keys, hi, ci));
      GrowBranchRecs(ord, idx, keys, kids, lo, hi, k, v, Grow(ord, kids[ci], h - 1, k, v, ids), PageFor(ids, h));
  }

  // ---- the pages ----------------------------------------------------------------------------

  /** How many levels split, counted from the bottom. */
  function Splits(ord: nat, t: Tree, h: nat, k: int): nat
    requires Balanced(t, h)
    decreases t
  {
    match t
    case Leaf(_, recs) => if Hit(recs, k) || |recs| < ord then 0 else 1
    case Branch(_, keys, kids) =>
      var s := Splits(ord, kids[Slot(keys, k)], h - 1, k);
      if s == h - 1 && |keys| >= ord then h else s
  }

  lemma {:induction false} SplitsUpward(ord: nat, t: Tree, h: nat, k: int, v: Value, ids: seq<nat>)
    requires Balanced(t, h) && 2 <= ord
    ensures Splits(ord, t, h, k) <= h
    ensures Grow(ord, t, h, k, v, ids).split.Some? <==> Splits(ord, t, h, k) == h
  {
    if t.Branch? {
      SplitsUpward(ord, t.kids[Slot(t.keys, k)], h - 1, k, v, ids);
    }
  }

  /** Only the pages that are needed matter. */
  lemma {:induction false} GrowMore(ord: nat, t: Tree, h: nat, k: int, v: Value, ids: seq<nat>, more: seq<nat>)
    requires Balanced(t, h) && 2 <= ord && Splits(ord, t, h, k) <= |ids|
    ensures Grow(ord, t, h, k, v, ids + more) == Grow(ord, t, h, k, v, ids)
  {
    if t.Branch? {
      GrowMore(ord, t.kids[Slot(t.keys, k)], h - 1, k, v, ids, more);
      SplitsUpward(ord, t.kids[Slot(t.keys, k)], h - 1, k, v, ids);
    }
  }

  lemma GrowBranchPages(ord: nat, t: Tree, ci: nat, g: Grown, ids: seq<nat>, r: nat)
    requires t.Branch? && ci < |t.kids| == |t.keys| + 1 && 2 <= ord && |t.keys| <= ord
    requires PagesG(g) == Pages(t.kids[ci]) + multiset(ids)
    ensures var b := GrowBranch(ord, t.idx, t.keys, t.kids, ci, g, r);
            PagesG(b) == Pages(t) + multiset(if b.split.Some? then ids + [r] else ids)
  {
    GrowBranchViews(ord, t.idx, t.keys, t.kids, ci, g, r);
    PagesGraft(t.kids, ci, Both(g));
    ViewsBoth(g);
    PagesAt(t.kids, ci);
  }

  lemma GrowLeafPages(ord: nat, t: Tree, k: int, v: Value, r: nat, lo: Option<int>, hi: Option<int>)
    requires t.Leaf? && 2 <= ord && WF(t, ord, lo, hi)
    ensures PagesG(GrowLeaf(ord, t, k, v, r)) == Pages(t) +
            (if Hit(t.recs, k) || |t.recs| < ord then multiset{} else multiset{r})
  {
  }

  /** An insertion keeps the pages in use and adds the new ones, each once. */
  lemma {:induction false} GrowPages(ord: nat, t: Tree, h: nat, k: int, v: Value, ids: seq<nat>, lo: Option<int>,
                                     hi: Option<int>)
    requires Balanced(t, h) && 2 <= ord && WF(t, ord, lo, hi) && Splits(ord, t, h, k) <= |ids|
    ensures PagesG(Grow(ord, t, h, k, v, ids)) == Pages(t) + multiset(ids[..Splits(ord, t, h, k)])
  {
    hide WF, Slot, PagesG, GrowBranch, Pages, GrowLeaf;
    if t.Leaf? {
      GrowLeafPages(ord, t, k, v, PageFor(ids, h), lo, hi);
    } else {
      var ci := Slot(t.keys, k);
      KidWF(t, ord, lo, hi, ci);
      var c := t.kids[ci];
      var s, g := Splits(ord, c, h - 1, k), Grow(ord, c, h - 1, k, v, ids);
      SplitsUpward(ord, c, h - 1, k, v, ids);
      SplitsUpward(ord, t, h, k, v, ids);
      GrowPages(ord, c, h - 1, k, v, ids, LoOf(t.keys, lo, ci), HiOf(t.keys, hi, ci));
      GrowBranchPages(ord, t, ci, g, ids[..s], PageFor(ids, h));
      if Splits(ord, t, h, k) == h {
        OneMorePage(ids, h);
      }
    }
  }

  lemma OneMorePage(ids: seq<nat>, h: nat)
    requires 0 < h <= |ids|
    ensures ids[..h] == ids[..h - 1] + [ids[h - 1]] && PageFor(ids, h) == ids[h - 1]
  {
  }

  /** A key that is there already changes nothing. */
  lemma {:induction false} GrowMiss(ord: nat, t: Tree, h: nat, k: int, v: Value, ids: seq<nat>)
    requires Balanced(t, h) && 2 <= ord && !Grow(ord, t, h, k, v, ids).inserted
    ensures Grow(ord, t, h, k, v, ids) == Grown(false, t, None) && Splits(ord, t, h, k) == 0
  {
    if t.Branch? {
      var ci := Slot(t.keys, k);
      GrowMiss(ord, t.kids[ci], h - 1, k, v, ids);
      assert t.kids[ci := t.kids[ci]] == t.kids;
    }
  }

  /** The leftmost leaf stays the leftmost. */
  lemma {:induction false} GrowFirst(ord: nat, t: Tree, h: nat, k: int, v: Value, ids: seq<nat>, lo: Option<int>,
                                     hi: Option<int>)
    requires Balanced(t, h) && 2 <= ord && WF(t, ord, lo, hi)
    ensures LeafIds(t) != [] && LeafIdsG(Grow(ord, t, h, k, v, ids)) != []
    ensures LeafIdsG(Grow(ord, t, h, k, v, ids))[0] == LeafIds(t)[0]
  {
    if t.Branch? {
      var ci := Slot(t.keys, k);
      GrowFirst(ord, t.kids[ci], h - 1, k, v, ids, LoOf(t.keys, lo, ci), HiOf(t.keys, hi, ci));
      GrowBranchParts(ord, t.idx, t.keys, t.kids, ci, Grow(ord, t.kids[ci], h - 1, k, v, ids), PageFor(ids, h));
      LeafIdsAt(t.kids, ci);
    }
  }
}
