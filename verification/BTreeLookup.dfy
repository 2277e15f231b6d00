/** Finding and overwriting single records, and the leaf chain as the sorted list of all records. */
module BTreeLookup {
  import opened BTreeModel
  import opened BTreeInsert
  import opened BTreeErase
  import opened BTreeMap
  import opened BTreeRoot
  import opened BTreePage
  import opened BTreeStore
  import opened BTreeFile
  import opened BTreeInsertSteps
  import opened BTreeTop

  // ---- looking up a key -----------------------------------------------------------------------------

  /** The descent for k has come to node t. */
  ghost predicate Descending(ord: nat, s: Store, root: Root, k: int, t: Tree, h: nat, lo: Option<int>, hi: Option<int>,
                             pre: seq<nat>, post: seq<nat>) {
    && root.Root? && Balanced(root.t, root.h)
    && NodeReady(ord, s, t, h, lo, hi, pre, post)
    && LeafFor(t, h, k) == LeafFor(root.t, root.h, k)
  }

  lemma DescentStarts(ord: nat, s: Store, f: seq<nat>, root: Root, k: int)
    requires 2 <= ord && FileShows(ord, s, f, root) && root.Root?
    ensures Descending(ord, s, root, k, root.t, root.h, None, None, [], [])
  {
    RootReady(ord, s, f, root);
  }

  lemma DescentStep(ord: nat, s: Store, root: Root, k: int, t: Tree, h: nat, lo: Option<int>, hi: Option<int>,
                    pre: seq<nat>, post: seq<nat>, ci: nat)
    requires Descending(ord, s, root, k, t, h, lo, hi, pre, post) && t.Branch? && ci == Slot(t.keys, k)
    ensures h > 1 && ci < |t.kids| && ci <= |t.keys|
    ensures Descending(ord, s, root, k, t.kids[ci], h - 1, LoOf(t.keys, lo, ci), HiOf(t.keys, hi, ci),
                       PreOf(pre, t.kids, ci), PostOf(post, t.kids, ci))
  {
    KidReady(ord, s, t, h, lo, hi, pre, post, k, ci);
  }

  lemma DescentKind(ord: nat, s: Store, root: Root, k: int, t: Tree, h: nat, lo: Option<int>, hi: Option<int>,
                    pre: seq<nat>, post: seq<nat>)
    requires Descending(ord, s, root, k, t, h, lo, hi, pre, post)
    ensures t.idx in s && t.idx != 0 && (if t.Leaf? then s[t.idx].LeafV? && h == 1 else s[t.idx].BranchV?)
    ensures NodeReady(ord, s, t, h, lo, hi, pre, post) && 0 in s && s[0].HeaderV?
  {
    HoldsKinds(s, t, t.idx);
  }

  /** The leaf that would hold k has been reached. */
  ghost predicate AtLeaf(ord: nat, s: Store, root: Root, k: int, leaf: nat) {
    && root.Root? && Balanced(root.t, root.h)
    && var l := LeafFor(root.t, root.h, k);
       leaf == l.idx && leaf != 0 && leaf in s && s[leaf].LeafV? && s[leaf].recs == l.recs && Sorted(l.recs)
  }

  lemma DescentEnds(ord: nat, s: Store, root: Root, k: int, t: Tree, h: nat, lo: Option<int>, hi: Option<int>,
                    pre: seq<nat>, post: seq<nat>)
    requires Descending(ord, s, root, k, t, h, lo, hi, pre, post) && t.Leaf?
    ensures AtLeaf(ord, s, root, k, t.idx)
  {
    HoldsKinds(s, t, t.idx);
  }

  /** Where k is, if it is anywhere. */
  ghost predicate Located(ord: nat, s: Store, root: Root, k: int, leaf: nat, pos: nat, found: bool) {
    && found == (k in Contents(root))
    && (found ==>
          && AtLeaf(ord, s, root, k, leaf)
          && Hit(s[leaf].recs, k) && pos == Lower(s[leaf].recs, k)
          && Contents(root)[k] == s[leaf].recs[pos].val)
  }

  lemma NoLeaf(ord: nat, s: Store, root: Root, k: int)
    requires root.Root? ==> AtLeaf(ord, s, root, k, 0)
    ensures root.NoRoot?
  {
  }

  lemma NothingThere(ord: nat, s: Store, k: int)
    ensures Located(ord, s, NoRoot, k, 0, 0, false)
  {
  }

  lemma LeafFacts(ord: nat, s: Store, root: Root, k: int, leaf: nat)
    requires AtLeaf(ord, s, root, k, leaf)
    ensures leaf in s && leaf != 0 && s[leaf].LeafV? && Sorted(s[leaf].recs)
  {
  }

  /** Looking in that leaf is looking in the map. */
  lemma LeafDecides(ord: nat, s: Store, root: Root, k: int, leaf: nat)
    requires ValidRoot(ord, root) && AtLeaf(ord, s, root, k, leaf)
    ensures Located(ord, s, root, k, leaf, Lower(s[leaf].recs, k), Hit(s[leaf].recs, k))
  {
    DescentFinds(root.t, root.h, ord, None, None, k);
    RootSorted(ord, root);
    InMap(Recs(root.t), k);
  }

  lemma LocatedFacts(ord: nat, s: Store, root: Root, k: int, leaf: nat, pos: nat, found: bool)
    requires Located(ord, s, root, k, leaf, pos, found)
    ensures found == (k in Contents(root))
    ensures found ==>
              && leaf in s && s[leaf].LeafV? && pos < |s[leaf].recs|
              && s[leaf].recs[pos] == Rec(k, Contents(root)[k])
  {
  }

  lemma ShowsPool(ord: nat, s: Store, f: seq<nat>, root: Root)
    requires FileShows(ord, s, f, root)
    ensures Pool(s, f)
  {
  }

  lemma FileCount(ord: nat, s: Store, f: seq<nat>, root: Root)
    requires FileShows(ord, s, f, root)
    ensures 0 in s && s[0].HeaderV? && s[0].hdr.count == |Contents(root)|
  {
    RootSorted(ord, root);
  }

  // ---- overwriting a value --------------------------------------------------------------------------

  lemma LeafForPage(t: Tree, h: nat, k: int)
    requires Balanced(t, h)
    ensures LeafFor(t, h, k).idx in Pages(t)
  {
    if t.Branch? {
      var ci := Slot(t.keys, k);
      LeafForPage(t.kids[ci], h - 1, k);
      KidPages(t.kids, ci);
    }
  }

  /** Overwriting in that leaf spells out the tree that `Assign` computes. */
  lemma {:induction false} AssignHolds(s0: Store, s1: Store, t: Tree, h: nat, k: int, v: Value)
    requires Balanced(t, h) && Holds(s0, t) && NoTwice(Pages(t)) && 0 in s0 && s0[0].HeaderV?
    requires var l := LeafFor(t, h, k);
             l.idx in s0 && s0[l.idx].LeafV? && s1 == s0[l.idx := s0[l.idx].(recs := SetRec(l.recs, k, v))]
    ensures Holds(s1, Assign(t, h, k, v))
    decreases t
  {
    if t.Leaf? {
      assert s1[t.idx].recs == SetRec(t.recs, k, v);
    } else {
      hide Assign, SetRec, Pages;
      var ci := Slot(t.keys, k);
      var kid := t.kids[ci];
      KidNoTwice(t, ci);
      AssignHolds(s0, s1, kid, h - 1, k, v);
      LeafForPage(kid, h - 1, k);
      AssignedKid(s0, s1, t, ci, LeafFor(kid, h - 1, k).idx, Assign(kid, h - 1, k, v));
      AssignUnfolds(t, h, k, v);
      AssignIdx(kid, h - 1, k, v);
    }
  }

  lemma AssignUnfolds(t: Tree, h: nat, k: int, v: Value)
    requires Balanced(t, h) && t.Branch?
    ensures var ci := Slot(t.keys, k);
            Assign(t, h, k, v) == Branch(t.idx, t.keys, t.kids[ci := Assign(t.kids[ci], h - 1, k, v)])
  {
  }

  lemma AssignIdx(t: Tree, h: nat, k: int, v: Value)
    requires Balanced(t, h)
    ensures Assign(t, h, k, v).idx == t.idx
  {
  }

  lemma AssignedKid(s0: Store, s1: Store, t: Tree, ci: nat, leaf: nat, n: Tree)
    requires t.Branch? && Holds(s0, t) && NoTwice(Pages(t)) && ci < |t.kids| && leaf in Pages(t.kids[ci])
    requires forall p :: p in s0 && p != leaf ==> p in s1 && s1[p] == s0[p]
    requires Holds(s1, n)
    ensures n.idx == t.kids[ci].idx ==> Holds(s1, Branch(t.idx, t.keys, t.kids[ci := n]))
  {
    KidsApart(t, ci, leaf);
    forall j | 0 <= j < |t.kids| && j != ci ensures Holds(s1, t.kids[j]) {
      HoldsElsewhere(s0, s1, t.kids[j], leaf);
    }
    if n.idx == t.kids[ci].idx {
      HoldsBranch(s1, t.idx, t.keys, t.kids[ci := n]);
    }
  }

  lemma Updated(ord: nat, s0: Store, f: seq<nat>, s1: Store, root: Root, k: int, v: Value, leaf: nat, pos: nat)
    requires FileShows(ord, s0, f, root) && root.Root? && Located(ord, s0, root, k, leaf, pos, true)
    requires leaf in s0 && s0[leaf].LeafV? && pos < |s0[leaf].recs|
    requires s1 == s0[leaf := s0[leaf].(recs := s0[leaf].recs[pos := Rec(s0[leaf].recs[pos].key, v)])]
    ensures Balanced(root.t, root.h) && FileShows(ord, s1, f, Assigned(root, k, v))
  {
    hide WF, Pages, Recs, LeafIds, Assign;
    FileNoTwice(ord, s0, f, root);
    AssignHolds(s0, s1, root.t, root.h, k, v);
    AssignedKeeps(ord, root, k, v);
    AssignIdx(root.t, root.h, k, v);
    AssignedCount(ord, root, k, v);
    RewrittenChain(s0, s1, LeafIdsR(root), leaf);
    PoolFrame(s0, s1, f);
    assert s1.Keys == s0.Keys;
  }

  lemma AssignedCount(ord: nat, root: Root, k: int, v: Value)
    requires ValidRoot(ord, root) && root.Root?
    ensures |Recs(Assign(root.t, root.h, k, v))| == |Recs(root.t)|
  {
    AssignViews(root.t, root.h, k, v, ord, None, None);
  }

  lemma RewrittenChain(s0: Store, s1: Store, ids: seq<nat>, leaf: nat)
    requires Chain(s0, ids) && leaf in s0 && s0[leaf].LeafV? && leaf in s1 && s1[leaf].LeafV?
    requires s1[leaf].next == s0[leaf].next && s1[leaf].prev == s0[leaf].prev
    requires forall p :: p in s0 && p != leaf ==> p in s1 && s1[p] == s0[p]
    ensures Chain(s1, ids)
  {
    forall i | 0 <= i < |ids| ensures SameLinks(s0, s1, ids[i]) {
      ChainLeaf(s0, ids, i);
    }
    ChainFrame(s0, s1, ids);
  }

  // ---- the chain as a list of records -----------------------------------------------------------------

  function LeafRecs(s: Store, p: nat): seq<Rec> {
    if p in s && s[p].LeafV? then s[p].recs else []
  }

  /** the records of the leaves `ids`, one leaf after the other */
  function Gather(s: Store, ids: seq<nat>): seq<Rec> {
    if ids == [] then [] else LeafRecs(s, ids[0]) + Gather(s, ids[1..])
  }

  lemma {:induction false} GatherAppend(s: Store, a: seq<nat>, b: seq<nat>)
    ensures Gather(s, a + b) == Gather(s, a) + Gather(s, b)
  {
    if a == [] {
      assert a + b == b;
    } else {
      assert (a + b)[1..] == a[1..] + b;
      GatherAppend(s, a[1..], b);
    }
  }

  lemma {:induction false} GatherTree(s: Store, t: Tree)
    requires Holds(s, t)
    ensures Gather(s, LeafIds(t)) == Recs(t)
    decreases t, 0
  {
    match t
    case Leaf(_, _) => assert Gather(s, []) == [];
    case Branch(_, _, kids) => GatherForest(s, kids);
  }

  lemma {:induction false} GatherForest(s: Store, kids: seq<Tree>)
    requires forall i :: 0 <= i < |kids| ==> Holds(s, kids[i])
    ensures Gather(s, LeafIdsF(kids)) == RecsF(kids)
    decreases kids, 0
  {
    if kids != [] {
      GatherTree(s, kids[0]);
      GatherForest(s, kids[1..]);
      GatherAppend(s, LeafIds(kids[0]), LeafIdsF(kids[1..]));
    }
  }

  lemma GatherOne(s: Store, x: nat)
    ensures Gather(s, [x]) == LeafRecs(s, x)
  {
    assert [x][1..] == [];
  }

  lemma GatherAt(s: Store, ids: seq<nat>, n: nat)
    requires n < |ids|
    ensures Gather(s, ids) == Gather(s, ids[..n]) + LeafRecs(s, ids[n]) + Gather(s, ids[n + 1..])
    ensures Gather(s, ids[..n + 1]) == Gather(s, ids[..n]) + LeafRecs(s, ids[n])
  {
    hide Gather, LeafRecs;
    assert ids[..n + 1] == ids[..n] + [ids[n]];
    GatherAppend(s, ids[..n], [ids[n]]);
    GatherOne(s, ids[n]);
    assert ids == ids[..n + 1] + ids[n + 1..];
    GatherAppend(s, ids[..n + 1], ids[n + 1..]);
  }

  /** Walking the chain from its first leaf meets every record of the tree, in order. */
  lemma FileGathers(ord: nat, s: Store, f: seq<nat>, root: Root)
    requires FileShows(ord, s, f, root)
    ensures Gather(s, LeafIdsR(root)) == RecsR(root) && Sorted(RecsR(root))
    ensures Chain(s, LeafIdsR(root))
    ensures 0 in s && s[0].HeaderV? && s[0].hdr.count == |RecsR(root)| && s[0].hdr.firstLeaf == At(LeafIdsR(root), 0)
  {
    if root.Root? {
      GatherTree(s, root.t);
    }
    RootSorted(ord, root);
  }

  /** An iterator on leaf number n, record pos, is on record i of the whole list; leaf page 0 is the end. */
  ghost predicate On(s: Store, ids: seq<nat>, n: nat, leafIdx: nat, pos: nat, i: nat) {
    if leafIdx == 0 then
      pos == 0 && i == |Gather(s, ids)|
    else
      OnLeaf(s, ids, n, leafIdx) && pos < |s[leafIdx].recs| && i == |Gather(s, ids[..n])| + pos
  }

  ghost predicate OnLeaf(s: Store, ids: seq<nat>, n: nat, leafIdx: nat) {
    && n < |ids| && ids[n] == leafIdx && leafIdx in s && s[leafIdx].LeafV?
    && s[leafIdx].next == At(ids, n + 1)
  }

  /** before empty leaves are skipped */
  ghost predicate Before(s: Store, ids: seq<nat>, n: nat, leafIdx: nat, i: nat) {
    leafIdx != 0 && OnLeaf(s, ids, n, leafIdx) && i == |Gather(s, ids[..n])|
  }

  lemma BeforeFirst(s: Store, ids: seq<nat>)
    requires Chain(s, ids) && At(ids, 0) != 0
    ensures Before(s, ids, 0, At(ids, 0), 0)
  {
    assert Linked(s, ids, 0);
  }

  /** leaf n is done with: its last record is behind, or it has none */
  lemma BeforeNext(s: Store, ids: seq<nat>, n: nat, leafIdx: nat)
    requires Chain(s, ids) && 0 in s && !s[0].LeafV? && OnLeaf(s, ids, n, leafIdx)
    ensures s[leafIdx].next != 0 ==> Before(s, ids, n + 1, s[leafIdx].next, |Gather(s, ids[..n])| + |s[leafIdx].recs|)
    ensures s[leafIdx].next == 0 ==> On(s, ids, n, 0, 0, |Gather(s, ids[..n])| + |s[leafIdx].recs|)
  {
    GatherAt(s, ids, n);
    if n + 1 < |ids| {
      assert Linked(s, ids, n + 1);
    } else {
      assert Gather(s, ids[n + 1..]) == [];
    }
  }

  /** what the iterator shows there */
  lemma OnRecord(s: Store, ids: seq<nat>, n: nat, leafIdx: nat, pos: nat, i: nat)
    requires On(s, ids, n, leafIdx, pos, i) && leafIdx != 0
    ensures i < |Gather(s, ids)| && leafIdx in s && s[leafIdx].LeafV? && pos < |s[leafIdx].recs|
    ensures Gather(s, ids)[i] == s[leafIdx].recs[pos]
  {
    GatherAt(s, ids, n);
  }

  lemma OnEnd(s: Store, ids: seq<nat>, n: nat, pos: nat, i: nat)
    requires On(s, ids, n, 0, pos, i)
    ensures i == |Gather(s, ids)|
  {
  }

  lemma AtEnd(s: Store, ids: seq<nat>, n: nat, none: bool)
    requires if none then |Gather(s, ids)| == 0 else Chain(s, ids) && 0 in s && !s[0].LeafV? && At(ids, 0) == 0
    ensures On(s, ids, n, 0, 0, 0)
  {
    if !none {
      ChainHead(s, ids);
    }
  }

  lemma ChainHead(s: Store, ids: seq<nat>)
    requires Chain(s, ids) && 0 in s && !s[0].LeafV?
    ensures At(ids, 0) == 0 ==> ids == []
  {
    if ids != [] {
      assert Linked(s, ids, 0);
    }
  }

  lemma OnFacts(s: Store, ids: seq<nat>, n: nat, leafIdx: nat, pos: nat, i: nat)
    requires On(s, ids, n, leafIdx, pos, i) && leafIdx != 0
    ensures leafIdx in s && s[leafIdx].LeafV? && pos < |s[leafIdx].recs|
  {
  }

  lemma OnInside(s: Store, ids: seq<nat>, n: nat, leafIdx: nat, pos: nat, i: nat)
    requires On(s, ids, n, leafIdx, pos, i) && leafIdx != 0 && pos + 1 < |s[leafIdx].recs|
    ensures On(s, ids, n, leafIdx, pos + 1, i + 1)
  {
  }

  lemma OnLast(s: Store, ids: seq<nat>, n: nat, leafIdx: nat, pos: nat, i: nat)
    requires On(s, ids, n, leafIdx, pos, i) && leafIdx != 0 && pos + 1 >= |s[leafIdx].recs|
    requires Chain(s, ids) && 0 in s && !s[0].LeafV?
    ensures s[leafIdx].next == 0 ==> On(s, ids, n, 0, 0, i + 1)
    ensures s[leafIdx].next != 0 ==> Before(s, ids, n + 1, s[leafIdx].next, i + 1) && s[leafIdx].next in s
  {
    hide Chain, Gather;
    BeforeNext(s, ids, n, leafIdx);
  }

  lemma BeforeSkip(s: Store, ids: seq<nat>, n: nat, leafIdx: nat, i: nat)
    requires Before(s, ids, n, leafIdx, i) && |s[leafIdx].recs| == 0
    requires Chain(s, ids) && 0 in s && !s[0].LeafV?
    ensures s[leafIdx].next == 0 ==> On(s, ids, n, 0, 0, i)
    ensures s[leafIdx].next != 0 ==> Before(s, ids, n + 1, s[leafIdx].next, i) && s[leafIdx].next in s
  {
    hide Chain, Gather;
    BeforeNext(s, ids, n, leafIdx);
  }

  lemma BeforeFacts(s: Store, ids: seq<nat>, n: nat, leafIdx: nat, i: nat)
    requires Before(s, ids, n, leafIdx, i)
    ensures leafIdx != 0 && leafIdx in s && s[leafIdx].LeafV? && n < |ids|
  {
  }

  lemma BeforeOn(s: Store, ids: seq<nat>, n: nat, leafIdx: nat, i: nat)
    requires Before(s, ids, n, leafIdx, i) && leafIdx in s && s[leafIdx].LeafV? && |s[leafIdx].recs| > 0
    ensures On(s, ids, n, leafIdx, 0, i)
  {
  }
}
