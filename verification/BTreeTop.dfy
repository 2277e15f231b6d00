/** The public modifiers, page write by page write: after each the file spells out the new tree. */
module BTreeTop {
  import opened BTreeModel
  import opened BTreeInsert
  import opened BTreeErase
  import opened BTreeMap
  import opened BTreeRoot
  import opened BTreePage
  import opened BTreeStore
  import opened BTreeFile
  import opened BTreeInsertSteps
  import opened BTreeEraseSteps

  lemma Rebalance(p0: multiset<nat>, ids: multiset<nat>, f0: multiset<nat>, f1: multiset<nat>, k0: multiset<nat>,
                  k1: multiset<nat>, z: multiset<nat>)
    requires p0 + f0 + z == k0 && k0 + ids + f1 == k1 + f0
    ensures (p0 + ids) + f1 + z == k1
  {
    forall p ensures ((p0 + ids) + f1 + z)[p] == k1[p] {
      assert (p0 + f0 + z)[p] == k0[p] && (k0 + ids + f1)[p] == (k1 + f0)[p];
    }
  }

  /** Pages taken for new nodes keep every page accounted for. */
  lemma InsertedConserves(ord: nat, s0: Store, f0: seq<nat>, s1: Store, f1: seq<nat>, root: Root, k: int, v: Value,
                          ids: seq<nat>)
    requires 2 <= ord && FileShows(ord, s0, f0, root) && Took(s0, f0, s1, f1, ids) && |ids| == Needed(ord, root, k)
    ensures PagesR(Inserted(ord, root, k, v, ids)) + multiset(f1) + multiset{0} == multiset(s1.Keys)
  {
    InsertedPages(ord, root, k, v, ids);
    Rebalance(PagesR(root), multiset(ids), multiset(f0), multiset(f1), multiset(s0.Keys), multiset(s1.Keys),
              multiset{0});
  }

  lemma HoldsHeader(s1: Store, s2: Store, t: Tree, h: Header)
    requires Holds(s1, t) && 0 in s1 && s1[0].HeaderV? && s2 == s1[0 := HeaderV(h)]
    ensures Holds(s2, t)
  {
    if 0 in Pages(t) {
      HoldsKinds(s1, t, 0);
    }
    HoldsElsewhere(s1, s2, t, 0);
  }

  lemma PoolHeader(s1: Store, s2: Store, f: seq<nat>, h: Header)
    requires Pool(s1, f) && s2 == s1[0 := HeaderV(h)] && h.freeHead == s1[0].hdr.freeHead
             && h.freeCount == s1[0].hdr.freeCount
    ensures Pool(s2, f)
  {
  }

  // ---- insertion ------------------------------------------------------------------------------------

  /** the first record of an empty tree */
  lemma FirstInserted(ord: nat, s0: Store, f0: seq<nat>, s1: Store, f1: seq<nat>, s2: Store, idx: nat, k: int, v: Value)
    requires 2 <= ord && FileShows(ord, s0, f0, NoRoot)
    requires Pool(s1, f1) && Took(s0, f0, s1, f1, [idx]) && SameTreeFields(s0, s1) && idx in s1 && s1[idx].FreeV?
             && idx !in f1
    requires s2 == s1[idx := LeafV([Rec(k, v)], 0,
                                   0)][0 := HeaderV(Header(idx, idx, 1, 1, s1[0].hdr.freeHead, s1[0].hdr.freeCount))]
    ensures InsertDone(ord, s0, f0, s2, f1, NoRoot, k, v, [idx], true, Inserted(ord, NoRoot, k, v, [idx]))
  {
    var root := Inserted(ord, NoRoot, k, v, [idx]);
    assert root == Root(Leaf(idx, [Rec(k, v)]), 1);
    assert ValidRoot(ord, root) by {
      InsertedValid(ord, NoRoot, k, v, [idx]);
    }
    assert PagesR(root) + multiset(f1) + multiset{0} == multiset(s2.Keys) by {
      InsertedConserves(ord, s0, f0, s1, f1, NoRoot, k, v, [idx]);
      assert s2.Keys == s1.Keys;
    }
    FirstHolds(s1, f1, s2, idx, k, v);
    assert s2.Keys == s1.Keys;
  }

  lemma FirstHolds(s1: Store, f1: seq<nat>, s2: Store, idx: nat, k: int, v: Value)
    requires Pool(s1, f1) && idx in s1 && s1[idx].FreeV? && idx !in f1
    requires s2 == s1[idx := LeafV([Rec(k, v)], 0,
                                   0)][0 := HeaderV(Header(idx, idx, 1, 1, s1[0].hdr.freeHead, s1[0].hdr.freeCount))]
    ensures Pool(s2, f1) && Holds(s2, Leaf(idx, [Rec(k, v)])) && Chain(s2, [idx])
  {
    assert Linked(s2, [idx], 0);
  }

  /** page 0 is never the root's page */
  lemma RootIdx(ord: nat, s: Store, f: seq<nat>, root: Root)
    requires FileShows(ord, s, f, root)
    ensures 0 in s && s[0].HeaderV?
    ensures root.Root? ==> s[0].hdr.root == root.t.idx != 0
    ensures root.NoRoot? ==> s[0].hdr.root == 0
  {
    if root.Root? {
      HoldsKinds(s, root.t, root.t.idx);
    }
  }

  lemma RootReady(ord: nat, s: Store, f: seq<nat>, root: Root)
    requires 2 <= ord && FileShows(ord, s, f, root) && root.Root?
    ensures NodeReady(ord, s, root.t, root.h, None, None, [], [])
    ensures Balanced(root.t, root.h)
    ensures forall k :: Within(k, None, None)
  {
    FileNoTwice(ord, s, f, root);
    assert [] + LeafIds(root.t) + [] == LeafIds(root.t);
  }

  /** facts about the header after an insertion below the root */
  lemma InsertedHeader(ord: nat, root: Root, k: int, v: Value, ids: seq<nat>)
    requires 2 <= ord && ValidRoot(ord, root) && root.Root? && |ids| == Needed(ord, root, k)
    ensures var g := Grow(ord, root.t, root.h, k, v, ids);
            var r := Inserted(ord, root, k, v, ids);
            && |RecsR(r)| == |RecsR(root)| + (if g.inserted then 1 else 0)
            && At(LeafIdsR(r), 0) == At(LeafIdsR(root), 0)
            && LeafIdsR(r) == LeafIdsG(g)
            && g.node.idx == root.t.idx
            && (g.split.Some? ==> g.inserted && |ids| == root.h + 1)
            && (g.split.None? ==> |ids| == Splits(ord, root.t, root.h, k))
  {
    InsertedContents(ord, root, k, v, ids);
    GrowFirst(ord, root.t, root.h, k, v, ids, None, None);
    GrowIdx(ord, root.t, root.h, k, v, ids);
    SplitsUpward(ord, root.t, root.h, k, v, ids);
    GrowRecs(ord, root.t, root.h, k, v, ids, None, None);
    if !Grow(ord, root.t, root.h, k, v, ids).inserted {
      GrowMiss(ord, root.t, root.h, k, v, ids);
    }
  }

  /** what the new tree needs of the file that is to spell it out */
  ghost predicate NewTree(ord: nat, old_: Root, new_: Root, grown: nat, keys: set<nat>, f: seq<nat>) {
    && old_.Root? && new_.Root? && ValidRoot(ord, new_)
    && |RecsR(new_)| == |RecsR(old_)| + grown
    && At(LeafIdsR(new_), 0) == At(LeafIdsR(old_), 0)
    && PagesR(new_) + multiset(f) + multiset{0} == multiset(keys)
  }

  lemma InsertedTree(ord: nat, s0: Store, f0: seq<nat>, s1: Store, f1: seq<nat>, root: Root, k: int, v: Value,
                     ids: seq<nat>)
    requires 2 <= ord && FileShows(ord, s0, f0, root) && root.Root? && |ids| == Needed(ord, root, k)
             && Took(s0, f0, s1, f1, ids)
    ensures NewTree(ord, root, Inserted(ord, root, k, v, ids), if Grow(ord, root.t, root.h, k, v, ids).inserted then 1
                    else 0, s1.Keys, f1)
  {
    InsertedHeader(ord, root, k, v, ids);
    InsertedConserves(ord, s0, f0, s1, f1, root, k, v, ids);
    InsertedValid(ord, root, k, v, ids);
  }

  lemma UnsplitFile(ord: nat, s1: Store, f1: seq<nat>, s2: Store, root: Root, n: Tree, grown: nat)
    requires root.Root? && NewTree(ord, root, Root(n, root.h), grown, s1.Keys, f1) && n.idx == root.t.idx
    requires Pool(s1, f1) && Holds(s1, n) && Chain(s1, [] + LeafIds(n) + []) && HeaderShows(s1[0].hdr, root)
    requires s2 == s1[0 := HeaderV(s1[0].hdr.(count := s1[0].hdr.count + grown))]
    ensures FileShows(ord, s2, f1, Root(n, root.h))
  {
    hide FreeList, Chain, Holds, ValidRoot, Pages, LeafIds, Recs;
    assert s2.Keys == s1.Keys;
    assert [] + LeafIds(n) + [] == LeafIds(n);
    ChainElsewhere(s1, s2, LeafIds(n));
    HoldsHeader(s1, s2, n, s2[0].hdr);
    PoolHeader(s1, s2, f1, s2[0].hdr);
  }

  lemma RootUnsplit(ord: nat, s0: Store, f0: seq<nat>, s1: Store, f1: seq<nat>, s2: Store, root: Root, k: int,
                    v: Value, ids: seq<nat>, g: Grown)
    requires 2 <= ord && FileShows(ord, s0, f0, root) && root.Root? && |ids| == Needed(ord, root, k)
    requires g == Grow(ord, root.t, root.h, k, v, ids) && g.split.None?
    requires GrownFile(s0, f0, s1, f1, Pages(root.t), [], [], g, ids)
    requires s2 == s1[0 := HeaderV(s1[0].hdr.(count := s1[0].hdr.count + if g.inserted then 1 else 0))]
    ensures FileShows(ord, s2, f1, Inserted(ord, root, k, v, ids))
  {
    hide Grow, Holds, Chain, FreeList, Pages, Recs, LeafIds, OnlyTouched, WF, Balanced, Took, Splits;
    InsertedTree(ord, s0, f0, s1, f1, root, k, v, ids);
    GrowIdx(ord, root.t, root.h, k, v, ids);
    UnsplitFile(ord, s1, f1, s2, root, g.node, if g.inserted then 1 else 0);
  }

  /** The file once the root has split and the new root is written. */
  ghost predicate RootSplitTo(s1: Store, f1: seq<nat>, s3: Store, f3: seq<nat>, s4: Store, r: nat, sep: int,
                              left: nat, right: nat) {
    && Pool(s3, f3) && Took(s1, f1, s3, f3, [r]) && SameTreeFields(s1, s3) && r in s3 && s3[r].FreeV? && r !in f3
    && (forall q :: q in s1 && q != 0 ==> q in s3 && s3[q] == s1[q])
    && s4 == s3[r := BranchV([sep], [left, right])]
               [0 := HeaderV(s3[0].hdr.(root := r, height := s3[0].hdr.height + 1, count := s3[0].hdr.count + 1))]
  }

  lemma RootSplitPool(s1: Store, f1: seq<nat>, s3: Store, f3: seq<nat>, s4: Store, r: nat, sep: int, left: nat,
                      right: nat)
    requires RootSplitTo(s1, f1, s3, f3, s4, r, sep, left, right)
    ensures Pool(s4, f3) && s4.Keys == s3.Keys && r != 0 && (r in s1 ==> s1[r].FreeV?)
  {
    assert [r][0] == r;
  }

  lemma SplitFile(ord: nat, s1: Store, f1: seq<nat>, s3: Store, f3: seq<nat>, s4: Store, root: Root, root': Root,
                  r: nat, g: Grown)
    requires root.Root? && g.split.Some? && g.node.idx == root.t.idx && LeafIdsR(root') == LeafIdsG(g)
    requires NewTree(ord, root, root', 1, s3.Keys, f3)
    requires root' == Root(Branch(r, [g.split.value.0], [g.node, g.split.value.1]), root.h + 1)
    requires Pool(s1, f1) && Holds(s1, g.node) && Holds(s1, g.split.value.1) && Chain(s1, [] + LeafIdsG(g) + [])
    requires HeaderShows(s1[0].hdr, root)
    requires RootSplitTo(s1, f1, s3, f3, s4, r, g.split.value.0, root.t.idx, g.split.value.1.idx)
    ensures FileShows(ord, s4, f3, root')
  {
    RootSplitPool(s1, f1, s3, f3, s4, r, g.split.value.0, root.t.idx, g.split.value.1.idx);
    assert [] + LeafIdsG(g) + [] == LeafIdsG(g);
    ChainElsewhere(s1, s4, LeafIdsG(g));
    NewRootHolds(s1, s3, s4, r, g, root.t.idx);
  }

  /** the new root over the two halves of the old one */
  lemma RootSplit(ord: nat, s0: Store, f0: seq<nat>, s1: Store, f1: seq<nat>, s3: Store, f3: seq<nat>, s4: Store,
                  root: Root, k: int, v: Value, ids: seq<nat>, r: nat, g: Grown)
    requires 2 <= ord && FileShows(ord, s0, f0, root) && root.Root? && |ids| == Splits(ord, root.t, root.h, k) == root.h
    requires g == Grow(ord, root.t, root.h, k, v, ids) && g.split.Some?
    requires GrownFile(s0, f0, s1, f1, Pages(root.t), [], [], g, ids)
    requires RootSplitTo(s1, f1, s3, f3, s4, r, g.split.value.0, root.t.idx, g.split.value.1.idx)
    ensures FileShows(ord, s4, f3, Inserted(ord, root, k, v, ids + [r])) && Took(s0, f0, s4, f3, ids + [r])
  {
    hide Grow, Holds, Chain, FreeList, Pages, Recs, LeafIds, OnlyTouched, WF, Balanced, Took, Splits;
    var ids' := ids + [r];
    RootSplitPool(s1, f1, s3, f3, s4, r, g.split.value.0, root.t.idx, g.split.value.1.idx);
    TookMore(s0, f0, s1, f1, s3, f3, ids, r);
    TookSameKeys(s0, f0, s3, s4, f3, ids');
    GrowMore(ord, root.t, root.h, k, v, ids, [r]);
    InsertedTree(ord, s0, f0, s3, f3, root, k, v, ids');
    InsertedHeader(ord, root, k, v, ids');
    SplitFile(ord, s1, f1, s3, f3, s4, root, Inserted(ord, root, k, v, ids'), r, g);
  }

  /** An insertion below the root has been done in the file, and the node at the root says what came of it. */
  ghost predicate GrownBelow(ord: nat, s0: Store, f0: seq<nat>, s1: Store, f1: seq<nat>, root: Root, k: int, v: Value,
                             ids: seq<nat>, inserted: bool, split: bool, sep: int, right: nat) {
    && 2 <= ord && FileShows(ord, s0, f0, root) && root.Root? && |ids| == Splits(ord, root.t, root.h, k)
    && 0 in s1 && s1[0].HeaderV?
    && var g := Grow(ord, root.t, root.h, k, v, ids);
       && inserted == g.inserted && split == g.split.Some?
       && (split ==> sep == g.split.value.0 && right == g.split.value.1.idx)
       && GrownFile(s0, f0, s1, f1, Pages(root.t), [], [], g, ids)
  }

  /** The whole insertion has been done. */
  ghost predicate InsertDone(ord: nat, s0: Store, f0: seq<nat>, s1: Store, f1: seq<nat>, root: Root, k: int, v: Value,
                             ids: seq<nat>, inserted: bool, root': Root) {
    && 2 <= ord && ValidRoot(ord, root) && |ids| == Needed(ord, root, k)
    && root' == Inserted(ord, root, k, v, ids) && FileShows(ord, s1, f1, root')
    && inserted == (k !in Contents(root))
    && (!inserted ==> root' == root)
    && Took(s0, f0, s1, f1, ids)
  }

  /** What that means for a caller. */
  lemma InsertMeans(ord: nat, s0: Store, f0: seq<nat>, s1: Store, f1: seq<nat>, root: Root, k: int, v: Value,
                    ids: seq<nat>, inserted: bool, root': Root)
    requires FileShows(ord, s0, f0, root) && InsertDone(ord, s0, f0, s1, f1, root, k, v, ids, inserted, root')
    ensures !inserted ==> s1 == s0 && f1 == f0
    ensures 2 <= ord && (root.Root? ==> Balanced(root.t, root.h)) && |ids| == Needed(ord, root, k)
    ensures root' == Inserted(ord, root, k, v, ids) && (!inserted ==> root' == root)
    ensures inserted == (k !in Contents(root))
    ensures Contents(root') == if inserted then Contents(root)[k := v] else Contents(root)
    ensures Took(s0, f0, s1, f1, ids)
    ensures DenseRoot(ord, root) ==> DenseRoot(ord, root')
  {
    InsertedContents(ord, root, k, v, ids);
    if DenseRoot(ord, root) {
      InsertedDense(ord, root, k, v, ids);
    }
    if !inserted {
      NothingInserted(ord, s0, f0, s1, f1, root, k, v, ids);
    }
  }

  /** A duplicate leaves every page as it was. */
  lemma NothingInserted(ord: nat, s0: Store, f0: seq<nat>, s1: Store, f1: seq<nat>, root: Root, k: int, v: Value,
                        ids: seq<nat>)
    requires 2 <= ord && FileShows(ord, s0, f0, root) && FileShows(ord, s1, f1, root) && k in Contents(root)
    requires Took(s0, f0, s1, f1, ids) && |ids| == Needed(ord, root, k)
    ensures s1 == s0 && f1 == f0
  {
    hide FileShows, Contents, Recs, WF, Took;
    FileValid(ord, s0, f0, root);
    NoneNeeded(ord, root, k, v, ids);
    TookNothing(s0, f0, s1, f1, ids);
    FileDetermined(ord, s0, s1, f0, root);
  }

  lemma FileValid(ord: nat, s: Store, f: seq<nat>, root: Root)
    requires FileShows(ord, s, f, root)
    ensures ValidRoot(ord, root)
  {
  }

  lemma TookNothing(s0: Store, f0: seq<nat>, s1: Store, f1: seq<nat>, ids: seq<nat>)
    requires Took(s0, f0, s1, f1, ids) && ids == []
    ensures f1 == f0
  {
  }

  lemma NoneNeeded(ord: nat, root: Root, k: int, v: Value, ids: seq<nat>)
    requires 2 <= ord && ValidRoot(ord, root) && k in Contents(root)
    ensures Needed(ord, root, k) == 0
  {
    InsertedContents(ord, root, k, v, ids);
    if root.Root? {
      GrowMiss(ord, root.t, root.h, k, v, ids);
    }
  }

  lemma InsertedAnswer(ord: nat, root: Root, k: int, v: Value, ids: seq<nat>)
    requires 2 <= ord && ValidRoot(ord, root) && root.Root?
    ensures Grow(ord, root.t, root.h, k, v, ids).inserted == (k !in Contents(root))
    ensures k in Contents(root) ==> Inserted(ord, root, k, v, ids) == root
  {
    InsertedContents(ord, root, k, v, ids);
    if k in Contents(root) {
      GrowMiss(ord, root.t, root.h, k, v, ids);
    }
  }

  lemma GrownBelowRoot(ord: nat, s0: Store, f0: seq<nat>, s1: Store, f1: seq<nat>, root: Root, k: int, v: Value,
                       ids: seq<nat>, inserted: bool, split: bool, sep: int, right: nat)
    requires 2 <= ord && FileShows(ord, s0, f0, root) && root.Root? && Balanced(root.t, root.h)
    requires NodeDone(ord, s0, f0, s1, f1, root.t, root.h, k, v, [], [], inserted, split, sep, right, ids)
    ensures GrownBelow(ord, s0, f0, s1, f1, root, k, v, ids, inserted, split, sep, right)
  {
  }

  lemma GrownHeader(ord: nat, s0: Store, f0: seq<nat>, s1: Store, f1: seq<nat>, root: Root, k: int, v: Value,
                    ids: seq<nat>, inserted: bool, split: bool, sep: int, right: nat)
    requires GrownBelow(ord, s0, f0, s1, f1, root, k, v, ids, inserted, split, sep, right)
    ensures 0 in s1 && s1[0].HeaderV?
  {
  }

  lemma InsertShows(ord: nat, s0: Store, f0: seq<nat>, s1: Store, f1: seq<nat>, root: Root, k: int, v: Value,
                    ids: seq<nat>, inserted: bool, root': Root)
    requires InsertDone(ord, s0, f0, s1, f1, root, k, v, ids, inserted, root')
    ensures FileShows(ord, s1, f1, root') && Pool(s1, f1)
  {
  }

  lemma TookHeader(s0: Store, f0: seq<nat>, s1: Store, f1: seq<nat>, idx: nat)
    requires Took(s0, f0, s1, f1, [idx]) && Pool(s1, f1)
    ensures idx != 0 && 0 in s1 && s1[0].HeaderV?
  {
    assert [idx][0] == idx;
  }

  lemma SplitDone(ord: nat, s0: Store, f0: seq<nat>, s1: Store, f1: seq<nat>, s3: Store, f3: seq<nat>, s4: Store,
                  root: Root, k: int, v: Value, ids: seq<nat>, inserted: bool, sep: int, right: nat, r: nat)
    requires GrownBelow(ord, s0, f0, s1, f1, root, k, v, ids, inserted, true, sep, right)
    requires RootSplitTo(s1, f1, s3, f3, s4, r, sep, root.t.idx, right)
    ensures ValidRoot(ord, root) && |ids + [r]| == Needed(ord, root, k)
    ensures InsertDone(ord, s0, f0, s4, f3, root, k, v, ids + [r], inserted, Inserted(ord, root, k, v, ids + [r]))
  {
    SplitsUpward(ord, root.t, root.h, k, v, ids);
    RootSplit(ord, s0, f0, s1, f1, s3, f3, s4, root, k, v, ids, r, Grow(ord, root.t, root.h, k, v, ids));
    GrowMore(ord, root.t, root.h, k, v, ids, [r]);
    InsertedAnswer(ord, root, k, v, ids + [r]);
  }

  lemma PlainDone(ord: nat, s0: Store, f0: seq<nat>, s1: Store, f1: seq<nat>, s2: Store,
                  root: Root, k: int, v: Value, ids: seq<nat>, inserted: bool, sep: int, right: nat)
    requires GrownBelow(ord, s0, f0, s1, f1, root, k, v, ids, inserted, false, sep, right)
    requires s2 == if inserted then s1[0 := HeaderV(s1[0].hdr.(count := s1[0].hdr.count + 1))] else s1
    ensures ValidRoot(ord, root) && |ids| == Needed(ord, root, k)
    ensures InsertDone(ord, s0, f0, s2, f1, root, k, v, ids, inserted, Inserted(ord, root, k, v, ids))
  {
    hide Grow, Splits, Pages, WF, Balanced, Contents, HeaderShows, FreeList, Chain, Holds, OnlyTouched;
    SplitsUpward(ord, root.t, root.h, k, v, ids);
    assert s2 == s1[0 := HeaderV(s1[0].hdr.(count := s1[0].hdr.count + if inserted then 1 else 0))];
    RootUnsplit(ord, s0, f0, s1, f1, s2, root, k, v, ids, Grow(ord, root.t, root.h, k, v, ids));
    assert s2.Keys == s1.Keys;
    InsertedAnswer(ord, root, k, v, ids);
  }

  lemma NewRootHolds(s1: Store, s3: Store, s4: Store, r: nat, g: Grown, idx: nat)
    requires 0 in s1 && s1[0].HeaderV? && (r in s1 ==> s1[r].FreeV?) && r != 0 && 0 in s3
    requires g.split.Some? && Holds(s1, g.node) && Holds(s1, g.split.value.1) && g.node.idx == idx
    requires forall q :: q in s1 && q != 0 && q != r ==> q in s4 && s4[q] == s1[q]
    requires r in s4 && s4[r] == BranchV([g.split.value.0], [idx, g.split.value.1.idx])
    ensures Holds(s4, Branch(r, [g.split.value.0], [g.node, g.split.value.1]))
  {
    var kids := [g.node, g.split.value.1];
    KidsApartFrom(s1, kids, r);
    forall i | 0 <= i < |kids| ensures 0 !in Pages(kids[i]) {
      if 0 in Pages(kids[i]) {
        HoldsKinds(s1, kids[i], 0);
      }
    }
    AllHoldElsewhere2(s1, s4, kids, 0, r);
    HoldsBranch(s4, r, [g.split.value.0], kids);
  }
}
