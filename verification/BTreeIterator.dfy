/** Walking over a tree in key order. */
module BTreeIterator {
  import opened BTreeModel
  import opened BTreeMap
  import opened BTreeRoot
  import opened BTreePage
  import opened BTreeStore
  import opened BTreeFile
  import opened BTreeTop
  import opened BTreeLookup
  import opened BTree
  import opened BTreePager

  /** A position in a tree that is not modified meanwhile. Page 0 stands for the end; otherwise the
      iterator holds on to its leaf's page. */
  class Iterator {
    const tree: BTree
    var leafIdx: nat
    var pos: nat
    var leaf: Page?
    ghost var n: nat

    /** the iterator stands on record number i of the tree, or at the end */
    ghost predicate Stands(i: nat)
      reads this, tree, tree.pager, tree.pager.Repr
    {
      && Holding()
      && On(tree.pager.store, LeafIdsR(tree.root), n, leafIdx, pos, i)
    }

    ghost predicate Holding()
      reads this, tree, tree.pager, tree.pager.Repr
    {
      && tree.Valid() && this !in tree.pager.Repr
      && (leafIdx != 0 ==> leaf != null && tree.pager.Is(leafIdx, leaf) && leaf in tree.pager.Repr)
    }

    /** the end of a tree */
    constructor (tree: BTree)
      requires tree.Valid()
      ensures this.tree == tree && Holding() && leafIdx == 0 && pos == 0
    {
      this.tree := tree;
      leafIdx, pos, leaf, n := 0, 0, null, 0;
    }

    /** goes to the first record, if there is one */
    method ToFirst()
      requires Holding() && leafIdx == 0 && pos == 0
      modifies this, tree.pager.Repr
      ensures Stands(0)
      ensures tree.pager.Repr == old(tree.pager.Repr) && tree.pager.store == old(tree.pager.store)
              && tree.pager.free == old(tree.pager.free)
    {
      hide FileShows, Pool, On, Before, Gather, Chain;
      ghost var s, ids := tree.pager.store, LeafIdsR(tree.root);
      FileGathers(tree.pager.order, s, tree.pager.free, tree.root);
      var header := tree.pager.Fetch(0);
      assert HeaderV(header.hdr) == s[0];
      if header.hdr.count == 0 || header.hdr.firstLeaf == 0 {
        AtEnd(s, ids, n, header.hdr.count == 0);
      } else {
        BeforeFirst(s, ids);
        BeforeFacts(s, ids, 0, header.hdr.firstLeaf, 0);
        MoveTo(header.hdr.firstLeaf, 0);
        SkipToNonempty(0);
      }
    }

    /** takes hold of a leaf, on its first record */
    method MoveTo(idx: nat, ghost m: nat)
      requires tree.Valid() && this !in tree.pager.Repr && idx in tree.pager.store && idx != 0
      modifies this, tree.pager.Repr
      ensures Holding() && leafIdx == idx && pos == 0 && n == m
      ensures tree.pager.Repr == old(tree.pager.Repr) && tree.pager.store == old(tree.pager.store)
              && tree.pager.free == old(tree.pager.free)
    {
      hide FileShows, Pool;
      leaf := tree.pager.Fetch(idx);
      leafIdx, pos, n := idx, 0, m;
    }

    /** becomes the end */
    method Finish()
      requires Holding()
      modifies this
      ensures Holding() && leafIdx == 0 && pos == 0 && n == old(n)
    {
      leafIdx, pos, leaf := 0, 0, null;
    }

    method Links() returns (next: nat, count: nat)
      requires Holding() && leafIdx != 0 && leafIdx in tree.pager.store && tree.pager.store[leafIdx].LeafV?
      ensures next == tree.pager.store[leafIdx].next && count == |tree.pager.store[leafIdx].recs|
    {
      hide FileShows, Pool;
      HandleShows(tree.pager, leafIdx, leaf);
      assert LeafV(leaf.records[..leaf.count], leaf.nextPage, leaf.prevPage) == tree.pager.store[leafIdx];
      next, count := leaf.nextPage, leaf.count;
    }

    /** moves on over empty leaves, or becomes the end */
    method SkipToNonempty(ghost i: nat)
      requires Holding() && pos == 0 && Before(tree.pager.store, LeafIdsR(tree.root), n, leafIdx, i)
      modifies this, tree.pager.Repr
      ensures Stands(i)
      ensures tree.pager.Repr == old(tree.pager.Repr) && tree.pager.store == old(tree.pager.store)
              && tree.pager.free == old(tree.pager.free)
    {
      hide FileShows, Pool, On, OnLeaf, Before, Gather, Chain;
      ghost var s, ids, f := tree.pager.store, LeafIdsR(tree.root), tree.pager.free;
      FileGathers(tree.pager.order, s, f, tree.root);
      BeforeFacts(s, ids, n, leafIdx, i);
      var next, count := Links();
      while count == 0
        invariant Holding() && pos == 0 && tree.pager.Repr == old(tree.pager.Repr)
        invariant tree.pager.store == s && tree.pager.free == f && tree.root == old(tree.root)
        invariant Before(s, ids, n, leafIdx, i) && n < |ids|
        invariant leafIdx in s && s[leafIdx].LeafV? && next == s[leafIdx].next && count == |s[leafIdx].recs|
        decreases |ids| - n
      {
        BeforeSkip(s, ids, n, leafIdx, i);
        if next == 0 {
          Finish();
          return;
        }
        MoveTo(next, n + 1);
        BeforeFacts(s, ids, n, leafIdx, i);
        next, count := Links();
      }
      BeforeOn(s, ids, n, leafIdx, i);
    }

    /** the record the iterator stands on */
    method Get(ghost i: nat) returns (r: Rec)
      requires Stands(i) && leafIdx != 0
      ensures i < |RecsR(tree.root)| && r == RecsR(tree.root)[i]
    {
      hide FileShows, Pool, On, Gather, Chain;
      ghost var s, ids := tree.pager.store, LeafIdsR(tree.root);
      FileGathers(tree.pager.order, s, tree.pager.free, tree.root);
      OnRecord(s, ids, n, leafIdx, pos, i);
      HandleShows(tree.pager, leafIdx, leaf);
      assert LeafV(leaf.records[..leaf.count], leaf.nextPage, leaf.prevPage) == s[leafIdx];
      r := leaf.records[pos];
      assert r == s[leafIdx].recs[pos];
    }

    /** moves on to the next record */
    method Next(ghost i: nat)
      requires Stands(i) && leafIdx != 0
      modifies this, tree.pager.Repr
      ensures Stands(i + 1)
      ensures tree.pager.Repr == old(tree.pager.Repr) && tree.pager.store == old(tree.pager.store)
              && tree.pager.free == old(tree.pager.free)
    {
      hide FileShows, Pool, On, OnLeaf, Before, Gather, Chain;
      ghost var s, ids := tree.pager.store, LeafIdsR(tree.root);
      FileGathers(tree.pager.order, s, tree.pager.free, tree.root);
      OnFacts(s, ids, n, leafIdx, pos, i);
      var next, count := Links();
      pos := pos + 1;
      if pos >= count {
        OnLast(s, ids, n, leafIdx, pos - 1, i);
        if next == 0 {
          Finish();
          return;
        }
        MoveTo(next, n + 1);
        SkipToNonempty(i + 1);
      } else {
        OnInside(s, ids, n, leafIdx, pos - 1, i);
      }
    }
  }

  /** From begin to end: every record of the tree, once, in strictly ascending key order. */
  method Traverse(tree: BTree) returns (out: seq<Rec>)
    requires tree.Valid()
    modifies tree.pager.Repr
    ensures tree.Valid() && tree.pager.Repr == old(tree.pager.Repr) && tree.root == old(tree.root)
    ensures Sorted(out) && ToMap(out) == tree.Map() && |out| == |tree.Map()|
  {
    hide FileShows, Pool, On, Gather, Chain, Sorted, ToMap, ValidRoot;
    ghost var r0 := tree.root;
    out := [];
    FileValid(tree.pager.order, tree.pager.store, tree.pager.free, tree.root);
    RootSorted(tree.pager.order, tree.root);
    var it := new Iterator(tree);
    it.ToFirst();
    while it.leafIdx != 0
      invariant it.tree == tree && tree.root == r0 && fresh(it) && tree.pager.Repr == old(tree.pager.Repr)
      invariant it.Stands(|out|) && |out| <= |RecsR(r0)| && out == RecsR(r0)[..|out|]
      decreases |RecsR(r0)| - |out|
    {
      var r := it.Get(|out|);
      it.Next(|out|);
      out := out + [r];
    }
    FileGathers(tree.pager.order, tree.pager.store, tree.pager.free, tree.root);
    OnEnd(tree.pager.store, LeafIdsR(tree.root), it.n, it.pos, |out|);
    assert RecsR(r0)[..|out|] == RecsR(r0);
  }

  /** a handle shows what the file says of its page */
  lemma HandleShows(pager: Pager, idx: nat, p: Page)
    requires pager.Valid() && pager.Is(idx, p)
    ensures idx in pager.store && p.Shows(pager.store[idx], pager.order)
  {
    assert pager.Owns(idx) && pager.Shown(idx, pager.store[idx]);
  }
}
