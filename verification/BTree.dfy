/** The B+ tree itself: a unique-key map kept in the pages of a file. */
module BTree {
  import opened BTreeModel
  import opened BTreeInsert
  import opened BTreeErase
  import opened BTreeMap
  import opened BTreeRoot
  import opened BTreePage
  import opened BTreeStore
  import opened BTreeFile
  import opened BTreeInsertSteps
  import opened BTreeEraseSteps
  import opened BTreePager
  import opened BTreeTop
  import opened BTreeShrinkTop
  import opened BTreeLookup

  class BTree {
    const pager: Pager
    ghost var root: Root

    ghost predicate Valid()
      reads this, pager, pager.Repr
    {
      pager.Ready() && this !in pager.Repr && FileShows(pager.order, pager.store, pager.free, root)
    }

    /** the map this tree stands for */
    ghost function Map(): map<int, Value>
      reads this
    {
      Contents(root)
    }

    /** an empty tree on an empty file */
    constructor (order: nat, cacheSize: nat)
      requires order >= 2 && cacheSize >= 1
      ensures Valid() && Map() == map[] && fresh(pager.Repr) && pager.order == order && root == NoRoot
    {
      pager := new Pager(order, cacheSize);
      root := NoRoot;
      new;
      var header := pager.Fetch(0);
      if header.kind != HeaderPage {
        pager.FormatHeader(header);
      }
      assert pager.store.Keys == {0};
    }

    // ---- insertion ---------------------------------------------------------------------------

    method InsertLeaf(idx: nat, key: int, value: Value, ghost t: Tree, ghost lo: Option<int>, ghost hi: Option<int>,
                      ghost pre: seq<nat>, ghost post: seq<nat>)
      returns (inserted: bool, split: bool, promo: int, right: nat, ghost ids: seq<nat>)
      requires pager.Ready() && t.Leaf? && t.idx == idx
      requires NodeReady(pager.order, pager.store, t, 1, lo, hi, pre, post)
      modifies pager.Repr
      ensures pager.Ready() && fresh(pager.Repr - old(pager.Repr))
      ensures NodeDone(pager.order, old(pager.store), old(pager.free), pager.store, pager.free, t, 1, key, value, pre,
                       post, inserted, split, promo, right, ids)
    {
      hide NodeReady, NodeDone, GrownFile, Chain, Pool, Grow, BTreeInsert.SplitLeaf, Pager.Owned, Pager.Shown,
           Pager.Cached;
      ghost var s0, f0 := pager.store, pager.free;
      LeafReady(pager.order, s0, t, lo, hi, pre, post);
      var leaf := pager.Fetch(idx);
      assert LeafV(leaf.records[..leaf.count], leaf.nextPage, leaf.prevPage) == s0[idx];
      var pos := leaf.LowerBound(key);
      if pos < leaf.count && leaf.records[pos].key == key {
        LeafHit(pager.order, s0, f0, t, key, value, pre, post);
        return false, false, key, 0, [];
      }
      if leaf.count < pager.order {
        pager.PutRecord(idx, leaf, pos, key, value);
        LeafAdded(pager.order, s0, f0, pager.store, t, key, value, pre, post);
        return true, false, key, 0, [];
      }
      right, promo, ids := HalveLeaf(idx, key, value, t, pre, post);
      LeafSplitDone(pager.order, s0, f0, pager.store, pager.free, t, key, value, pre, post, promo, right);
      return true, true, promo, right, ids;
    }

    /** a new leaf; `s` is the file after the page was taken and before it was formatted */
    method NewLeaf() returns (idx: nat, p: Page, ghost s: Store)
      requires pager.Ready()
      modifies pager.Repr
      ensures pager.Valid() && fresh(pager.Repr - old(pager.Repr)) && pager.Is(idx, p) && p.Parts() <= pager.Repr
      ensures Pool(s, pager.free) && Took(old(pager.store), old(pager.free), s, pager.free, [idx])
              && SameTreeFields(old(pager.store), s)
      ensures idx in s && s[idx].FreeV? && idx !in pager.free && pager.store == s[idx := LeafV([], 0, 0)]
      ensures forall q :: q in old(pager.store) && q != 0 ==> q in s && s[q] == old(pager.store)[q]
    {
      idx, p := pager.Allocate();
      s := pager.store;
      pager.FormatLeaf(idx, p);
    }

    /** moves the upper half of a full leaf to a new right sibling */
    method MoveUpperHalf(idx: nat, ridx: nat, r: Page)
      requires pager.Valid() && pager.Is(ridx, r) && r.Parts() <= pager.Repr && idx != ridx
      requires pager.store[ridx] == LeafV([], 0, 0)
      requires idx in pager.store && pager.store[idx].LeafV? && |pager.store[idx].recs| == pager.order
      modifies pager.Repr
      ensures pager.Valid() && pager.Repr == old(pager.Repr) && pager.pages == old(pager.pages)
              && pager.free == old(pager.free)
      ensures var s, m := old(pager.store), pager.order / 2;
              pager.store == s[ridx := LeafV(s[idx].recs[m..], 0, 0)][idx := s[idx].(recs := s[idx].recs[..m])]
    {
      var leaf := pager.Fetch(idx);
      pager.CopyUpperHalf(ridx, r, idx, leaf);
      pager.Truncate(idx, leaf, pager.order / 2);
    }

    /** links the leaf on page ridx in after the one on page idx */
    method LinkAfter(idx: nat, ridx: nat, r: Page)
      requires pager.Valid() && pager.Is(ridx, r) && r.Parts() <= pager.Repr && idx != ridx
      requires idx in pager.store && pager.store[idx].LeafV? && pager.store[ridx].LeafV?
      requires var n := pager.store[idx].next;
               n == 0 || (n in pager.store && pager.store[n].LeafV? && n != idx && n != ridx)
      modifies pager.Repr
      ensures pager.Valid() && pager.Repr == old(pager.Repr) && pager.pages == old(pager.pages)
              && pager.free == old(pager.free)
      ensures var s := old(pager.store);
              var n := s[idx].next;
              var s' := s[ridx := LeafV(s[ridx].recs, n, idx)][idx := LeafV(s[idx].recs, ridx, s[idx].prev)];
              pager.store == if n == 0 then s' else s'[n := LeafV(s[n].recs, s[n].next, ridx)]
    {
      var leaf := pager.Fetch(idx);
      var n, p := leaf.nextPage, leaf.prevPage;
      pager.PutLinks(ridx, r, n, idx);
      pager.PutLinks(idx, leaf, ridx, p);
      if n != 0 {
        var after := pager.Fetch(n);
        pager.PutLinks(n, after, after.nextPage, ridx);
      }
    }

    /** gives the upper half of a full leaf to a new right sibling */
    method SplitOff(idx: nat, ghost recs: seq<Rec>, ghost pre: seq<nat>, ghost post: seq<nat>)
      returns (ridx: nat, ghost s1: Store)
      requires pager.Ready() && Chain(pager.store, pre + [idx] + post)
      requires idx in pager.store && pager.store[idx].LeafV? && pager.store[idx].recs == recs && |recs| == pager.order
      modifies pager.Repr
      ensures pager.Valid() && fresh(pager.Repr - old(pager.Repr))
      ensures Pool(s1, pager.free) && Took(old(pager.store), old(pager.free), s1, pager.free, [ridx])
              && SameTreeFields(old(pager.store), s1)
      ensures ridx in s1 && s1[ridx].FreeV? && ridx !in pager.free && ridx != idx && idx != At(post, 0)
              && ridx != At(post, 0)
      ensures forall q :: q in old(pager.store) && q != 0 ==> q in s1 && s1[q] == old(pager.store)[q]
      ensures LeafSplitTo(s1, pager.store, pre, idx, ridx, post, recs[..pager.order / 2], recs[pager.order / 2..])
    {
      ghost var s0, m := pager.store, pager.order / 2;
      var r;
      ridx, r, s1 := NewLeaf();
      assert Chain(s1, pre + [idx] + post) by {
        ChainElsewhere(s0, s1, pre + [idx] + post);
      }
      LinksAt(s1, pre, idx, post);
      MoveUpperHalf(idx, ridx, r);
      if post != [] {
        NextLeaf(s1, pre, idx, post);
      }
      LinkAfter(idx, ridx, r);
      assert pager.store == Halved(s1, idx, ridx, recs[..m], recs[m..]) by {
        HalvedByWrites(s1, pager.store, idx, ridx, m);
      }
      LeafHalved(s1, pager.store, pre, idx, ridx, post, recs[..m], recs[m..]);
    }

    method HalveLeaf(idx: nat, key: int, value: Value, ghost t: Tree, ghost pre: seq<nat>, ghost post: seq<nat>)
      returns (ridx: nat, promo: int, ghost ids: seq<nat>)
      requires pager.Ready() && t.Leaf? && t.idx == idx && Holds(pager.store, t) && Sorted(t.recs)
               && |t.recs| == pager.order
      requires Chain(pager.store, pre + [idx] + post)
      modifies pager.Repr
      ensures pager.Ready() && fresh(pager.Repr - old(pager.Repr)) && ids == [ridx]
      ensures var g := BTreeInsert.SplitLeaf(pager.order, idx, t.recs, key, value, ridx);
              && promo == g.split.value.0
              && GrownFile(old(pager.store), old(pager.free), pager.store, pager.free, multiset{idx}, pre, post, g, ids)
    {
      ghost var s0, f0, m := pager.store, pager.free, pager.order / 2;
      ghost var lows, highs := t.recs[..m], t.recs[m..];
      ghost var s1;
      ridx, s1 := SplitOff(idx, t.recs, pre, post);
      ids := [ridx];
      ghost var s2 := pager.store;
      promo := PutInHalf(idx, ridx, key, value, lows, highs);
      ghost var g := BTreeInsert.SplitLeaf(pager.order, idx, t.recs, key, value, ridx);
      assert LeafSplitTo(s1, pager.store, pre, idx, ridx, post, g.node.recs, g.split.value.1.recs) by {
        if key < highs[0].key {
          LowsGrew(s1, s2, pager.store, pre, idx, ridx, post, lows, highs, g.node.recs);
        } else {
          HighsGrew(s1, s2, pager.store, pre, idx, ridx, post, lows, highs, g.split.value.1.recs);
        }
      }
      LeafSplit(s0, f0, s1, pager.free, pager.store, idx, ridx, g.node.recs, g.split.value.1.recs, promo, pre, post);
    }

    /** adds the record to the half it belongs to; the promoted key is the first one on the right */
    method PutInHalf(idx: nat, ridx: nat, key: int, value: Value, ghost lows: seq<Rec>, ghost highs: seq<Rec>)
      returns (promo: int)
      requires pager.Valid() && idx in pager.store && ridx in pager.store && idx != ridx
      requires pager.store[idx].LeafV? && pager.store[idx].recs == lows && pager.store[ridx].LeafV?
               && pager.store[ridx].recs == highs
      requires Sorted(lows) && Sorted(highs) && |lows| < pager.order && 0 < |highs| < pager.order
      modifies pager.Repr
      ensures pager.Valid() && pager.Repr == old(pager.Repr) && pager.pages == old(pager.pages)
              && pager.free == old(pager.free)
      ensures var s := old(pager.store);
              if key < highs[0].key then
                promo == highs[0].key && pager.store == s[idx := s[idx].(recs := InsertRec(lows, key, value))]
              else
                promo == InsertRec(highs, key, value)[0].key
                  && pager.store == s[ridx := s[ridx].(recs := InsertRec(highs, key, value))]
    {
      var r := pager.Fetch(ridx);
      if key < r.records[0].key {
        promo := r.records[0].key;
        PutSorted(idx, key, value);
      } else {
        PutSorted(ridx, key, value);
        r := pager.Fetch(ridx);
        promo := r.records[0].key;
      }
    }

    method PutSorted(idx: nat, key: int, value: Value)
      requires pager.Valid() && idx in pager.store && pager.store[idx].LeafV?
      requires Sorted(pager.store[idx].recs) && |pager.store[idx].recs| < pager.order
      modifies pager.Repr
      ensures pager.Valid() && pager.Repr == old(pager.Repr) && pager.pages == old(pager.pages)
              && pager.free == old(pager.free)
      ensures var s := old(pager.store);
              pager.store == s[idx := s[idx].(recs := InsertRec(s[idx].recs, key, value))]
    {
      var leaf := pager.Fetch(idx);
      var pos := leaf.LowerBound(key);
      pager.PutRecord(idx, leaf, pos, key, value);
    }

    /** inserts below the node on page idx, which spells out the tree t */
    method InsertNode(idx: nat, key: int, value: Value, ghost t: Tree, ghost h: nat, ghost lo: Option<int>,
                      ghost hi: Option<int>, ghost pre: seq<nat>, ghost post: seq<nat>)
      returns (inserted: bool, split: bool, promo: int, right: nat, ghost ids: seq<nat>)
      requires pager.Ready() && t.idx == idx && Within(key, lo, hi)
      requires NodeReady(pager.order, pager.store, t, h, lo, hi, pre, post)
      modifies pager.Repr
      ensures pager.Ready() && fresh(pager.Repr - old(pager.Repr))
      ensures NodeDone(pager.order, old(pager.store), old(pager.free), pager.store, pager.free, t, h, key, value, pre,
                       post, inserted, split, promo, right, ids)
      decreases t, 1
    {
      hide NodeReady, NodeDone, Pool;
      NodeKind(pager.order, pager.store, t, h, lo, hi, pre, post);
      var p := pager.Fetch(idx);
      if p.kind == LeafPage {
        inserted, split, promo, right, ids := InsertLeaf(idx, key, value, t, lo, hi, pre, post);
      } else {
        inserted, split, promo, right, ids := InsertBranch(idx, key, value, t, h, lo, hi, pre, post);
      }
    }

    method InsertBranch(idx: nat, key: int, value: Value, ghost t: Tree, ghost h: nat, ghost lo: Option<int>,
                        ghost hi: Option<int>, ghost pre: seq<nat>, ghost post: seq<nat>)
      returns (inserted: bool, split: bool, promo: int, right: nat, ghost ids: seq<nat>)
      requires pager.Ready() && t.Branch? && t.idx == idx && Within(key, lo, hi)
      requires NodeReady(pager.order, pager.store, t, h, lo, hi, pre, post)
      modifies pager.Repr
      ensures pager.Ready() && fresh(pager.Repr - old(pager.Repr))
      ensures NodeDone(pager.order, old(pager.store), old(pager.free), pager.store, pager.free, t, h, key, value, pre,
                       post, inserted, split, promo, right, ids)
      decreases t, 0
    {
      hide *;
      ghost var s0, f0, ord := pager.store, pager.free, pager.order;
      var ci, child := ChildFor(idx, key, t, h, lo, hi, pre, post);
      KidReady(ord, s0, t, h, lo, hi, pre, post, key, ci);
      var csplit, sep, sibling;
      ghost var cids;
      inserted, csplit, sep, sibling, cids := InsertNode(child, key, value, t.kids[ci], h - 1,
        LoOf(t.keys, lo, ci), HiOf(t.keys, hi, ci), PreOf(pre, t.kids, ci), PostOf(post, t.kids, ci));
      ghost var g := Grow(ord, t.kids[ci], h - 1, key, value, cids);
      KidIsDone(ord, s0, f0, pager.store, pager.free, t, h, ci, key, value, lo, hi, pre, post, inserted, csplit, sep,
                sibling, cids);
      ghost var more;
      split, promo, right, more :=
        AfterChild(idx, ci, csplit, sep, sibling, t, g, s0, f0, cids, PageFor(cids, h), pre, post);
      NodeIsDone(ord, s0, f0, pager.store, pager.free, t, h, ci, key, value, pre, post, inserted, split, promo, right,
                 csplit, cids, more);
      ids := cids + more;
    }

    method ChildFor(idx: nat, key: int, ghost t: Tree, ghost h: nat, ghost lo: Option<int>, ghost hi: Option<int>,
                    ghost pre: seq<nat>, ghost post: seq<nat>)
      returns (ci: nat, child: nat)
      requires pager.Ready() && t.Branch? && t.idx == idx
               && NodeReady(pager.order, pager.store, t, h, lo, hi, pre, post)
      modifies pager.Repr
      ensures pager.Ready() && pager.Repr == old(pager.Repr) && pager.store == old(pager.store)
              && pager.free == old(pager.free)
      ensures Pool(pager.store, pager.free) && ci == Slot(t.keys, key) && ci < |t.kids| && child == t.kids[ci].idx
    {
      hide NodeReady, Pool, Chain;
      BranchReady(pager.order, pager.store, t, h, lo, hi, pre, post);
      var p := pager.Fetch(idx);
      ghost var v := pager.store[idx];
      assert BranchV(p.keys[..p.count], p.children[..p.count + 1]) == v;
      ci := p.ChildIndex(key);
      child := p.children[ci];
      assert child == v.kids[ci];
    }

    /** the parent takes up the right half of its child, if that split; r is the page named when none is taken */
    method AfterChild(idx: nat, ci: nat, csplit: bool, sep: int, child: nat, ghost t: Tree, ghost g: Grown,
                      ghost s0: Store, ghost f0: seq<nat>, ghost ids: seq<nat>, ghost r: nat, ghost pre: seq<nat>,
                        ghost post: seq<nat>)
      returns (split: bool, promo: int, right: nat, ghost more: seq<nat>)
      requires pager.Ready() && t.Branch? && t.idx == idx
      requires KidDone(pager.order, s0, f0, pager.store, pager.free, t, ci, g, ids, pre, post, csplit, sep, child)
      modifies pager.Repr
      ensures pager.Ready() && fresh(pager.Repr - old(pager.Repr))
      ensures BranchDone(pager.order, s0, f0, pager.store, pager.free, t, ci, g, ids, r, pre, post, csplit, split,
                         promo, right, more)
    {
      hide *;
      ghost var s1, f1 := pager.store, pager.free;
      if !csplit {
        UnsplitDone(pager.order, s0, f0, s1, f1, t, ci, g, ids, r, pre, post, sep, child, sep, 0);
        return false, sep, 0, [];
      }
      ParentPage(pager.order, s0, f0, s1, f1, t, ci, g, ids, pre, post, csplit, sep, child);
      var put := TryPutChild(idx, ci, sep, child);
      if put {
        GrewDone(pager.order, s0, f0, s1, f1, pager.store, t, ci, g, ids, r, pre, post, sep, child, sep, 0);
        return false, sep, 0, [];
      }
      promo, right := SplitBranchPage(idx, ci, sep, child);
      SplitBranchDone(pager.order, s0, f0, s1, f1, pager.store, pager.free, t, ci, g, ids, r, pre, post, sep, child,
                      promo, right);
      return true, promo, right, [right];
    }

    /** adds a separator and a child to a branch that has room for them */
    method TryPutChild(idx: nat, ci: nat, sep: int, child: nat) returns (put: bool)
      requires pager.Ready() && idx in pager.store && pager.store[idx].BranchV?
      requires var v := pager.store[idx]; |v.keys| <= pager.order && |v.kids| == |v.keys| + 1 && ci <= |v.keys|
      modifies pager.Repr
      ensures pager.Ready() && pager.Repr == old(pager.Repr) && pager.free == old(pager.free)
      ensures var s, v := old(pager.store), old(pager.store)[idx];
              && put == (|v.keys| < pager.order)
              && pager.store == if put then s[idx := BranchV(InsertKey(v.keys, ci, sep), KidIds(v.kids, ci, child))]
                 else s
    {
      ghost var s, f, v := pager.store, pager.free, pager.store[idx];
      var p := pager.Fetch(idx);
      assert BranchV(p.keys[..p.count], p.children[..p.count + 1]) == v;
      put := p.count < pager.order;
      if put {
        pager.PutChild(idx, p, ci, sep, child);
        PoolFrame(s, pager.store, f);
      }
    }

    /** splits a full branch around its median, after adding a separator and a child */
    method SplitBranchPage(idx: nat, ci: nat, sep: int, child: nat) returns (promo: int, ridx: nat)
      requires pager.Ready() && idx in pager.store && pager.store[idx].BranchV?
      requires var v := pager.store[idx]; |v.keys| == pager.order && |v.kids| == |v.keys| + 1 && ci <= |v.keys|
      modifies pager.Repr
      ensures pager.Ready() && fresh(pager.Repr - old(pager.Repr))
      ensures var v, m := old(pager.store)[idx], (pager.order + 1) / 2;
              var ks := InsertKey(v.keys, ci, sep);
              && promo == ks[m]
              && BranchSplitTo(old(pager.store), pager.store, old(pager.free), pager.free, idx, ridx, ks,
                               KidIds(v.kids, ci, child), m)
    {
      hide FreeList, Took, BranchSplitTo, SameTreeFields;
      ghost var s1, f1, v := pager.store, pager.free, pager.store[idx];
      var p, tkeys, tkids := OverfullLists(idx, ci, sep, child);
      ghost var ks, cs := InsertKey(v.keys, ci, sep), KidIds(v.kids, ci, child);
      var mid := (pager.order + 1) / 2;
      promo := tkeys[mid];
      KeepLower(idx, p, tkeys, tkids, mid);
      ghost var s2 := pager.store;
      ghost var s3;
      ridx, s3 := NewBranchFrom(tkeys, tkids, mid + 1, pager.order - mid);
      BranchHalved(s1, f1, s2, s3, pager.free, pager.store, idx, ridx, ks, cs, mid);
    }

    /** the branch's keys and children with the new ones in place, in arrays of their own */
    method OverfullLists(idx: nat, ci: nat, sep: int, child: nat)
      returns (p: Page, tkeys: array<int>, tkids: array<nat>)
      requires pager.Ready() && idx in pager.store && pager.store[idx].BranchV?
      requires var v := pager.store[idx]; |v.keys| == pager.order && |v.kids| == |v.keys| + 1 && ci <= |v.keys|
      modifies pager.Repr
      ensures pager.Ready() && pager.Repr == old(pager.Repr) && pager.store == old(pager.store)
              && pager.free == old(pager.free)
      ensures pager.Is(idx, p) && p.Parts() <= pager.Repr && fresh(tkeys) && fresh(tkids) && tkeys !in pager.Repr
              && tkids !in pager.Repr
      ensures var v := pager.store[idx];
              tkeys[..] == InsertKey(v.keys, ci, sep) && tkids[..] == KidIds(v.kids, ci, child)
    {
      hide Pool;
      ghost var v := pager.store[idx];
      p := pager.Fetch(idx);
      assert BranchV(p.keys[..p.count], p.children[..p.count + 1]) == v;
      tkeys := p.OverfullKeys(ci, sep);
      tkids := p.OverfullKids(ci + 1, child);
    }

    method KeepLower(idx: nat, p: Page, tkeys: array<int>, tkids: array<nat>, mid: nat)
      requires pager.Ready() && pager.Is(idx, p) && p.Parts() <= pager.Repr && pager.store[idx].BranchV?
      requires tkeys !in pager.Repr && tkids !in pager.Repr && mid <= pager.order && mid < tkeys.Length
               && mid + 1 < tkids.Length
      modifies pager.Repr
      ensures pager.Ready() && pager.Repr == old(pager.Repr) && pager.free == old(pager.free)
      ensures pager.store == old(pager.store)[idx := BranchV(tkeys[..][..mid], tkids[..][..mid + 1])]
    {
      hide FreeList;
      ghost var s, f := pager.store, pager.free;
      NotFree(s, f, idx);
      assert tkeys !in pager.owner && tkids !in pager.owner;
      pager.LoadBranch(idx, p, tkeys, tkids, 0, mid);
      assert tkeys[0..mid] == tkeys[..][..mid] && tkids[0..mid + 1] == tkids[..][..mid + 1];
      PoolElsewhere(s, pager.store, f, idx);
    }

    /** a new branch filled from the end of the overfull lists; `s` is the file before it was written */
    method NewBranchFrom(tkeys: array<int>, tkids: array<nat>, from: nat, n: nat) returns (ridx: nat, ghost s: Store)
      requires pager.Ready() && tkeys !in pager.Repr && tkids !in pager.Repr
      requires n <= pager.order && from + n == tkeys.Length && from + n + 1 == tkids.Length
      modifies pager.Repr
      ensures pager.Ready() && fresh(pager.Repr - old(pager.Repr))
      ensures Pool(s, pager.free) && Took(old(pager.store), old(pager.free), s, pager.free, [ridx])
              && SameTreeFields(old(pager.store), s)
      ensures ridx in s && s[ridx].FreeV? && ridx !in pager.free
      ensures forall q :: q in old(pager.store) && q != 0 ==> q in s && s[q] == old(pager.store)[q]
      ensures pager.store == s[ridx := BranchV(tkeys[..][from..], tkids[..][from..])]
    {
      hide FreeList, Took, SameTreeFields;
      var r;
      ridx, r := pager.Allocate();
      s := pager.store;
      TookIdx(old(pager.store), old(pager.free), s, pager.free, ridx);
      assert tkeys !in pager.Repr && tkids !in pager.Repr;
      pager.FormatBranch(ridx, r);
      pager.LoadBranch(ridx, r, tkeys, tkids, from, n);
      assert tkeys[from..from + n] == tkeys[..][from..] && tkids[from..from + n + 1] == tkids[..][from..];
      PoolElsewhere(s, pager.store, pager.free, ridx);
    }

    // ---- erasure -------------------------------------------------------------------------------

    /** erases below the node on page idx, which spells out the tree t; an emptied node is left to its parent */
    method EraseNode(idx: nat, key: int, ghost t: Tree, ghost h: nat, ghost lo: Option<int>, ghost hi: Option<int>,
                     ghost pre: seq<nat>, ghost post: seq<nat>)
      returns (erased: bool, empty: bool)
      requires pager.Ready() && t.idx == idx && Balanced(t, h)
      requires EraseReady(pager.order, pager.store, pager.free, t, h, lo, hi, pre, post)
      modifies pager.Repr
      ensures pager.Ready() && pager.Repr == old(pager.Repr)
      ensures EraseDone(old(pager.store), old(pager.free), pager.store, pager.free, t, h, key, pre, post, erased, empty)
      decreases t, 1
    {
      hide EraseReady, EraseDone, NodeReady, Pool;
      EraseIsReady(pager.order, pager.store, pager.free, t, h, lo, hi, pre, post);
      NodeKind(pager.order, pager.store, t, h, lo, hi, pre, post);
      var p := pager.Fetch(idx);
      if p.kind == LeafPage {
        erased, empty := EraseLeaf(idx, key, t, lo, hi, pre, post);
      } else {
        erased, empty := EraseBranch(idx, key, t, h, lo, hi, pre, post);
      }
    }

    method EraseLeaf(idx: nat, key: int, ghost t: Tree, ghost lo: Option<int>, ghost hi: Option<int>,
                     ghost pre: seq<nat>, ghost post: seq<nat>)
      returns (erased: bool, empty: bool)
      requires pager.Ready() && t.Leaf? && t.idx == idx && Balanced(t, 1)
      requires EraseReady(pager.order, pager.store, pager.free, t, 1, lo, hi, pre, post)
      modifies pager.Repr
      ensures pager.Ready() && pager.Repr == old(pager.Repr)
      ensures EraseDone(old(pager.store), old(pager.free), pager.store, pager.free, t, 1, key, pre, post, erased, empty)
    {
      hide EraseReady, EraseDone, NodeReady, Pool, Chain, Shrink, Pager.Owned, Pager.Shown, Pager.Cached;
      ghost var s0, f0 := pager.store, pager.free;
      EraseIsReady(pager.order, s0, f0, t, 1, lo, hi, pre, post);
      LeafReady(pager.order, s0, t, lo, hi, pre, post);
      var leaf := pager.Fetch(idx);
      assert LeafV(leaf.records[..leaf.count], leaf.nextPage, leaf.prevPage) == s0[idx];
      var pos := leaf.LowerBound(key);
      if !(pos < leaf.count && leaf.records[pos].key == key) {
        LeafMissed(pager.order, s0, f0, t, lo, hi, key, pre, post);
        return false, false;
      }
      var n := leaf.count;
      pager.DropRecord(idx, leaf, pos);
      LeafErased(pager.order, s0, f0, pager.store, t, lo, hi, key, pre, post);
      return true, n - 1 == 0;
    }

    method EraseBranch(idx: nat, key: int, ghost t: Tree, ghost h: nat, ghost lo: Option<int>, ghost hi: Option<int>,
                       ghost pre: seq<nat>, ghost post: seq<nat>)
      returns (erased: bool, empty: bool)
      requires pager.Ready() && t.Branch? && t.idx == idx && Balanced(t, h)
      requires EraseReady(pager.order, pager.store, pager.free, t, h, lo, hi, pre, post)
      modifies pager.Repr
      ensures pager.Ready() && pager.Repr == old(pager.Repr)
      ensures EraseDone(old(pager.store), old(pager.free), pager.store, pager.free, t, h, key, pre, post, erased, empty)
      decreases t, 0
    {
      hide *;
      ghost var s0, f0, ord := pager.store, pager.free, pager.order;
      EraseIsReady(ord, s0, f0, t, h, lo, hi, pre, post);
      var ci, child := ChildFor(idx, key, t, h, lo, hi, pre, post);
      KidEraseReady(ord, s0, f0, t, h, lo, hi, pre, post, key, ci);
      ghost var p, q := PreOf(pre, t.kids, ci), PostOf(post, t.kids, ci);
      erased, empty := EraseNode(child, key, t.kids[ci], h - 1, LoOf(t.keys, lo, ci), HiOf(t.keys, hi, ci), p, q);
      ghost var s1, f1 := pager.store, pager.free;
      if !erased {
        MissedIsKept(s0, f0, s1, f1, t.kids[ci], h - 1, key, p, q, empty);
      }
      if !empty {
        KeptDone(ord, s0, f0, s1, f1, t, h, lo, hi, key, ci, pre, post, erased);
        return;
      }
      EmptyRemovable(ord, s0, f0, s1, f1, t, h, lo, hi, key, ci, pre, post);
      empty := RemoveChild(idx, ci, child, t.kids[ci].Leaf?, p, q);
      LostDone(ord, s0, f0, s1, f1, pager.store, t, h, lo, hi, key, ci, pre, post);
    }

    /** points leaf p's forward link, if there is a leaf p, at n */
    method SetNext(p: nat, n: nat)
      requires pager.Valid() && (p != 0 ==> p in pager.store && pager.store[p].LeafV?)
      modifies pager.Repr
      ensures pager.Valid() && pager.Repr == old(pager.Repr) && pager.free == old(pager.free)
      ensures var s := old(pager.store); pager.store == if p != 0 then s[p := s[p].(next := n)] else s
    {
      if p != 0 {
        var before := pager.Fetch(p);
        pager.PutLinks(p, before, n, before.prevPage);
      }
    }

    /** points leaf n's backward link, if there is a leaf n, at p */
    method SetPrev(n: nat, p: nat)
      requires pager.Valid() && (n != 0 ==> n in pager.store && pager.store[n].LeafV?)
      modifies pager.Repr
      ensures pager.Valid() && pager.Repr == old(pager.Repr) && pager.free == old(pager.free)
      ensures var s := old(pager.store); pager.store == if n != 0 then s[n := s[n].(prev := p)] else s
    {
      if n != 0 {
        var after := pager.Fetch(n);
        pager.PutLinks(n, after, after.nextPage, p);
      }
    }

    /** takes leaf x out of the chain, and out of the header if it comes first */
    method Unlink(x: nat)
      requires pager.Valid() && x in pager.store && pager.store[x].LeafV? && 0 in pager.store && pager.store[0].HeaderV?
      requires var p := pager.store[x].prev; p != 0 ==> p in pager.store && pager.store[p].LeafV?
      requires var n := pager.store[x].next; n != 0 ==> n in pager.store && pager.store[n].LeafV?
      modifies pager.Repr
      ensures pager.Valid() && pager.Repr == old(pager.Repr) && pager.free == old(pager.free)
      ensures pager.store == UnlinkedStore(old(pager.store), x)
    {
      hide Pool;
      var leaf := pager.Fetch(x);
      var p, n := leaf.prevPage, leaf.nextPage;
      SetNext(p, n);
      SetPrev(n, p);
      SkipFirst(x, n);
    }

    method SkipFirst(x: nat, n: nat)
      requires pager.Valid() && 0 in pager.store && pager.store[0].HeaderV?
      modifies pager.Repr
      ensures pager.Valid() && pager.Repr == old(pager.Repr) && pager.free == old(pager.free)
      ensures var s := old(pager.store);
              pager.store == if s[0].hdr.firstLeaf == x then s[0 := HeaderV(s[0].hdr.(firstLeaf := n))] else s
    {
      var header := pager.Fetch(0);
      assert HeaderV(header.hdr) == pager.store[0];
      if header.hdr.firstLeaf == x {
        pager.PutHeader(header, header.hdr.(firstLeaf := n));
      }
    }

    /** Removes the emptied child ci of a branch and reclaims its page. The last child's entry stays behind
        in a branch that is now empty itself. */
    method RemoveChild(idx: nat, ci: nat, ghost x: nat, ghost leaf: bool, ghost p: seq<nat>, ghost q: seq<nat>)
      returns (empty: bool)
      requires pager.Ready() && Removable(pager.store, pager.free, idx, ci, x, leaf, p, q)
      requires idx in pager.store && pager.store[idx].BranchV?
               && ci < |pager.store[idx].kids| == |pager.store[idx].keys| + 1
      modifies pager.Repr
      ensures pager.Ready() && pager.Repr == old(pager.Repr) && pager.free == [x] + old(pager.free)
      ensures empty == (old(pager.store)[idx].keys == [])
      ensures RemovedTo(old(pager.store), old(pager.free), pager.store, idx, x, leaf, p, q,
                        BranchWithout(old(pager.store)[idx], ci))
    {
      hide Removable, RemovedTo, RemovalWrites, Pool, UnlinkedStore, Chain;
      ghost var s0, f0 := pager.store, pager.free;
      RemovableFacts(s0, f0, idx, ci, x, leaf, p, q);
      var branch := pager.Fetch(idx);
      assert BranchV(branch.keys[..branch.count], branch.children[..branch.count + 1]) == s0[idx];
      empty := branch.count == 0;
      var cidx := branch.children[ci];
      assert cidx == s0[idx].kids[ci];
      var child := pager.Fetch(cidx);
      if child.kind == LeafPage {
        Neighbours(s0, f0, idx, ci, x, p, q);
        Unlink(cidx);
        UnlinkedFacts(s0, f0, idx, ci, x, p, q);
        DropFreed(idx, ci, cidx);
        RemovedLeaf(s0, f0, pager.store, idx, ci, x, p, q, BranchWithout(s0[idx], ci));
      } else {
        DropFreed(idx, ci, cidx);
        RemovedBranch(s0, f0, pager.store, idx, ci, x, p, q, BranchWithout(s0[idx], ci));
      }
    }

    /** reclaims page x and drops it from its parent */
    method DropFreed(idx: nat, ci: nat, x: nat)
      requires pager.Ready() && x in pager.store && !pager.store[x].FreeV? && x != idx && x != 0 && idx != 0
      requires idx in pager.store && pager.store[idx].BranchV?
               && ci < |pager.store[idx].kids| == |pager.store[idx].keys| + 1
      modifies pager.Repr
      ensures pager.Ready() && pager.Repr == old(pager.Repr) && pager.free == [x] + old(pager.free)
      ensures RemovalWrites(old(pager.free), old(pager.store), pager.store, idx, x,
                            BranchWithout(old(pager.store)[idx], ci))
    {
      hide FreeList, SameTreeFields, Pager.Owned, Pager.Shown, Pager.Cached;
      ghost var s0, f0 := pager.store, pager.free;
      NotFree(s0, f0, x);
      NotFree(s0, f0, idx);
      pager.Free(x);
      ghost var s1 := pager.store;
      var branch := pager.Fetch(idx);
      pager.DropChild(idx, branch, ci);
      PoolElsewhere(s1, pager.store, pager.free, idx);
      SameFieldsLater(s0, s1, pager.store);
    }

    // ---- public modifiers ------------------------------------------------------------------------

    /** Adds a record unless its key is there already. `ids` are the pages taken for new nodes. */
    method Insert(key: int, value: Value) returns (inserted: bool, ghost ids: seq<nat>)
      requires Valid()
      modifies this, pager.Repr
      ensures Valid() && fresh(pager.Repr - old(pager.Repr))
      ensures inserted == (key !in old(Map()))
      ensures Map() == if inserted then old(Map())[key := value] else old(Map())
      ensures !inserted ==> root == old(root) && pager.store == old(pager.store) && pager.free == old(pager.free)
      ensures root == Inserted(pager.order, old(root), key, value, ids) && |ids| == Needed(pager.order, old(root), key)
      ensures Took(old(pager.store), old(pager.free), pager.store, pager.free, ids)
      ensures old(DenseRoot(pager.order, root)) ==> DenseRoot(pager.order, root)
    {
      hide FileShows, Took, Inserted, Needed, Contents, DenseRoot, InsertDone, Pool;
      ghost var s0, f0, r0 := pager.store, pager.free, root;
      var top := RootPage();
      if top == 0 {
        ids := InsertFirst(key, value);
        inserted := true;
      } else {
        inserted, ids := InsertBelowRoot(top, key, value);
      }
      InsertMeans(pager.order, s0, f0, pager.store, pager.free, r0, key, value, ids, inserted, root);
    }

    /** the root's page, 0 for an empty tree */
    method RootPage() returns (top: nat)
      requires Valid()
      modifies pager.Repr
      ensures Valid() && pager.Repr == old(pager.Repr) && pager.store == old(pager.store)
              && pager.free == old(pager.free)
      ensures if root.Root? then top == root.t.idx && top != 0 else top == 0
    {
      hide FileShows, Pool;
      RootIdx(pager.order, pager.store, pager.free, root);
      var header := pager.Fetch(0);
      assert HeaderV(header.hdr) == pager.store[0];
      top := header.hdr.root;
    }

    method InsertFirst(key: int, value: Value) returns (ghost ids: seq<nat>)
      requires Valid() && root.NoRoot?
      modifies this, pager.Repr
      ensures Valid() && fresh(pager.Repr - old(pager.Repr))
      ensures InsertDone(pager.order, old(pager.store), old(pager.free), pager.store, pager.free, NoRoot, key, value,
                         ids, true, root)
    {
      hide FileShows, Pool, Took, InsertDone, Inserted, Pager.Owned, Pager.Shown, Pager.Cached;
      ghost var s0, f0 := pager.store, pager.free;
      var idx, p;
      ghost var s1;
      idx, p, s1 := NewLeaf();
      ids := [idx];
      TookHeader(s0, f0, s1, pager.free, idx);
      WriteFirst(idx, p, key, value);
      FirstInserted(pager.order, s0, f0, s1, pager.free, pager.store, idx, key, value);
      root := Inserted(pager.order, NoRoot, key, value, ids);
      InsertShows(pager.order, s0, f0, pager.store, pager.free, NoRoot, key, value, ids, true, root);
    }

    method WriteFirst(idx: nat, p: Page, key: int, value: Value)
      requires pager.Valid() && pager.Is(idx, p) && p.Parts() <= pager.Repr && pager.store[idx] == LeafV([], 0, 0)
      requires idx != 0 && 0 in pager.store && pager.store[0].HeaderV?
      modifies pager.Repr
      ensures pager.Valid() && pager.Repr == old(pager.Repr) && pager.free == old(pager.free)
      ensures var s := old(pager.store);
              pager.store == s[idx := LeafV([Rec(key, value)], 0, 0)]
                              [0 := HeaderV(Header(idx, idx, 1, 1, s[0].hdr.freeHead, s[0].hdr.freeCount))]
    {
      hide Pager.Owned, Pager.Shown, Pager.Cached, Pool;
      assert InsertRec([], key, value) == [Rec(key, value)];
      pager.PutRecord(idx, p, 0, key, value);
      var header := pager.Fetch(0);
      pager.PutHeader(header, header.hdr.(root := idx, firstLeaf := idx, height := 1, count := 1));
    }

    method InsertBelowRoot(top: nat, key: int, value: Value) returns (inserted: bool, ghost ids: seq<nat>)
      requires Valid() && root.Root? && top == root.t.idx
      modifies this, pager.Repr
      ensures Valid() && fresh(pager.Repr - old(pager.Repr))
      ensures InsertDone(pager.order, old(pager.store), old(pager.free), pager.store, pager.free, old(root), key,
                         value, ids, inserted, root)
    {
      hide FileShows, InsertDone, NodeReady, NodeDone, GrownBelow, Pool;
      ghost var s0, f0 := pager.store, pager.free;
      RootReady(pager.order, s0, f0, root);
      var split, sep, right;
      ghost var below;
      inserted, split, sep, right, below := InsertNode(top, key, value, root.t, root.h, None, None, [], []);
      GrownBelowRoot(pager.order, s0, f0, pager.store, pager.free, root, key, value, below, inserted, split, sep,
                     right);
      ids := FinishInsert(top, key, value, inserted, split, sep, right, s0, f0, below);
    }

    /** adds a level above a root that split, and counts the record */
    method FinishInsert(top: nat, ghost key: int, ghost value: Value, inserted: bool, split: bool, sep: int, right: nat,
                        ghost s0: Store, ghost f0: seq<nat>, ghost below: seq<nat>)
      returns (ghost ids: seq<nat>)
      requires pager.Ready() && this !in pager.Repr && root.Root? && top == root.t.idx
      requires GrownBelow(pager.order, s0, f0, pager.store, pager.free, root, key, value, below, inserted, split, sep,
                          right)
      modifies this, pager.Repr
      ensures Valid() && fresh(pager.Repr - old(pager.Repr))
      ensures InsertDone(pager.order, s0, f0, pager.store, pager.free, old(root), key, value, ids, inserted, root)
    {
      hide FileShows, GrownBelow, Took, Inserted, InsertDone, RootSplitTo, Pool;
      ghost var s1, f1, r0 := pager.store, pager.free, root;
      GrownHeader(pager.order, s0, f0, s1, f1, root, key, value, below, inserted, split, sep, right);
      if split {
        ghost var s3;
        var nr;
        nr, s3 := NewRoot(sep, top, right);
        SplitDone(pager.order, s0, f0, s1, f1, s3, pager.free, pager.store, root, key, value, below, inserted, sep,
                  right, nr);
        ids := below + [nr];
      } else {
        if inserted {
          CountOneMore();
        }
        PlainDone(pager.order, s0, f0, s1, f1, pager.store, root, key, value, below, inserted, sep, right);
        ids := below;
      }
      root := Inserted(pager.order, root, key, value, ids);
      InsertShows(pager.order, s0, f0, pager.store, pager.free, r0, key, value, ids, inserted, root);
    }

    /** a new root over the two halves of the old one; `s` is the file before it was written */
    method NewRoot(sep: int, left: nat, right: nat) returns (nr: nat, ghost s: Store)
      requires pager.Ready()
      modifies pager.Repr
      ensures pager.Ready() && fresh(pager.Repr - old(pager.Repr))
      ensures RootSplitTo(old(pager.store), old(pager.free), s, pager.free, pager.store, nr, sep, left, right)
    {
      ghost var s1, f1 := pager.store, pager.free;
      var p;
      nr, p := pager.Allocate();
      s := pager.store;
      assert [nr][0] == nr;
      WriteRoot(nr, p, sep, left, right);
      RootSplitPool(s1, f1, s, pager.free, pager.store, nr, sep, left, right);
    }

    method WriteRoot(nr: nat, p: Page, sep: int, left: nat, right: nat)
      requires pager.Valid() && pager.Is(nr, p) && p.Parts() <= pager.Repr && nr != 0 && 0 in pager.store
               && pager.store[0].HeaderV?
      modifies pager.Repr
      ensures pager.Valid() && pager.Repr == old(pager.Repr) && pager.free == old(pager.free)
      ensures var s := old(pager.store);
              pager.store == s[nr := BranchV([sep], [left, right])]
                              [0 := HeaderV(s[0].hdr.(root := nr, height := s[0].hdr.height + 1,
                                                      count := s[0].hdr.count + 1))]
    {
      pager.FormatBranch(nr, p);
      pager.PutPair(nr, p, sep, left, right);
      RaiseRoot(nr);
      CountOneMore();
    }

    /** makes page nr the root, one level higher */
    method RaiseRoot(nr: nat)
      requires pager.Valid() && 0 in pager.store && pager.store[0].HeaderV?
      modifies pager.Repr
      ensures pager.Valid() && pager.Repr == old(pager.Repr) && pager.free == old(pager.free)
      ensures var s := old(pager.store);
              pager.store == s[0 := HeaderV(s[0].hdr.(root := nr, height := s[0].hdr.height + 1))]
    {
      var header := pager.Fetch(0);
      pager.PutHeader(header, header.hdr.(root := nr, height := header.hdr.height + 1));
    }

    method CountOneMore()
      requires pager.Valid() && 0 in pager.store && pager.store[0].HeaderV?
      modifies pager.Repr
      ensures pager.Valid() && pager.Repr == old(pager.Repr) && pager.free == old(pager.free)
      ensures var s := old(pager.store);
              pager.store == s[0 := HeaderV(s[0].hdr.(count := s[0].hdr.count + 1))]
    {
      var header := pager.Fetch(0);
      pager.PutHeader(header, header.hdr.(count := header.hdr.count + 1));
    }

    /** Removes a key. Pages of emptied nodes, and of root branches left with one child, go to the free list. */
    method Erase(key: int) returns (n: nat)
      requires Valid()
      modifies this, pager.Repr
      ensures Valid() && pager.Repr == old(pager.Repr)
      ensures n == if key in old(Map()) then 1 else 0
      ensures Map() == old(Map()) - {key}
      ensures n == 0 ==> root == old(root) && pager.store == old(pager.store) && pager.free == old(pager.free)
      ensures root == Erased(old(root), key)
      ensures pager.free == Pushed(Reclaimed(old(root), key), old(pager.free))
              && pager.store.Keys == old(pager.store.Keys)
    {
      hide FileShows, Pool, EraseReady, EraseDone, EraseAllDone, Contents, Erased, Reclaimed, Pushed, Balanced;
      ghost var s0, f0, r0 := pager.store, pager.free, root;
      var top := RootPage();
      n := 0;
      if top == 0 {
        NothingToErase(pager.order, s0, f0, key);
      } else {
        n := EraseBelowRoot(top, key);
      }
      EraseMeans(pager.order, s0, f0, pager.store, pager.free, r0, key, n == 1, root);
    }

    method EraseBelowRoot(top: nat, key: int) returns (n: nat)
      requires Valid() && root.Root? && top == root.t.idx
      modifies this, pager.Repr
      ensures Valid() && pager.Repr == old(pager.Repr) && n <= 1
      ensures EraseAllDone(pager.order, old(pager.store), old(pager.free), pager.store, pager.free, old(root), key,
                           n == 1, root)
    {
      hide FileShows, Pool, EraseReady, EraseDone, EraseAllDone, RootShrunk, Balanced;
      ghost var s0, f0, r0 := pager.store, pager.free, root;
      RootEraseReady(pager.order, s0, f0, root);
      var erased, empty := EraseNode(top, key, root.t, root.h, None, None, [], []);
      ghost var s1, f1 := pager.store, pager.free;
      if !erased {
        RootMissed(pager.order, s0, f0, s1, f1, r0, key, empty);
        EraseShows(pager.order, s0, f0, s1, f1, r0, key, false, root);
        return 0;
      }
      CountPositive(pager.order, s0, f0, s1, f1, r0, key, empty);
      CountOneLess();
      RootCounted(pager.order, s0, f0, s1, f1, pager.store, r0, key, empty);
      TidyRoot(key, empty, s0, f0);
      return 1;
    }

    method CountOneLess()
      requires pager.Ready() && pager.store[0].hdr.count > 0
      modifies pager.Repr
      ensures pager.Ready() && pager.Repr == old(pager.Repr) && pager.free == old(pager.free)
      ensures var s := old(pager.store);
              pager.store == s[0 := HeaderV(s[0].hdr.(count := s[0].hdr.count - 1))]
    {
      hide FreeList;
      ghost var s, f := pager.store, pager.free;
      var header := pager.Fetch(0);
      assert HeaderV(header.hdr) == s[0];
      pager.PutHeader(header, header.hdr.(count := header.hdr.count - 1));
      PoolHeader(s, pager.store, f, pager.store[0].hdr);
    }

    /** reclaims an emptied root, or root branches left with a single child */
    method TidyRoot(ghost key: int, empty: bool, ghost s0: Store, ghost f0: seq<nat>)
      requires pager.Ready() && this !in pager.Repr
               && RootShrunk(pager.order, s0, f0, pager.store, pager.free, root, key, empty)
      modifies this, pager.Repr
      ensures Valid() && pager.Repr == old(pager.Repr)
      ensures EraseAllDone(pager.order, s0, f0, pager.store, pager.free, old(root), key, true, root)
    {
      hide FileShows, Pool, EraseAllDone, RootShrunk, Balanced, Collapsing, ValidRoot, Collapse, Dropped, Pushed,
           Shrink;
      ghost var f2, r0 := pager.free, root;
      ShrunkFacts(pager.order, s0, f0, pager.store, f2, r0, key, empty);
      if empty {
        FreeRoot(key, s0, f0);
        root := NoRoot;
      } else {
        CollapseStarts(pager.order, s0, f0, pager.store, f2, r0, key);
        ghost var n0 := Shrink(r0.t, r0.h, key).node.value;
        ghost var c, hc := CollapseRoot(n0, r0.h, s0.Keys);
        CollapseEnds(pager.order, s0, f0, f2, pager.store, pager.free, c, hc, r0, key);
        root := Root(c, hc);
      }
      EraseShows(pager.order, s0, f0, pager.store, pager.free, r0, key, true, root);
    }

    method FreeRoot(ghost key: int, ghost s0: Store, ghost f0: seq<nat>)
      requires pager.Ready() && this !in pager.Repr
               && RootShrunk(pager.order, s0, f0, pager.store, pager.free, root, key, true)
      modifies pager.Repr
      ensures pager.Ready() && pager.Repr == old(pager.Repr)
      ensures EraseAllDone(pager.order, s0, f0, pager.store, pager.free, root, key, true, NoRoot)
    {
      hide EraseAllDone, RootShrunk, FreeList, SameTreeFields;
      ghost var s2, f2 := pager.store, pager.free;
      RootFreeable(pager.order, s0, f0, s2, f2, root, key);
      var header := pager.Fetch(0);
      assert HeaderV(header.hdr) == s2[0];
      pager.Free(header.hdr.root);
      ghost var s3 := pager.store;
      ResetRoot();
      RootEmptied(pager.order, s0, f0, s2, f2, s3, pager.store, root, key);
    }

    method ResetRoot()
      requires pager.Ready()
      modifies pager.Repr
      ensures pager.Ready() && pager.Repr == old(pager.Repr) && pager.free == old(pager.free)
      ensures var s := old(pager.store);
              pager.store == s[0 := HeaderV(s[0].hdr.(root := 0, firstLeaf := 0, height := 0))]
    {
      hide FreeList;
      ghost var s, f := pager.store, pager.free;
      var header := pager.Fetch(0);
      assert HeaderV(header.hdr) == s[0];
      pager.PutHeader(header, header.hdr.(root := 0, firstLeaf := 0, height := 0));
      PoolHeader(s, pager.store, f, pager.store[0].hdr);
    }

    /** replaces the root by its only child for as long as it has just one */
    method CollapseRoot(ghost n0: Tree, ghost h0: nat, ghost keys: set<nat>) returns (ghost c: Tree, ghost hc: nat)
      requires pager.Ready() && Collapsing(pager.order, pager.store, pager.free, n0, h0, n0, h0, pager.free, keys)
      modifies pager.Repr
      ensures pager.Ready() && pager.Repr == old(pager.Repr)
      ensures Collapsing(pager.order, pager.store, pager.free, c, hc, n0, h0, old(pager.free), keys)
      ensures !(c.Branch? && c.keys == [])
    {
      hide *;
      ghost var f0 := pager.free;
      c, hc := n0, h0;
      var single, only := OnlyChild(c, hc, n0, h0, f0, keys);
      while single
        invariant pager.Ready() && pager.Repr == old(pager.Repr)
        invariant Collapsing(pager.order, pager.store, pager.free, c, hc, n0, h0, f0, keys)
        invariant single == (c.Branch? && c.keys == [])
        invariant single ==> hc > 0 && |c.kids| == 1 && only == c.kids[0].idx
        decreases hc
      {
        DropRoot(only, c, hc, n0, h0, f0, keys);
        c, hc := c.kids[0], hc - 1;
        single, only := OnlyChild(c, hc, n0, h0, f0, keys);
      }
    }

    method OnlyChild(ghost c: Tree, ghost hc: nat, ghost n0: Tree, ghost h0: nat, ghost f0: seq<nat>,
                     ghost keys: set<nat>)
      returns (single: bool, only: nat)
      requires pager.Ready() && Collapsing(pager.order, pager.store, pager.free, c, hc, n0, h0, f0, keys)
      modifies pager.Repr
      ensures pager.Ready() && pager.Repr == old(pager.Repr) && pager.store == old(pager.store)
              && pager.free == old(pager.free)
      ensures single == (c.Branch? && c.keys == [])
      ensures single ==> hc > 0 && |c.kids| == 1 && only == c.kids[0].idx
    {
      hide Collapsing, Pool;
      ghost var s := pager.store;
      CollapseFacts(pager.order, s, pager.free, c, hc, n0, h0, f0, keys);
      var header := pager.Fetch(0);
      assert HeaderV(header.hdr) == s[0];
      var top := pager.Fetch(header.hdr.root);
      single, only := false, 0;
      if top.kind == BranchPage {
        assert BranchV(top.keys[..top.count], top.children[..top.count + 1]) == s[c.idx];
        single, only := top.count == 0, top.children[0];
        assert only == s[c.idx].kids[0];
      }
    }

    method DropRoot(only: nat, ghost c: Tree, ghost hc: nat, ghost n0: Tree, ghost h0: nat, ghost f0: seq<nat>,
                    ghost keys: set<nat>)
      requires pager.Ready() && Collapsing(pager.order, pager.store, pager.free, c, hc, n0, h0, f0, keys)
      requires c.Branch? && c.keys == [] && hc > 0 && |c.kids| == 1 && only == c.kids[0].idx
      modifies pager.Repr
      ensures pager.Ready() && pager.Repr == old(pager.Repr)
      ensures Collapsing(pager.order, pager.store, pager.free, c.kids[0], hc - 1, n0, h0, f0, keys)
    {
      hide Collapsing, FreeList, SameTreeFields;
      ghost var s, f := pager.store, pager.free;
      CollapseFacts(pager.order, s, f, c, hc, n0, h0, f0, keys);
      var header := pager.Fetch(0);
      assert HeaderV(header.hdr) == s[0];
      var top := header.hdr.root;
      pager.PutHeader(header, header.hdr.(root := only, height := header.hdr.height - 1));
      ghost var s1 := pager.store;
      PoolHeader(s, s1, f, s1[0].hdr);
      pager.Free(top);
      CollapseStep(pager.order, s, f, s1, pager.store, c, hc, n0, h0, f0, keys);
    }

    /** frees every page below and including idx, children first */
    method FreeSubtree(idx: nat, ghost t: Tree)
      requires pager.Ready() && t.idx == idx && Subtree(pager.order, pager.store, pager.free, t)
      modifies pager.Repr
      ensures pager.Ready() && pager.Repr == old(pager.Repr)
      ensures Freed(old(pager.store), old(pager.free), pager.store, pager.free, PostOrder(t), Pages(t))
      decreases t, 1
    {
      hide *;
      ghost var s0, f0 := pager.store, pager.free;
      SubtreeFacts(pager.order, s0, f0, t);
      var branch, kids, n := KidsOf(idx);
      if branch {
        FreeKids(kids, n, t);
      } else {
        NoKids(s0, f0, t);
      }
      KidsFreed(pager.order, s0, f0, pager.store, pager.free, t);
      ghost var s1, f1 := pager.store, pager.free;
      pager.Free(idx);
      SubtreeFreed(pager.order, s0, f0, s1, f1, pager.store, t);
    }

    /** a copy of a branch's children */
    method KidsOf(idx: nat) returns (branch: bool, kids: array<nat>, n: nat)
      requires pager.Ready() && idx in pager.store
      requires pager.store[idx].BranchV? ==> |pager.store[idx].kids| == |pager.store[idx].keys| + 1
      modifies pager.Repr
      ensures pager.Ready() && pager.Repr == old(pager.Repr) && pager.store == old(pager.store)
              && pager.free == old(pager.free)
      ensures branch == pager.store[idx].BranchV? && fresh(kids) && kids !in pager.Repr && n <= kids.Length
      ensures branch ==> kids[..n] == pager.store[idx].kids
    {
      hide FreeList;
      var p := pager.Fetch(idx);
      kids := new nat[pager.order + 1];
      branch, n := p.kind == BranchPage, 0;
      if branch {
        n := p.count + 1;
        var i := 0;
        while i < n
          modifies kids
          invariant 0 <= i <= n
          invariant forall j :: 0 <= j < i ==> kids[j] == p.children[j]
        {
          kids[i] := p.children[i];
          i := i + 1;
        }
        assert kids[..n] == p.children[..n];
      }
    }

    method FreeKids(kids: array<nat>, n: nat, ghost t: Tree)
      requires pager.Ready() && t.Branch? && Subtree(pager.order, pager.store, pager.free, t)
      requires n <= kids.Length && n == |t.kids| && kids !in pager.Repr
      requires forall i :: 0 <= i < n ==> kids[i] == t.kids[i].idx
      modifies pager.Repr
      ensures pager.Ready() && pager.Repr == old(pager.Repr)
      ensures Freed(old(pager.store), old(pager.free), pager.store, pager.free, PostOrderF(t.kids), PagesF(t.kids))
      decreases t, 0
    {
      hide *;
      ghost var s0, f0 := pager.store, pager.free;
      NoneFreed(pager.order, s0, f0, t);
      var i := 0;
      while i < n
        invariant 0 <= i <= n
        invariant pager.Ready() && pager.Repr == old(pager.Repr) && kids !in pager.Repr
        invariant forall j :: 0 <= j < n ==> kids[j] == t.kids[j].idx
        invariant Freed(s0, f0, pager.store, pager.free, PostOrderF(t.kids[..i]), PagesF(t.kids[..i]))
      {
        ghost var s1, f1 := pager.store, pager.free;
        NextKid(pager.order, s0, f0, s1, f1, t, i);
        FreeSubtree(kids[i], t.kids[i]);
        OneMoreFreed(s0, f0, s1, f1, pager.store, pager.free, t.kids, i);
        i := i + 1;
      }
      AllTaken(t.kids, n);
    }

    /** Removes every record. Afterwards every page but the header is free. */
    method Clear()
      requires Valid()
      modifies this, pager.Repr
      ensures Valid() && pager.Repr == old(pager.Repr)
      ensures root == NoRoot && Map() == map[]
      ensures multiset(pager.free) + multiset{0} == multiset(pager.store.Keys)
              && pager.store.Keys == old(pager.store.Keys)
    {
      hide FileShows, Pool, Subtree, Freed, ClearedTo, PostOrder, Pages, Balanced;
      ghost var s0, f0, r0 := pager.store, pager.free, root;
      var top := RootPage();
      if top != 0 {
        RootSubtree(pager.order, s0, f0, root);
        FreeSubtree(top, root.t);
        AllFreed(pager.order, s0, f0, pager.store, pager.free, root);
      } else {
        NoneToFree(pager.order, s0, f0);
      }
      ghost var s1, f1 := pager.store, pager.free;
      ClearedHeader(s0, f0, r0, s1, f1);
      ResetTree();
      root := NoRoot;
      ClearMeans(pager.order, s0, f0, r0, s1, f1, pager.store);
    }

    method ResetTree()
      requires pager.Ready()
      modifies pager.Repr
      ensures pager.Ready() && pager.Repr == old(pager.Repr) && pager.free == old(pager.free)
      ensures var s := old(pager.store);
              pager.store == s[0 := HeaderV(s[0].hdr.(root := 0, firstLeaf := 0, count := 0, height := 0))]
    {
      hide FreeList;
      ghost var s, f := pager.store, pager.free;
      var header := pager.Fetch(0);
      assert HeaderV(header.hdr) == s[0];
      pager.PutHeader(header, header.hdr.(root := 0, firstLeaf := 0, count := 0, height := 0));
      PoolHeader(s, pager.store, f, pager.store[0].hdr);
    }

    // ---- lookup and overwriting ------------------------------------------------------------------

    /** the leaf that would hold key, 0 in an empty tree */
    method FindLeaf(key: int) returns (leaf: nat)
      requires Valid()
      modifies pager.Repr
      ensures Valid() && pager.Repr == old(pager.Repr) && pager.store == old(pager.store)
              && pager.free == old(pager.free)
      ensures if root.Root? then AtLeaf(pager.order, pager.store, root, key, leaf) else leaf == 0
    {
      hide FileShows, Pool, Descending, NodeReady, AtLeaf, Balanced;
      ghost var s, f, r0 := pager.store, pager.free, root;
      leaf := RootPage();
      if leaf == 0 {
        return;
      }
      DescentStarts(pager.order, s, f, root, key);
      ghost var t, h, lo: Option<int>, hi: Option<int>, pre: seq<nat>, post: seq<nat> :=
        root.t, root.h, None, None, [], [];
      var deeper := IsBranch(leaf, key, t, h, lo, hi, pre, post);
      while deeper
        invariant Valid() && pager.Repr == old(pager.Repr) && pager.store == s && pager.free == f && root == r0
        invariant t.idx == leaf && deeper == t.Branch?
        invariant Descending(pager.order, s, root, key, t, h, lo, hi, pre, post)
        decreases h
      {
        DescentKind(pager.order, s, root, key, t, h, lo, hi, pre, post);
        var ci, child := ChildFor(leaf, key, t, h, lo, hi, pre, post);
        DescentStep(pager.order, s, root, key, t, h, lo, hi, pre, post, ci);
        lo, hi, pre, post := LoOf(t.keys, lo, ci), HiOf(t.keys, hi, ci), PreOf(pre, t.kids, ci),
          PostOf(post, t.kids, ci);
        leaf, t, h := child, t.kids[ci], h - 1;
        deeper := IsBranch(leaf, key, t, h, lo, hi, pre, post);
      }
      DescentEnds(pager.order, s, root, key, t, h, lo, hi, pre, post);
    }

    method IsBranch(idx: nat, ghost key: int, ghost t: Tree, ghost h: nat, ghost lo: Option<int>, ghost hi: Option<int>,
                    ghost pre: seq<nat>, ghost post: seq<nat>) returns (yes: bool)
      requires Valid() && t.idx == idx && Descending(pager.order, pager.store, root, key, t, h, lo, hi, pre, post)
      modifies pager.Repr
      ensures Valid() && pager.Repr == old(pager.Repr) && pager.store == old(pager.store)
              && pager.free == old(pager.free)
      ensures yes == t.Branch?
    {
      hide FileShows, Pool, Descending, NodeReady;
      DescentKind(pager.order, pager.store, root, key, t, h, lo, hi, pre, post);
      var p := pager.Fetch(idx);
      yes := p.kind == BranchPage;
    }

    /** the leaf and the record of a key */
    method Locate(key: int) returns (leaf: nat, pos: nat, found: bool)
      requires Valid()
      modifies pager.Repr
      ensures Valid() && pager.Repr == old(pager.Repr) && pager.store == old(pager.store)
              && pager.free == old(pager.free)
      ensures Located(pager.order, pager.store, root, key, leaf, pos, found)
      ensures found ==> root.Root? && leaf != 0
    {
      hide FileShows, Pool, AtLeaf, Located, ValidRoot;
      ghost var s := pager.store;
      pos, found := 0, false;
      leaf := FindLeaf(key);
      if leaf == 0 {
        NoLeaf(pager.order, s, root, key);
        NothingThere(pager.order, s, key);
        return;
      }
      FileValid(pager.order, s, pager.free, root);
      LeafFacts(pager.order, s, root, key, leaf);
      var p := pager.Fetch(leaf);
      assert LeafV(p.records[..p.count], p.nextPage, p.prevPage) == s[leaf];
      pos := p.LowerBound(key);
      found := pos < p.count && p.records[pos].key == key;
      LeafDecides(pager.order, s, root, key, leaf);
    }

    /** the value of a key, if it has one */
    method FindValue(key: int) returns (r: Option<Value>)
      requires Valid()
      modifies pager.Repr
      ensures Valid() && pager.Repr == old(pager.Repr) && pager.store == old(pager.store)
              && pager.free == old(pager.free)
      ensures r == if key in Map() then Some(Map()[key]) else None
    {
      hide FileShows, Pool, AtLeaf, Located, Contents;
      ghost var s := pager.store;
      var leaf, pos, found := Locate(key);
      LocatedFacts(pager.order, s, root, key, leaf, pos, found);
      if !found {
        return None;
      }
      var p := pager.Fetch(leaf);
      assert LeafV(p.records[..p.count], p.nextPage, p.prevPage) == s[leaf];
      r := Some(p.records[pos].val);
    }

    /** the number of records */
    method Size() returns (n: nat)
      requires Valid()
      modifies pager.Repr
      ensures Valid() && pager.Repr == old(pager.Repr) && pager.store == old(pager.store)
              && pager.free == old(pager.free)
      ensures n == |Map()|
    {
      hide FileShows, Pool, Contents;
      ghost var s := pager.store;
      FileCount(pager.order, s, pager.free, root);
      var header := pager.Fetch(0);
      assert HeaderV(header.hdr) == s[0];
      n := header.hdr.count;
    }

    /** Overwrites the value of a key that is there. */
    method Update(key: int, value: Value) returns (ok: bool)
      requires Valid()
      modifies this, pager.Repr
      ensures Valid() && pager.Repr == old(pager.Repr)
      ensures ok == (key in old(Map()))
      ensures Map() == if ok then old(Map())[key := value] else old(Map())
      ensures root == if ok then Assigned(old(root), key, value) else old(root)
      ensures !ok ==> pager.store == old(pager.store)
      ensures pager.free == old(pager.free) && pager.store.Keys == old(pager.store.Keys)
    {
      hide FileShows, Pool, AtLeaf, Located, Contents, ValidRoot, Assigned, Balanced;
      ghost var s, f, r0 := pager.store, pager.free, root;
      FileValid(pager.order, s, f, r0);
      var leaf, pos, found := Locate(key);
      LocatedFacts(pager.order, s, root, key, leaf, pos, found);
      ok := found;
      if found {
        PutFound(leaf, pos, value);
        Updated(pager.order, s, f, pager.store, r0, key, value, leaf, pos);
        AssignedKeeps(pager.order, r0, key, value);
        root := Assigned(root, key, value);
        ShowsPool(pager.order, pager.store, f, root);
      }
    }

    method PutFound(leaf: nat, pos: nat, value: Value)
      requires pager.Valid() && leaf in pager.store && pager.store[leaf].LeafV? && pos < |pager.store[leaf].recs|
      modifies pager.Repr
      ensures pager.Valid() && pager.Repr == old(pager.Repr) && pager.free == old(pager.free)
      ensures var s := old(pager.store);
              pager.store == s[leaf := s[leaf].(recs := s[leaf].recs[pos := Rec(s[leaf].recs[pos].key, value)])]
    {
      var p := pager.Fetch(leaf);
      pager.PutValue(leaf, p, pos, value);
    }

    /** Overwrites the value of a key, or adds it. */
    method InsertOrAssign(key: int, value: Value)
      requires Valid()
      modifies this, pager.Repr
      ensures Valid() && fresh(pager.Repr - old(pager.Repr))
      ensures Map() == old(Map())[key := value]
    {
      hide *;
      ghost var m := Map();
      var ok := Update(key, value);
      if !ok {
        var _, _ := Insert(key, value);
      }
    }
  }
}
