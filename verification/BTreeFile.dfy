/** What a whole page file means, and how single page writes change it. */
module BTreeFile {
  import opened BTreeModel
  import opened BTreeInsert
  import opened BTreeErase
  import opened BTreeRoot
  import opened BTreePage
  import opened BTreeStore

  // ---- links between leaves -----------------------------------------------------------------------

  ghost predicate SameLinks(s0: Store, s1: Store, p: nat) {
    p in s0 && p in s1 && s0[p].LeafV? && s1[p].LeafV? && s0[p].next == s1[p].next && s0[p].prev == s1[p].prev
  }

  lemma ChainFrame(s0: Store, s1: Store, ids: seq<nat>)
    requires Chain(s0, ids) && forall i :: 0 <= i < |ids| ==> SameLinks(s0, s1, ids[i])
    ensures Chain(s1, ids)
  {
    forall i | 0 <= i < |ids| ensures Linked(s1, ids, i) {
      assert Linked(s0, ids, i);
    }
  }

  ghost predicate HasLinks(s: Store, p: nat, next: nat, prev: nat) {
    p in s && s[p].LeafV? && s[p].next == next && s[p].prev == prev
  }

  /** Linking a new leaf r in after x. */
  lemma ChainInsert(s0: Store, s1: Store, pre: seq<nat>, x: nat, r: nat, post: seq<nat>)
    requires Chain(s0, pre + [x] + post) && r !in pre + [x] + post
    requires forall p :: p in pre ==> SameLinks(s0, s1, p)
    requires forall i :: 1 <= i < |post| ==> SameLinks(s0, s1, post[i])
    requires HasLinks(s1, x, r, At(pre, |pre| - 1)) && HasLinks(s1, r, At(post, 0), x)
    requires post != [] ==> HasLinks(s1, post[0], At(post, 1), r)
    ensures Chain(s1, pre + [x, r] + post)
  {
    var old_, new_ := pre + [x] + post, pre + [x, r] + post;
    var n := |pre|;
    assert Linked(s0, old_, n);
    forall i | 0 <= i < |new_| ensures Linked(s1, new_, i) {
      if i < n {
        assert new_[i] == old_[i] && pre[i] in pre && Linked(s0, old_, i);
      } else if i > n + 1 {
        assert new_[i] == old_[i - 1] && Linked(s0, old_, i - 1);
      }
    }
    forall i, j | 0 <= i < j < |new_| ensures new_[i] != new_[j] {
      if i != n + 1 && j != n + 1 {
        var i', j' := if i > n then i - 1 else i, if j > n then j - 1 else j;
        assert new_[i] == old_[i'] && new_[j] == old_[j'];
      } else {
        assert i != n + 1 ==> new_[i] == old_[i];
        assert j != n + 1 ==> new_[j] == old_[j - 1];
      }
    }
  }

  /** Linking the leaf x out. */
  lemma ChainRemove(s0: Store, s1: Store, pre: seq<nat>, x: nat, post: seq<nat>)
    requires Chain(s0, pre + [x] + post)
    requires forall i :: 0 <= i < |pre| - 1 ==> SameLinks(s0, s1, pre[i])
    requires forall i :: 1 <= i < |post| ==> SameLinks(s0, s1, post[i])
    requires pre != [] ==> HasLinks(s1, pre[|pre| - 1], At(post, 0), At(pre, |pre| - 2))
    requires post != [] ==> HasLinks(s1, post[0], At(post, 1), At(pre, |pre| - 1))
    ensures Chain(s1, pre + post)
  {
    var old_, new_ := pre + [x] + post, pre + post;
    var n := |pre|;
    forall i | 0 <= i < |new_| ensures Linked(s1, new_, i) {
      if i < n {
        assert new_[i] == old_[i] == pre[i] && Linked(s0, old_, i);
      } else {
        assert new_[i] == old_[i + 1] == post[i - n] && Linked(s0, old_, i + 1);
      }
    }
    forall i, j | 0 <= i < j < |new_| ensures new_[i] != new_[j] {
      var i', j' := if i >= n then i + 1 else i, if j >= n then j + 1 else j;
      assert new_[i] == old_[i'] && new_[j] == old_[j'];
    }
  }

  /** The links of leaf x within a chain. */
  lemma LinksAt(s: Store, pre: seq<nat>, x: nat, post: seq<nat>)
    requires Chain(s, pre + [x] + post)
    ensures x in s && s[x].LeafV?
    ensures s[x].next == At(post, 0) && s[x].prev == At(pre, |pre| - 1)
    ensures x !in pre && x !in post
  {
    var ids := pre + [x] + post;
    assert Linked(s, ids, |pre|) && ids[|pre|] == x;
    forall i | 0 <= i < |pre| ensures pre[i] != x {
      assert ids[i] == pre[i];
    }
    forall i | 0 <= i < |post| ensures post[i] != x {
      assert ids[|pre| + 1 + i] == post[i];
    }
  }

  lemma NextLeaf(s: Store, pre: seq<nat>, x: nat, post: seq<nat>)
    requires Chain(s, pre + [x] + post) && post != []
    ensures post[0] in s && s[post[0]].LeafV?
  {
    var ids := pre + [x] + post;
    assert ids[|pre| + 1] == post[0] && Linked(s, ids, |pre| + 1);
  }

  /** Every leaf of a chain is a leaf page. */
  lemma ChainLeaf(s: Store, ids: seq<nat>, i: nat)
    requires Chain(s, ids) && i < |ids|
    ensures ids[i] in s && s[ids[i]].LeafV?
  {
    assert Linked(s, ids, i);
  }

  // ---- what stays when other pages change -----------------------------------------------------------

  lemma PoolFrame(s0: Store, s1: Store, free: seq<nat>)
    requires Pool(s0, free) && 0 in s1 && s1[0] == s0[0]
    requires forall i :: 0 <= i < |free| ==> free[i] in s1 && s1[free[i]] == s0[free[i]]
    ensures Pool(s1, free)
  {
  }

  lemma PoolElsewhere(s0: Store, s1: Store, free: seq<nat>, idx: nat)
    requires Pool(s0, free) && idx != 0 && idx !in free
    requires forall p :: p in s0 && p != idx ==> p in s1 && s1[p] == s0[p]
    ensures Pool(s1, free)
  {
    forall i | 0 <= i < |free| ensures free[i] in s1 && s1[free[i]] == s0[free[i]] {
      assert free[i] in free;
    }
  }

  lemma HoldsElsewhere(s0: Store, s1: Store, t: Tree, idx: nat)
    requires Holds(s0, t) && idx !in Pages(t)
    requires forall p :: p in s0 && p != idx ==> p in s1 && s1[p] == s0[p]
    ensures Holds(s1, t)
  {
    forall p | p in Pages(t) ensures SameBody(s0, s1, p) {
      HoldsKinds(s0, t, p);
    }
    HoldsFrame(s0, s1, t);
  }

  /** The parent and siblings of the child being changed. */
  lemma SiblingsHold(s0: Store, s1: Store, t: Tree, ci: nat)
    requires t.Branch? && Holds(s0, t) && NoTwice(Pages(t)) && ci < |t.kids|
    requires 0 in s0 && s0[0].HeaderV? && OnlyTouched(s0, s1, Pages(t.kids[ci]))
    ensures t.idx in s1 && s1[t.idx] == s0[t.idx]
    ensures forall j :: 0 <= j < |t.kids| && j != ci ==> Holds(s1, t.kids[j])
  {
    assert t.idx !in Pages(t.kids[ci]) by {
      if t.idx in Pages(t.kids[ci]) {
        KidsApart(t, ci, t.idx);
      }
    }
    assert SameBody(s0, s1, t.idx);
    forall j | 0 <= j < |t.kids| && j != ci ensures Holds(s1, t.kids[j]) {
      forall p | p in Pages(t.kids[j]) ensures SameBody(s0, s1, p) {
        HoldsKinds(s0, t.kids[j], p);
        KidsApart(t, j, p);
      }
      HoldsFrame(s0, s1, t.kids[j]);
    }
  }

  lemma TouchedMore(s0: Store, s1: Store, part: multiset<nat>, whole: multiset<nat>)
    requires OnlyTouched(s0, s1, part) && part <= whole
    ensures OnlyTouched(s0, s1, whole)
  {
    forall p | p in s0 && p !in whole && p != 0 && !s0[p].FreeV? ensures SameBody(s0, s1, p) {
      assert p !in part;
    }
  }

  // ---- the whole file ---------------------------------------------------------------------------------

  /** The file spells out the tree `root`: its nodes, its leaf chain and its header agree, and
      every page is the header, a node of the tree, or free, and only one of these. */
  ghost predicate FileShows(ord: nat, s: Store, free: seq<nat>, root: Root) {
    && ValidRoot(ord, root)
    && Pool(s, free)
    && (root.Root? ==> Holds(s, root.t))
    && Chain(s, LeafIdsR(root))
    && HeaderShows(s[0].hdr, root)
    && PagesR(root) + multiset(free) + multiset{0} == multiset(s.Keys)
  }

  ghost predicate HeaderShows(h: Header, root: Root) {
    && h.root == (if root.Root? then root.t.idx else 0)
    && h.firstLeaf == At(LeafIdsR(root), 0)
    && h.count == |RecsR(root)|
    && h.height == (if root.Root? then root.h else 0)
  }

  lemma FileNoTwice(ord: nat, s: Store, free: seq<nat>, root: Root)
    requires FileShows(ord, s, free, root)
    ensures NoTwice(PagesR(root))
    ensures forall p :: p in PagesR(root) ==> p != 0 && p !in free
  {
    forall p ensures PagesR(root)[p] <= 1 && (p in PagesR(root) ==> p != 0 && p !in free) {
      assert (PagesR(root) + multiset(free) + multiset{0})[p] <= 1;
    }
  }

  // ---- nothing else is in the file -----------------------------------------------------------------------

  lemma {:induction false} SameTreePage(s0: Store, s1: Store, t: Tree, p: nat)
    requires Holds(s0, t) && Holds(s1, t) && p in Pages(t)
    ensures SameBody(s0, s1, p) && (s0[p].LeafV? ==> p in LeafIds(t))
    decreases t, 1
  {
    if t.Branch? && p != t.idx {
      SameForestPage(s0, s1, t.kids, p);
    }
  }

  lemma {:induction false} SameForestPage(s0: Store, s1: Store, kids: seq<Tree>, p: nat)
    requires p in PagesF(kids) && forall i :: 0 <= i < |kids| ==> Holds(s0, kids[i]) && Holds(s1, kids[i])
    ensures SameBody(s0, s1, p) && (s0[p].LeafV? ==> p in LeafIdsF(kids))
    decreases kids, 0
  {
    if p in Pages(kids[0]) {
      SameTreePage(s0, s1, kids[0], p);
    } else {
      SameForestPage(s0, s1, kids[1..], p);
    }
  }

  lemma SameChainLinks(s0: Store, s1: Store, ids: seq<nat>, p: nat)
    requires Chain(s0, ids) && Chain(s1, ids) && p in ids
    ensures SameLinks(s0, s1, p)
  {
    var i :| 0 <= i < |ids| && ids[i] == p;
    assert Linked(s0, ids, i) && Linked(s1, ids, i);
  }

  lemma SameFreePage(s0: Store, s1: Store, f: seq<nat>, p: nat)
    requires FreeList(s0, f) && FreeList(s1, f) && p in f
    ensures p in s0 && p in s1 && s0[p] == s1[p]
  {
    var i :| 0 <= i < |f| && f[i] == p;
  }

  /** The tree and the free list determine every page of the file, links and header included. */
  lemma FileDetermined(ord: nat, s0: Store, s1: Store, free: seq<nat>, root: Root)
    requires FileShows(ord, s0, free, root) && FileShows(ord, s1, free, root)
    ensures s0 == s1
  {
    hide Chain, FreeList, Holds, ValidRoot, Pages, LeafIds, Recs;
    forall p | p in s0 || p in s1 ensures p in s0 && p in s1 && s0[p] == s1[p] {
      assert (p in s0 <==> p in multiset(s0.Keys)) && (p in s1 <==> p in multiset(s1.Keys));
      if p in free {
        SameFreePage(s0, s1, free, p);
      } else if p in PagesR(root) {
        SameTreePage(s0, s1, root.t, p);
        if s0[p].LeafV? {
          SameChainLinks(s0, s1, LeafIdsR(root), p);
        }
      }
    }
  }
}
