/** Erasing, overwriting and clearing seen from the root: after each the file spells out the new tree. */
module BTreeShrinkTop {
  import opened BTreeModel
  import opened BTreeInsert
  import opened BTreeErase
  import opened BTreeMap
  import opened BTreeRoot
  import opened BTreePage
  import opened BTreeStore
  import opened BTreeFile
  import opened BTreeInsertSteps
  import opened BTreeEraseSteps
  import opened BTreeTop

  /** The whole erasure has been done. */
  ghost predicate EraseAllDone(ord: nat, s0: Store, f0: seq<nat>, s1: Store, f1: seq<nat>, root: Root, k: int,
                               erased: bool, root': Root) {
    && 2 <= ord && ValidRoot(ord, root) && root' == Erased(root, k)
    && FileShows(ord, s1, f1, root')
    && erased == (k in Contents(root))
    && (!erased ==> root' == root)
    && f1 == Pushed(Reclaimed(root, k), f0) && s1.Keys == s0.Keys
  }

  /** What that means for a caller. */
  lemma EraseMeans(ord: nat, s0: Store, f0: seq<nat>, s1: Store, f1: seq<nat>, root: Root, k: int, erased: bool,
                   root': Root)
    requires FileShows(ord, s0, f0, root) && EraseAllDone(ord, s0, f0, s1, f1, root, k, erased, root')
    ensures !erased ==> s1 == s0 && f1 == f0
    ensures root.Root? ==> Balanced(root.t, root.h)
    ensures erased == (k in Contents(root)) && Contents(root') == Contents(root) - {k}
    ensures root' == Erased(root, k) && (!erased ==> root' == root)
    ensures f1 == Pushed(Reclaimed(root, k), f0) && s1.Keys == s0.Keys
    ensures FileShows(ord, s1, f1, root')
  {
    ErasedKeeps(ord, root, k);
    if !erased {
      FileDetermined(ord, s0, s1, f0, root);
    }
  }

  lemma EraseShows(ord: nat, s0: Store, f0: seq<nat>, s1: Store, f1: seq<nat>, root: Root, k: int, erased: bool,
                   root': Root)
    requires EraseAllDone(ord, s0, f0, s1, f1, root, k, erased, root')
    ensures FileShows(ord, s1, f1, root') && Pool(s1, f1)
  {
  }

  lemma NothingToErase(ord: nat, s: Store, f: seq<nat>, k: int)
    requires 2 <= ord && FileShows(ord, s, f, NoRoot)
    ensures EraseAllDone(ord, s, f, s, f, NoRoot, k, false, NoRoot)
  {
  }

  lemma RootEraseReady(ord: nat, s: Store, f: seq<nat>, root: Root)
    requires 2 <= ord && FileShows(ord, s, f, root) && root.Root?
    ensures EraseReady(ord, s, f, root.t, root.h, None, None, [], []) && Balanced(root.t, root.h)
  {
    RootReady(ord, s, f, root);
    assert [] + LeafIds(root.t) + [] == LeafIds(root.t);
  }

  lemma RootMissed(ord: nat, s0: Store, f0: seq<nat>, s1: Store, f1: seq<nat>, root: Root, k: int, empty: bool)
    requires 2 <= ord && FileShows(ord, s0, f0, root) && root.Root? && Balanced(root.t, root.h)
    requires EraseDone(s0, f0, s1, f1, root.t, root.h, k, [], [], false, empty)
    ensures EraseAllDone(ord, s0, f0, s1, f1, root, k, false, root)
  {
    ShrinkMiss(root.t, root.h, k);
    ErasedKeeps(ord, root, k);
    assert [] + LeafIds(root.t) + [] == LeafIds(root.t);
  }

  /** A record has been erased below the root and counted off; the root itself still waits to be tidied. */
  ghost predicate RootShrunk(ord: nat, s0: Store, f0: seq<nat>, s2: Store, f2: seq<nat>, root: Root, k: int,
                             empty: bool) {
    && 2 <= ord && ValidRoot(ord, root) && root.Root? && Shrink(root.t, root.h, k).erased
    && PagesR(root) + multiset(f0) + multiset{0} == multiset(s0.Keys) && s2.Keys == s0.Keys
    && var s := Shrink(root.t, root.h, k);
    && empty == s.node.None?
    && Pool(s2, f2) && f2 == Pushed(s.freed, f0)
    && (s.node.Some? ==> Holds(s2, s.node.value) && s.node.value.idx == root.t.idx && Chain(s2, LeafIds(s.node.value))
                         && s2[0].hdr.firstLeaf == At(LeafIds(s.node.value), 0))
    && (s.node.None? ==> root.t.idx in s2 && (s2[root.t.idx].LeafV? || s2[root.t.idx].BranchV?))
    && s2[0].hdr.root == root.t.idx && s2[0].hdr.height == root.h && s2[0].hdr.count == |RecsR(root)| - 1
  }

  lemma CountPositive(ord: nat, s0: Store, f0: seq<nat>, s1: Store, f1: seq<nat>, root: Root, k: int, empty: bool)
    requires 2 <= ord && FileShows(ord, s0, f0, root) && root.Root? && Balanced(root.t, root.h)
    requires EraseDone(s0, f0, s1, f1, root.t, root.h, k, [], [], true, empty)
    ensures 0 in s1 && s1[0].HeaderV? && s1[0].hdr.count > 0
  {
    RootSorted(ord, root);
  }

  lemma RootCounted(ord: nat, s0: Store, f0: seq<nat>, s1: Store, f1: seq<nat>, s2: Store, root: Root, k: int,
                    empty: bool)
    requires 2 <= ord && FileShows(ord, s0, f0, root) && root.Root? && Balanced(root.t, root.h)
    requires EraseDone(s0, f0, s1, f1, root.t, root.h, k, [], [], true, empty)
    requires 0 in s1 && s1[0].HeaderV? && s1[0].hdr.count > 0
    requires s2 == s1[0 := HeaderV(s1[0].hdr.(count := s1[0].hdr.count - 1))]
    ensures RootShrunk(ord, s0, f0, s2, f1, root, k, empty)
  {
    hide ValidRoot, FreeList, Chain, Holds, Shrink, Pages, Recs, LeafIds;
    var s := Shrink(root.t, root.h, k);
    ShrinkIdx(root.t, root.h, k);
    if s.node.Some? {
      var n := s.node.value;
      assert [] + LeafIds(n) + [] == LeafIds(n);
      ChainElsewhere(s1, s2, LeafIds(n));
      HoldsHeader(s1, s2, n, s2[0].hdr);
    }
    PoolHeader(s1, s2, f1, s2[0].hdr);
    assert s2.Keys == s1.Keys;
  }

  // ---- the tree became empty ----------------------------------------------------------------------

  lemma RootFreeable(ord: nat, s0: Store, f0: seq<nat>, s2: Store, f2: seq<nat>, root: Root, k: int)
    requires RootShrunk(ord, s0, f0, s2, f2, root, k, true)
    ensures 0 in s2 && s2[0].HeaderV? && s2[0].hdr.root == root.t.idx
    ensures root.t.idx in s2 && root.t.idx != 0 && root.t.idx !in f2
  {
    NotFree(s2, f2, root.t.idx);
  }

  /** What an erasure that leaves nothing says of the root: it had one record, and all its pages are reclaimed. */
  lemma ErasedToNothing(ord: nat, root: Root, k: int)
    requires ValidRoot(ord, root) && root.Root?
    requires Shrink(root.t, root.h, k).erased && Shrink(root.t, root.h, k).node.None?
    ensures Balanced(root.t, root.h) && Erased(root, k) == NoRoot && k in Contents(root) && |RecsR(root)| == 1
    ensures Reclaimed(root, k) == Shrink(root.t, root.h, k).freed + [root.t.idx]
    ensures PagesR(root) == multiset(Reclaimed(root, k))
  {
    hide Shrink, WF, Pages, Recs, Hit, Lower;
    ErasedKeeps(ord, root, k);
    ErasedRecs(ord, root, k);
  }

  /** With a cleared header and every other page free, the file shows the empty tree. */
  lemma NothingLeft(ord: nat, s3: Store, s4: Store, f: seq<nat>)
    requires Pool(s3, f) && s3[0].hdr.count == 0
    requires s4 == s3[0 := HeaderV(s3[0].hdr.(root := 0, firstLeaf := 0, height := 0))]
    requires multiset(f) + multiset{0} == multiset(s4.Keys)
    ensures FileShows(ord, s4, f, NoRoot)
  {
    hide Pool;
    PoolHeader(s3, s4, f, s4[0].hdr);
  }

  lemma RootEmptied(ord: nat, s0: Store, f0: seq<nat>, s2: Store, f2: seq<nat>, s3: Store, s4: Store, root: Root,
                    k: int)
    requires RootShrunk(ord, s0, f0, s2, f2, root, k, true)
    requires Pool(s3, [root.t.idx] + f2) && s3.Keys == s2.Keys && SameTreeFields(s2, s3)
    requires s4 == s3[0 := HeaderV(s3[0].hdr.(root := 0, firstLeaf := 0, height := 0))]
    ensures EraseAllDone(ord, s0, f0, s4, [root.t.idx] + f2, root, k, true, NoRoot)
  {
    hide ValidRoot, FileShows, FreeList, HeadsFree, Shrink, Pages, Recs, Contents, Erased, Reclaimed, Pushed;
    ErasedToNothing(ord, root, k);
    var freed, f3 := Shrink(root.t, root.h, k).freed, [root.t.idx] + f2;
    PushedOne(freed, root.t.idx, f0);
    PushedAll(Reclaimed(root, k), f0);
    assert s4.Keys == s0.Keys;
    NothingLeft(ord, s3, s4, f3);
  }

  lemma PushedOne(freed: seq<nat>, x: nat, f: seq<nat>)
    ensures Pushed(freed + [x], f) == [x] + Pushed(freed, f)
  {
    PushedAppend(freed, [x], f);
    assert Pushed([x], Pushed(freed, f)) == Pushed([], [x] + Pushed(freed, f));
  }

  // ---- collapsing a chain of single-child roots ----------------------------------------------------

  /** On the way down from n0, the tree that shrinking left, the root is now c on level hc. */
  ghost predicate Collapsing(ord: nat, s: Store, f: seq<nat>, c: Tree, hc: nat, n0: Tree, h0: nat, f0: seq<nat>,
                             keys: set<nat>) {
    && Pool(s, f) && Holds(s, c) && NoTwice(Pages(c)) && Balanced(c, hc) && WF(c, ord, None, None)
    && Chain(s, LeafIds(c)) && LeafIds(c) == LeafIds(n0) && Recs(c) == Recs(n0) && Collapse(c) == Collapse(n0)
    && hc - |Dropped(c)| == h0 - |Dropped(n0)| && Pushed(Dropped(c), f) == Pushed(Dropped(n0), f0)
    && s[0].hdr.root == c.idx && s[0].hdr.height == hc
    && s[0].hdr.firstLeaf == At(LeafIds(c), 0) && s[0].hdr.count == |Recs(c)|
    && s.Keys == keys
  }

  lemma CollapseStarts(ord: nat, s0: Store, f0: seq<nat>, s2: Store, f2: seq<nat>, root: Root, k: int)
    requires RootShrunk(ord, s0, f0, s2, f2, root, k, false)
    ensures Shrink(root.t, root.h, k).node.Some?
    ensures var n := Shrink(root.t, root.h, k).node.value;
            Collapsing(ord, s2, f2, n, root.h, n, root.h, f2, s0.Keys)
  {
    hide FreeList, Chain, Holds, Shrink, Recs, LeafIds, Pages, Collapse, Dropped, Pushed, Hit, Lower;
    ShrinkBalanced(root.t, root.h, k);
    ShrinkWF(root.t, root.h, k, ord, None, None);
    ShrinkRecs(root.t, root.h, k, ord, None, None);
    ShrinkPages(root.t, root.h, k, ord, None, None);
    var n := Shrink(root.t, root.h, k).node.value;
    forall p ensures Pages(n)[p] <= 1 {
      assert (PagesR(root) + multiset(f0) + multiset{0})[p] <= 1;
    }
  }

  lemma CollapseFacts(ord: nat, s: Store, f: seq<nat>, c: Tree, hc: nat, n0: Tree, h0: nat, f0: seq<nat>,
                      keys: set<nat>)
    requires Collapsing(ord, s, f, c, hc, n0, h0, f0, keys)
    ensures 0 in s && s[0].HeaderV? && s[0].hdr.root == c.idx && s[0].hdr.height == hc > 0
    ensures c.idx in s && c.idx != 0 && c.idx !in f
    ensures c.Leaf? ==> s[c.idx].LeafV?
    ensures c.Branch? ==> s[c.idx].BranchV? && s[c.idx].keys == c.keys && |s[c.idx].kids| == |c.kids| == |c.keys| + 1
                          && s[c.idx].kids[0] == c.kids[0].idx
  {
    HoldsKinds(s, c, c.idx);
    NotFree(s, f, c.idx);
  }

  lemma HoldsAway(s0: Store, s1: Store, t: Tree, a: nat)
    requires Holds(s0, t) && a !in Pages(t) && 0 in s0 && s0[0].HeaderV?
    requires forall p :: p in s0 && p != a && p != 0 ==> p in s1 && s1[p] == s0[p]
    ensures Holds(s1, t)
  {
    forall p | p in Pages(t) ensures SameBody(s0, s1, p) {
      HoldsKinds(s0, t, p);
    }
    HoldsFrame(s0, s1, t);
  }

  /** One turn of the loop: the header names the only child, and the old root's page is reclaimed. */
  lemma CollapseStep(ord: nat, s: Store, f: seq<nat>, s1: Store, s2: Store, c: Tree, hc: nat, n0: Tree, h0: nat,
                     f0: seq<nat>, keys: set<nat>)
    requires Collapsing(ord, s, f, c, hc, n0, h0, f0, keys) && c.Branch? && c.keys == []
    requires 0 in s && s[0].HeaderV? && hc > 0 && |c.kids| == 1
    requires s1 == s[0 := HeaderV(s[0].hdr.(root := c.kids[0].idx, height := hc - 1))]
    requires Pool(s2, [c.idx] + f) && s2.Keys == s1.Keys && SameTreeFields(s1, s2)
    requires forall p :: p in s1 && p != 0 && p != c.idx ==> s2[p] == s1[p]
    ensures Collapsing(ord, s2, [c.idx] + f, c.kids[0], hc - 1, n0, h0, f0, keys)
  {
    hide FreeList, Chain, NoTwice, Pages, Collapse, Dropped, WF, Balanced, LeafIds, Recs;
    CollapseFacts(ord, s, f, c, hc, n0, h0, f0, keys);
    OneKid(c, ord, hc);
    KidNoTwice(c, 0);
    OnlyKidApart(c);
    var kid := c.kids[0];
    HoldsAway(s, s2, kid, c.idx);
    ChainElsewhere(s, s2, LeafIds(kid));
    assert Pushed(Dropped(c), f) == Pushed(Dropped(kid), [c.idx] + f) by {
      assert Dropped(c)[1..] == Dropped(kid);
    }
  }

  lemma OnlyKidApart(c: Tree)
    requires c.Branch? && NoTwice(Pages(c)) && |c.kids| == 1
    ensures c.idx !in Pages(c.kids[0])
  {
    if c.idx in Pages(c.kids[0]) {
      KidsApart(c, 0, c.idx);
    }
  }

  lemma CollapseEnds(ord: nat, s0: Store, f0: seq<nat>, f2: seq<nat>, s: Store, f: seq<nat>, c: Tree, hc: nat,
                     root: Root, k: int)
    requires 2 <= ord && ValidRoot(ord, root) && root.Root? && Shrink(root.t, root.h, k).erased
    requires Shrink(root.t, root.h, k).node.Some?
    requires PagesR(root) + multiset(f0) + multiset{0} == multiset(s0.Keys)
    requires var sh := Shrink(root.t, root.h, k);
             && f2 == Pushed(sh.freed, f0)
             && Collapsing(ord, s, f, c, hc, sh.node.value, root.h, f2, s0.Keys)
    requires !(c.Branch? && c.keys == [])
    ensures EraseAllDone(ord, s0, f0, s, f, root, k, true, Root(c, hc))
  {
    hide FreeList, Chain, Shrink, NoTwice, Pages, Recs, LeafIds, Holds, Hit, Lower, WF, Dropped, Collapse, Pushed,
         Contents;
    var sh := Shrink(root.t, root.h, k);
    ErasedKeeps(ord, root, k);
    AtRest(c, f);
    PushedAppend(sh.freed, Dropped(sh.node.value), f0);
    PushedAll(Reclaimed(root, k), f0);
  }

  lemma AtRest(c: Tree, f: seq<nat>)
    requires !(c.Branch? && c.keys == [])
    ensures Dropped(c) == [] && Collapse(c) == c && Pushed([], f) == f
  {
  }

  lemma ShrunkFacts(ord: nat, s0: Store, f0: seq<nat>, s2: Store, f2: seq<nat>, root: Root, k: int, empty: bool)
    requires RootShrunk(ord, s0, f0, s2, f2, root, k, empty)
    ensures 2 <= ord && ValidRoot(ord, root) && root.Root? && Balanced(root.t, root.h)
            && Shrink(root.t, root.h, k).erased
    ensures empty == Shrink(root.t, root.h, k).node.None?
    ensures PagesR(root) + multiset(f0) + multiset{0} == multiset(s0.Keys)
            && f2 == Pushed(Shrink(root.t, root.h, k).freed, f0)
  {
  }

  // ---- freeing a whole tree --------------------------------------------------------------------------

  /** the pages of a tree, children before their parent */
  function PostOrder(t: Tree): seq<nat> {
    match t
    case Leaf(idx, _) => [idx]
    case Branch(idx, _, kids) => PostOrderF(kids) + [idx]
  }

  function PostOrderF(kids: seq<Tree>): seq<nat> {
    if kids == [] then [] else PostOrderF(kids[..|kids| - 1]) + PostOrder(kids[|kids| - 1])
  }

  lemma {:induction false} PostOrderPages(t: Tree)
    ensures multiset(PostOrder(t)) == Pages(t)
    decreases t, 0
  {
    if t.Branch? {
      PostOrderForest(t.kids);
    }
  }

  lemma {:induction false} PostOrderForest(kids: seq<Tree>)
    ensures multiset(PostOrderF(kids)) == PagesF(kids)
    decreases kids, 0
  {
    if kids != [] {
      var n := |kids| - 1;
      PostOrderForest(kids[..n]);
      PostOrderPages(kids[n]);
      PagesAt(kids, n);
      assert kids[n + 1..] == [];
    }
  }

  /** a tree whose pages may all be freed */
  ghost predicate Subtree(ord: nat, s: Store, f: seq<nat>, t: Tree) {
    Pool(s, f) && Holds(s, t) && NoTwice(Pages(t)) && KidsMatch(t)
  }

  predicate KidsMatch(t: Tree) {
    t.Branch? ==> |t.kids| == |t.keys| + 1 && forall i :: 0 <= i < |t.kids| ==> KidsMatch(t.kids[i])
  }

  lemma {:induction false} BalancedMatch(t: Tree, h: nat)
    requires Balanced(t, h)
    ensures KidsMatch(t)
  {
    if t.Branch? {
      forall i | 0 <= i < |t.kids| ensures KidsMatch(t.kids[i]) {
        BalancedMatch(t.kids[i], h - 1);
      }
    }
  }

  /** The pages `ids` have been pushed onto the free list in turn; besides the header only `pages` were written. */
  ghost predicate Freed(s0: Store, f0: seq<nat>, s1: Store, f1: seq<nat>, ids: seq<nat>, pages: multiset<nat>) {
    && Pool(s1, f1) && f1 == Pushed(ids, f0) && s1.Keys == s0.Keys && SameTreeFields(s0, s1)
    && (forall p :: p in s0 && p != 0 && p !in pages ==> s1[p] == s0[p])
    && forall p :: p in f1 ==> p in f0 || p in pages
  }

  lemma SubtreeFacts(ord: nat, s: Store, f: seq<nat>, t: Tree)
    requires Subtree(ord, s, f, t)
    ensures t.idx in s && Pool(s, f)
    ensures if t.Leaf? then s[t.idx].LeafV? else s[t.idx].BranchV? && |s[t.idx].kids| == |s[t.idx].keys| + 1 == |t.kids|
    ensures t.Branch? ==> forall i {:trigger t.kids[i]} :: 0 <= i < |t.kids| ==> s[t.idx].kids[i] == t.kids[i].idx
  {
  }

  lemma NoKids(s: Store, f: seq<nat>, t: Tree)
    requires Pool(s, f) && t.Leaf?
    ensures Freed(s, f, s, f, [], multiset{})
  {
  }

  lemma NoneFreed(ord: nat, s: Store, f: seq<nat>, t: Tree)
    requires t.Branch? && Subtree(ord, s, f, t)
    ensures Freed(s, f, s, f, PostOrderF(t.kids[..0]), PagesF(t.kids[..0]))
  {
  }

  lemma AllTaken(kids: seq<Tree>, n: nat)
    requires n == |kids|
    ensures kids[..n] == kids
  {
  }

  lemma NextKid(ord: nat, s0: Store, f0: seq<nat>, s1: Store, f1: seq<nat>, t: Tree, i: nat)
    requires t.Branch? && Subtree(ord, s0, f0, t) && i < |t.kids|
    requires Freed(s0, f0, s1, f1, PostOrderF(t.kids[..i]), PagesF(t.kids[..i]))
    ensures Subtree(ord, s1, f1, t.kids[i])
  {
    var kid := t.kids[i];
    KidNoTwice(t, i);
    forall p | p in Pages(kid) ensures SameBody(s0, s1, p) {
      HoldsKinds(s0, kid, p);
      KidsApart(t, i, p);
      if p in PagesF(t.kids[..i]) {
        KidWith(t.kids[..i], p);
      }
    }
    HoldsFrame(s0, s1, kid);
  }

  lemma OneMoreFreed(s0: Store, f0: seq<nat>, s1: Store, f1: seq<nat>, s2: Store, f2: seq<nat>, kids: seq<Tree>, i: nat)
    requires i < |kids| && Freed(s0, f0, s1, f1, PostOrderF(kids[..i]), PagesF(kids[..i]))
    requires Freed(s1, f1, s2, f2, PostOrder(kids[i]), Pages(kids[i]))
    ensures Freed(s0, f0, s2, f2, PostOrderF(kids[..i + 1]), PagesF(kids[..i + 1]))
  {
    hide Pool, PostOrder, Pages, Pushed;
    var ts := kids[..i + 1];
    assert ts[..i] == kids[..i] && ts[i] == kids[i] && ts[i + 1..] == [];
    PagesAt(ts, i);
    PushedAppend(PostOrderF(kids[..i]), PostOrder(kids[i]), f0);
  }

  /** what freeing the children leaves to be done */
  ghost predicate KidsGone(s0: Store, f0: seq<nat>, s1: Store, f1: seq<nat>, t: Tree) {
    Freed(s0, f0, s1, f1, if t.Leaf? then [] else PostOrderF(t.kids), if t.Leaf? then multiset{} else PagesF(t.kids))
  }

  lemma KidsFreed(ord: nat, s0: Store, f0: seq<nat>, s1: Store, f1: seq<nat>, t: Tree)
    requires Subtree(ord, s0, f0, t)
    requires t.Leaf? ==> Freed(s0, f0, s1, f1, [], multiset{})
    requires t.Branch? ==> Freed(s0, f0, s1, f1, PostOrderF(t.kids), PagesF(t.kids))
    ensures KidsGone(s0, f0, s1, f1, t) && Pool(s1, f1)
    ensures t.idx in s1 && t.idx != 0 && t.idx !in f1
  {
    HoldsKinds(s0, t, t.idx);
    assert Pages(t)[t.idx] <= 1;
    NotFree(s0, f0, t.idx);
  }

  lemma SubtreeFreed(ord: nat, s0: Store, f0: seq<nat>, s1: Store, f1: seq<nat>, s2: Store, t: Tree)
    requires Subtree(ord, s0, f0, t) && KidsGone(s0, f0, s1, f1, t)
    requires Pool(s2, [t.idx] + f1) && s2.Keys == s1.Keys && SameTreeFields(s1, s2)
    requires forall q :: q in s1 && q != 0 && q != t.idx ==> s2[q] == s1[q]
    ensures Freed(s0, f0, s2, [t.idx] + f1, PostOrder(t), Pages(t))
  {
    hide Pool, Pushed;
    PushedOne(if t.Leaf? then [] else PostOrderF(t.kids), t.idx, f0);
    assert t.Leaf? ==> [] + [t.idx] == [t.idx];
  }

  /** Every page of the old tree has been freed; the header still names it. */
  ghost predicate ClearedTo(s0: Store, f0: seq<nat>, root: Root, s1: Store, f1: seq<nat>) {
    && Pool(s1, f1) && s1.Keys == s0.Keys && multiset(f1) + multiset{0} == multiset(s0.Keys)
  }

  lemma RootSubtree(ord: nat, s: Store, f: seq<nat>, root: Root)
    requires FileShows(ord, s, f, root) && root.Root?
    ensures Subtree(ord, s, f, root.t)
  {
    FileNoTwice(ord, s, f, root);
    BalancedMatch(root.t, root.h);
  }

  lemma AllFreed(ord: nat, s0: Store, f0: seq<nat>, s1: Store, f1: seq<nat>, root: Root)
    requires FileShows(ord, s0, f0, root) && root.Root? && Freed(s0, f0, s1, f1, PostOrder(root.t), Pages(root.t))
    ensures ClearedTo(s0, f0, root, s1, f1)
  {
    hide Pool, Chain, Holds, ValidRoot, Pages, PostOrder, Pushed;
    PostOrderPages(root.t);
    PushedAll(PostOrder(root.t), f0);
  }

  lemma NoneToFree(ord: nat, s: Store, f: seq<nat>)
    requires FileShows(ord, s, f, NoRoot)
    ensures ClearedTo(s, f, NoRoot, s, f)
  {
  }

  lemma ClearedHeader(s0: Store, f0: seq<nat>, root: Root, s1: Store, f1: seq<nat>)
    requires ClearedTo(s0, f0, root, s1, f1)
    ensures 0 in s1 && s1[0].HeaderV?
  {
  }

  lemma ClearMeans(ord: nat, s0: Store, f0: seq<nat>, root: Root, s1: Store, f1: seq<nat>, s2: Store)
    requires ClearedTo(s0, f0, root, s1, f1) && 0 in s1 && s1[0].HeaderV?
    requires s2 == s1[0 := HeaderV(s1[0].hdr.(root := 0, firstLeaf := 0, count := 0, height := 0))]
    ensures FileShows(ord, s2, f1, NoRoot)
    ensures multiset(f1) + multiset{0} == multiset(s2.Keys) && s2.Keys == s0.Keys
  {
    hide FreeList;
    PoolHeader(s1, s2, f1, s2[0].hdr);
    assert s2.Keys == s1.Keys;
  }
}
