/** Erasure, page write by page write: each step spells out the tree that `Shrink` computes. */
module BTreeEraseSteps {
  import opened BTreeModel
  import opened BTreeInsert
  import opened BTreeErase
  import opened BTreePage
  import opened BTreeStore
  import opened BTreeFile
  import opened BTreeInsertSteps

  /** the free list after the pages `freed` have been pushed onto it, one after the other */
  function Pushed(freed: seq<nat>, free: seq<nat>): seq<nat> {
    if freed == [] then free else Pushed(freed[1..], [freed[0]] + free)
  }

  lemma {:induction false} PushedAppend(a: seq<nat>, b: seq<nat>, free: seq<nat>)
    ensures Pushed(a + b, free) == Pushed(b, Pushed(a, free))
  {
    if a == [] {
      assert a + b == b;
    } else {
      assert (a + b)[1..] == a[1..] + b;
      PushedAppend(a[1..], b, [a[0]] + free);
    }
  }

  lemma {:induction false} PushedAll(freed: seq<nat>, free: seq<nat>)
    ensures multiset(Pushed(freed, free)) == multiset(freed) + multiset(free)
  {
    if freed != [] {
      PushedAll(freed[1..], [freed[0]] + free);
      assert freed == [freed[0]] + freed[1..];
    }
  }

  /** The leaves that a node still has in the chain after erasing from it: an emptied leaf stays
      linked until its parent removes it, an emptied branch has none. */
  function StillLinked(t: Tree, s: Shrunk): seq<nat> {
    if s.node.Some? then LeafIds(s.node.value) else if t.Leaf? then [t.idx] else []
  }

  /** What erasing below node t does to the file, given the leaves `pre` and `post` around it. */
  ghost predicate ShrunkFile(s0: Store, f0: seq<nat>, s1: Store, f1: seq<nat>, t: Tree, pre: seq<nat>, post: seq<nat>,
                             s: Shrunk) {
    && (s.node.Some? ==> Holds(s1, s.node.value))
    && (s.node.None? ==> t.idx in s1 && (if t.Leaf? then s1[t.idx].LeafV? else s1[t.idx].BranchV?))
    && Chain(s1, pre + StillLinked(t, s) + post)
    && Pool(s1, f1) && f1 == Pushed(s.freed, f0) && s1.Keys == s0.Keys
    && OnlyTouched(s0, s1, Pages(t))
    && 0 in s0 && s0[0].HeaderV?
    && TreeFields(s1[0].hdr) == TreeFields(s0[0].hdr).(firstLeaf := At(pre + StillLinked(t, s) + post, 0))
  }

  // ---- leaves -------------------------------------------------------------------------------------

  lemma NothingErased(s: Store, f: seq<nat>, t: Tree, pre: seq<nat>, post: seq<nat>)
    requires Holds(s, t) && Chain(s, pre + LeafIds(t) + post) && Pool(s, f)
    requires s[0].hdr.firstLeaf == At(pre + LeafIds(t) + post, 0)
    ensures ShrunkFile(s, f, s, f, t, pre, post, Shrunk(false, Some(t), []))
  {
  }

  lemma LeafShrank(s0: Store, f: seq<nat>, s1: Store, t: Tree, k: int, pre: seq<nat>, post: seq<nat>)
    requires t.Leaf? && Holds(s0, t) && Chain(s0, pre + [t.idx] + post) && Pool(s0, f) && Hit(t.recs, k)
    requires s1 == s0[t.idx := s0[t.idx].(recs := DropRec(t.recs, Lower(t.recs, k)))]
    requires s0[0].hdr.firstLeaf == At(pre + [t.idx] + post, 0)
    ensures ShrunkFile(s0, f, s1, f, t, pre, post, ShrinkLeaf(t, k))
  {
    LeafRewritten(s0, f, s1, t.idx, DropRec(t.recs, Lower(t.recs, k)), pre, post);
    assert s1.Keys == s0.Keys;
  }

  // ---- removing a child ---------------------------------------------------------------------------

  /** The page p after the neighbours of a leaf between `pre` and `post` have been linked to each other. */
  function Relinked(v: PageView, p: nat, pre: seq<nat>, post: seq<nat>): PageView {
    if !v.LeafV? then v
    else
      var w := if pre != [] && p == pre[|pre| - 1] then v.(next := At(post, 0)) else v;
      if post != [] && p == post[0] then w.(prev := At(pre, |pre| - 1)) else w
  }

  /** The file after child page x has been removed from the branch on page idx. */
  ghost predicate RemovedTo(s1: Store, f1: seq<nat>, s2: Store, idx: nat, x: nat, leaf: bool, pre: seq<nat>,
                            post: seq<nat>, v: PageView) {
    && s2.Keys == s1.Keys && x in s1 && idx in s1 && x != 0 && idx != 0 && x != idx
    && Pool(s2, [x] + f1)
    && s2[idx] == v && v.BranchV?
    && 0 in s1 && s1[0].HeaderV?
    && TreeFields(s2[0].hdr) == (if leaf then TreeFields(s1[0].hdr).(firstLeaf := At(pre + post, 0))
                                 else TreeFields(s1[0].hdr))
    && forall p :: p in s1 && p != 0 && p != x && p != idx ==>
         s2[p] == if leaf then Relinked(s1[p], p, pre, post) else s1[p]
  }

  lemma RemovedChain(s1: Store, f1: seq<nat>, s2: Store, idx: nat, x: nat, pre: seq<nat>, post: seq<nat>, v: PageView)
    requires Chain(s1, pre + [x] + post) && idx in s1 && s1[idx].BranchV?
    requires RemovedTo(s1, f1, s2, idx, x, true, pre, post, v)
    ensures Chain(s2, pre + post)
  {
    hide Pool, TreeFields;
    var ids, n := pre + [x] + post, |pre|;
    LinksAt(s1, pre, x, post);
    forall i | 0 <= i < |ids| ensures ids[i] in s1 && s1[ids[i]].LeafV? && ids[i] != 0 && (i != n ==> ids[i] != x) {
      ChainLeaf(s1, ids, i);
    }
    forall i | 0 <= i < n - 1 ensures SameLinks(s1, s2, pre[i]) {
      assert ids[i] == pre[i] && ids[n - 1] == pre[n - 1] && (post != [] ==> ids[n + 1] == post[0]);
    }
    forall i | 1 <= i < |post| ensures SameLinks(s1, s2, post[i]) {
      assert ids[n + 1 + i] == post[i] && ids[n + 1] == post[0] && (pre != [] ==> ids[n - 1] == pre[n - 1]);
    }
    if pre != [] {
      assert Linked(s1, ids, n - 1) && ids[n - 1] == pre[n - 1] && (post != [] ==> ids[n + 1] == post[0]);
      assert At(ids, n - 2) == At(pre, n - 2);
    }
    if post != [] {
      assert Linked(s1, ids, n + 1) && ids[n + 1] == post[0] && (pre != [] ==> ids[n - 1] == pre[n - 1]);
      assert At(ids, n + 2) == At(post, 1);
    }
    ChainRemove(s1, s2, pre, x, post);
  }

  lemma RemovedBodies(s1: Store, f1: seq<nat>, s2: Store, idx: nat, x: nat, leaf: bool, pre: seq<nat>, post: seq<nat>,
                      v: PageView, p: nat)
    requires RemovedTo(s1, f1, s2, idx, x, leaf, pre, post, v) && p in s1 && p != 0 && p != idx && p != x
    ensures SameBody(s1, s2, p)
  {
  }

  lemma RemovedHold(s1: Store, f1: seq<nat>, s2: Store, idx: nat, x: nat, leaf: bool, pre: seq<nat>, post: seq<nat>,
                    v: PageView, kids: seq<Tree>)
    requires RemovedTo(s1, f1, s2, idx, x, leaf, pre, post, v) && AllHold(s1, kids)
    requires forall i :: 0 <= i < |kids| ==> idx !in Pages(kids[i]) && x !in Pages(kids[i])
    ensures AllHold(s2, kids)
  {
    forall i | 0 <= i < |kids| ensures Holds(s2, kids[i]) {
      forall p | p in Pages(kids[i]) ensures SameBody(s1, s2, p) {
        HoldsKinds(s1, kids[i], p);
        RemovedBodies(s1, f1, s2, idx, x, leaf, pre, post, v, p);
      }
      HoldsFrame(s1, s2, kids[i]);
    }
  }

  lemma NamesDropped(ids: seq<nat>, kids: seq<Tree>, ci: nat)
    requires Names(ids, kids) && ci < |kids|
    ensures Names(ids[..ci] + ids[ci + 1..], DropKid(kids, ci))
  {
  }

  /** the branch page without child ci */
  function BranchWithout(v: PageView, ci: nat): PageView
    requires v.BranchV? && ci < |v.kids| == |v.keys| + 1
  {
    if v.keys == [] then v else BranchV(DropKey(v.keys, KeyOf(v.keys, ci)), v.kids[..ci] + v.kids[ci + 1..])
  }

  lemma OthersApart(t: Tree, ci: nat)
    requires t.Branch? && NoTwice(Pages(t)) && ci < |t.kids|
    ensures t.idx != t.kids[ci].idx
    ensures forall j :: 0 <= j < |t.kids| && j != ci ==>
            t.idx !in Pages(t.kids[j]) && t.kids[ci].idx !in Pages(t.kids[j])
  {
    KidsApart(t, ci, t.kids[ci].idx);
    forall j | 0 <= j < |t.kids| && j != ci ensures t.idx !in Pages(t.kids[j]) {
      if t.idx in Pages(t.kids[j]) {
        KidsApart(t, j, t.idx);
      }
    }
  }

  lemma RemovedNode(s0: Store, s1: Store, f1: seq<nat>, s2: Store, t: Tree, ci: nat, pre: seq<nat>, post: seq<nat>)
    requires t.Branch? && Holds(s0, t) && NoTwice(Pages(t)) && ci < |t.kids| == |t.keys| + 1
    requires 0 in s0 && s0[0].HeaderV? && OnlyTouched(s0, s1, Pages(t.kids[ci]))
    requires t.idx in s0 && s0[t.idx].BranchV? && |s0[t.idx].kids| == |s0[t.idx].keys| + 1 == |t.kids|
    requires RemovedTo(s1, f1, s2, t.idx, t.kids[ci].idx, t.kids[ci].Leaf?, pre, post, BranchWithout(s0[t.idx], ci))
    ensures t.keys != [] ==> Holds(s2, Branch(t.idx, DropKey(t.keys, KeyOf(t.keys, ci)), DropKid(t.kids, ci)))
    ensures OnlyTouched(s0, s2, Pages(t))
  {
    SiblingsHold(s0, s1, t, ci);
    OthersApart(t, ci);
    KidPages(t.kids, ci);
    if t.keys != [] {
      RemovedHold(s1, f1, s2, t.idx, t.kids[ci].idx, t.kids[ci].Leaf?, pre, post, BranchWithout(s0[t.idx], ci),
                  DropKid(t.kids, ci));
      NamesDropped(s0[t.idx].kids, t.kids, ci);
      HoldsBranch(s2, t.idx, DropKey(t.keys, KeyOf(t.keys, ci)), DropKid(t.kids, ci));
    }
    forall p | p in s0 && p !in Pages(t) && p != 0 && !s0[p].FreeV? ensures SameBody(s0, s2, p) {
      assert p !in Pages(t.kids[ci]) && t.kids[ci].idx in Pages(t.kids[ci]);
      assert SameBody(s0, s1, p);
      RemovedBodies(s1, f1, s2, t.idx, t.kids[ci].idx, t.kids[ci].Leaf?, pre, post, BranchWithout(s0[t.idx], ci), p);
    }
  }

  lemma ChainShrunk(t: Tree, ci: nat, s: Shrunk, pre: seq<nat>, post: seq<nat>)
    requires t.Branch? && ci < |t.kids| == |t.keys| + 1
    ensures PreOf(pre, t.kids, ci) + LeafIdsS(s) + PostOf(post, t.kids, ci) ==
            pre + StillLinked(t, ShrinkBranch(t.idx, t.keys, t.kids, ci, s)) + post
  {
    ShrinkBranchParts(t.idx, t.keys, t.kids, ci, s);
    Regroup(pre, LeafIdsF(t.kids[..ci]), LeafIdsS(s), LeafIdsF(t.kids[ci + 1..]), post);
  }

  lemma LostChildChain(s1: Store, f1: seq<nat>, s2: Store, idx: nat, kid: Tree, s: Shrunk, p: seq<nat>, q: seq<nat>,
                       v: PageView)
    requires s.node.None? && Chain(s1, p + StillLinked(kid, s) + q) && idx in s1 && s1[idx].BranchV?
    requires kid.idx in s1 && (kid.Branch? ==> s1[kid.idx].BranchV?)
    requires RemovedTo(s1, f1, s2, idx, kid.idx, kid.Leaf?, p, q, v)
    requires s1[0].hdr.firstLeaf == At(p + StillLinked(kid, s) + q, 0)
    ensures Chain(s2, p + q) && TreeFields(s2[0].hdr) == TreeFields(s1[0].hdr).(firstLeaf := At(p + q, 0))
  {
    hide Chain, Pool;
    if kid.Leaf? {
      RemovedChain(s1, f1, s2, idx, kid.idx, p, q, v);
    } else {
      assert p + [] + q == p + q;
      ChainElsewhere(s1, s2, p + q);
    }
  }

  /** The child became empty and was removed. */
  lemma BranchLostChild(s0: Store, f0: seq<nat>, s1: Store, f1: seq<nat>, s2: Store, t: Tree, ci: nat, s: Shrunk,
                        pre: seq<nat>, post: seq<nat>)
    requires t.Branch? && Holds(s0, t) && NoTwice(Pages(t)) && ci < |t.kids| == |t.keys| + 1
    requires t.idx in s0 && s0[t.idx].BranchV? && |s0[t.idx].kids| == |s0[t.idx].keys| + 1 == |t.kids| && t.idx in s1
    requires s.node.None? && ShrunkFile(s0, f0, s1, f1, t.kids[ci], PreOf(pre, t.kids, ci), PostOf(post, t.kids, ci), s)
    requires RemovedTo(s1, f1, s2, t.idx, t.kids[ci].idx, t.kids[ci].Leaf?, PreOf(pre, t.kids, ci),
                       PostOf(post, t.kids, ci), BranchWithout(s0[t.idx], ci))
    ensures ShrunkFile(s0, f0, s2, [t.kids[ci].idx] + f1, t, pre, post, ShrinkBranch(t.idx, t.keys, t.kids, ci, s))
  {
    hide Holds, NoTwice, Pages, Chain, FreeList, OnlyTouched, PreOf, PostOf, BranchWithout;
    var p, q, x := PreOf(pre, t.kids, ci), PostOf(post, t.kids, ci), t.kids[ci].idx;
    var b := ShrinkBranch(t.idx, t.keys, t.kids, ci, s);
    assert p + q == pre + StillLinked(t, b) + post by {
      assert p + LeafIdsS(s) + q == p + q;
      ChainShrunk(t, ci, s, pre, post);
    }
    assert b.freed == s.freed + [x];
    assert [x] + f1 == Pushed(b.freed, f0) by {
      PushedAppend(s.freed, [x], f0);
      assert Pushed([x], f1) == [x] + f1;
    }
    assert s1[t.idx].BranchV? by {
      SiblingsHold(s0, s1, t, ci);
    }
    LostChildChain(s1, f1, s2, t.idx, t.kids[ci], s, p, q, BranchWithout(s0[t.idx], ci));
    assert OnlyTouched(s0, s2, Pages(t)) && (b.node.Some? ==> Holds(s2, b.node.value)) by {
      RemovedNode(s0, s1, f1, s2, t, ci, p, q);
    }
  }

  /** The child is still there: the branch's own page stays as it is. */
  lemma BranchKeptChild(s0: Store, f0: seq<nat>, s1: Store, f1: seq<nat>, t: Tree, ci: nat, s: Shrunk, pre: seq<nat>,
                        post: seq<nat>)
    requires t.Branch? && Holds(s0, t) && NoTwice(Pages(t)) && ci < |t.kids| == |t.keys| + 1
    requires s.node.Some? && s.node.value.idx == t.kids[ci].idx
    requires ShrunkFile(s0, f0, s1, f1, t.kids[ci], PreOf(pre, t.kids, ci), PostOf(post, t.kids, ci), s)
    ensures ShrunkFile(s0, f0, s1, f1, t, pre, post, ShrinkBranch(t.idx, t.keys, t.kids, ci, s))
  {
    KidsAfter(s0, s1, t, ci, Grown(true, s.node.value, None));
    HoldsBranch(s1, t.idx, t.keys, t.kids[ci := s.node.value]);
    ChainShrunk(t, ci, s, pre, post);
    KidPages(t.kids, ci);
    TouchedMore(s0, s1, Pages(t.kids[ci]), Pages(t));
  }

  lemma {:induction false} ShrinkIdx(t: Tree, h: nat, k: int)
    requires Balanced(t, h)
    ensures Shrink(t, h, k).node.Some? ==> Shrink(t, h, k).node.value.idx == t.idx
  {
  }

  // ---- unlinking a leaf, page write by page write --------------------------------------------------

  /** What unlinking leaf x writes: its neighbours' links and, for the first leaf, the header. */
  function UnlinkedStore(s: Store, x: nat): Store
    requires x in s && s[x].LeafV? && 0 in s && s[0].HeaderV?
    requires s[x].prev != 0 ==> s[x].prev in s && s[s[x].prev].LeafV?
    requires s[x].next != 0 ==> s[x].next in s && s[s[x].next].LeafV?
  {
    var p, n := s[x].prev, s[x].next;
    var s1 := if p != 0 then s[p := s[p].(next := n)] else s;
    var s2 := if n != 0 then s1[n := s1[n].(prev := p)] else s1;
    if s[0].hdr.firstLeaf == x then s2[0 := HeaderV(s[0].hdr.(firstLeaf := n))] else s2
  }

  /** Child page x of the branch on page idx may be removed. */
  ghost predicate Removable(s: Store, f: seq<nat>, idx: nat, ci: nat, x: nat, leaf: bool, pre: seq<nat>,
                            post: seq<nat>) {
    && Pool(s, f)
    && idx in s && s[idx].BranchV? && |s[idx].kids| == |s[idx].keys| + 1 && ci < |s[idx].kids| && s[idx].kids[ci] == x
    && x in s && x != idx && x != 0 && idx != 0
    && (if leaf then s[x].LeafV? else s[x].BranchV?)
    && (leaf ==> Chain(s, pre + [x] + post) && s[0].hdr.firstLeaf == At(pre + [x] + post, 0))
  }

  lemma RemovableFacts(s: Store, f: seq<nat>, idx: nat, ci: nat, x: nat, leaf: bool, pre: seq<nat>, post: seq<nat>)
    requires Removable(s, f, idx, ci, x, leaf, pre, post)
    ensures x in s && x != idx && x != 0 && idx != 0 && (if leaf then s[x].LeafV? else s[x].BranchV?)
    ensures idx in s && s[idx].BranchV? && |s[idx].kids| == |s[idx].keys| + 1 && ci < |s[idx].kids|
            && s[idx].kids[ci] == x
  {
  }

  /** a page on the free list is a free page */
  lemma NotFree(s: Store, f: seq<nat>, p: nat)
    requires Pool(s, f) && p in s && !s[p].FreeV?
    ensures p !in f
  {
  }

  lemma SameFieldsLater(s0: Store, s1: Store, s2: Store)
    requires SameTreeFields(s0, s1) && 0 in s2 && s2[0] == s1[0]
    ensures SameTreeFields(s0, s2) && 0 in s0 && s0[0].HeaderV?
  {
  }

  lemma UnlinkedFacts(s: Store, f: seq<nat>, idx: nat, ci: nat, x: nat, pre: seq<nat>, post: seq<nat>)
    requires Removable(s, f, idx, ci, x, true, pre, post)
    requires 0 in s && s[0].HeaderV?
    requires s[x].prev != 0 ==> s[x].prev in s && s[s[x].prev].LeafV?
    requires s[x].next != 0 ==> s[x].next in s && s[s[x].next].LeafV?
    ensures var su := UnlinkedStore(s, x);
            && Pool(su, f) && x in su && !su[x].FreeV? && idx in su && su[idx] == s[idx] && s[idx].BranchV?
  {
    Neighbours(s, f, idx, ci, x, pre, post);
    var su := UnlinkedStore(s, x);
    forall i | 0 <= i < |f| ensures f[i] in su && su[f[i]] == s[f[i]] {
      assert f[i] in f;
    }
  }

  /** the links that unlinking follows lead to leaves */
  lemma Neighbours(s: Store, f: seq<nat>, idx: nat, ci: nat, x: nat, pre: seq<nat>, post: seq<nat>)
    requires Removable(s, f, idx, ci, x, true, pre, post)
    ensures 0 in s && s[0].HeaderV? && x in s && s[x].LeafV?
    ensures s[x].prev == At(pre, |pre| - 1) && s[x].next == At(post, 0)
    ensures s[x].prev != 0 ==> s[x].prev in s && s[s[x].prev].LeafV? && s[x].prev != x
    ensures s[x].next != 0 ==> s[x].next in s && s[s[x].next].LeafV? && s[x].next != x
    ensures pre != [] ==> s[x].prev != 0
    ensures post != [] ==> s[x].next != 0
    ensures s[0].hdr.firstLeaf == x <==> pre == []
    ensures At(pre + post, 0) == if pre == [] then s[x].next else s[0].hdr.firstLeaf
  {
    var ids, n := pre + [x] + post, |pre|;
    LinksAt(s, pre, x, post);
    if pre != [] {
      ChainLeaf(s, ids, n - 1);
      assert ids[n - 1] == pre[n - 1];
      assert ids[0] == pre[0] && pre[0] in pre;
    }
    if post != [] {
      ChainLeaf(s, ids, n + 1);
      assert ids[n + 1] == post[0] && post[0] in post;
    }
  }

  lemma UnlinkedPages(s: Store, f: seq<nat>, idx: nat, ci: nat, x: nat, pre: seq<nat>, post: seq<nat>, p: nat)
    requires Removable(s, f, idx, ci, x, true, pre, post) && p in s && p != 0
    requires s[x].prev != 0 ==> s[x].prev in s && s[s[x].prev].LeafV?
    requires s[x].next != 0 ==> s[x].next in s && s[s[x].next].LeafV?
    requires 0 in s && s[0].HeaderV?
    ensures p in UnlinkedStore(s, x)
    ensures UnlinkedStore(s, x)[p] == Relinked(s[p], p, pre, post)
  {
    hide Chain, Pool;
    Neighbours(s, f, idx, ci, x, pre, post);
  }

  /** the file after the child has been unlinked (if it is a leaf), freed and dropped from its parent */
  ghost predicate RemovalWrites(f1: seq<nat>, su: Store, s2: Store, idx: nat, x: nat, v: PageView) {
    && Pool(s2, [x] + f1) && 0 in su && su[0].HeaderV? && SameTreeFields(su, s2) && s2.Keys == su.Keys
    && idx in s2 && s2[idx] == v
    && forall p :: p in su && p != 0 && p != x && p != idx ==> p in s2 && s2[p] == su[p]
  }

  lemma RemovedLeaf(s1: Store, f1: seq<nat>, s2: Store, idx: nat, ci: nat, x: nat, pre: seq<nat>, post: seq<nat>,
                    v: PageView)
    requires Removable(s1, f1, idx, ci, x, true, pre, post) && v.BranchV?
    requires 0 in s1 && s1[0].HeaderV?
    requires s1[x].prev != 0 ==> s1[x].prev in s1 && s1[s1[x].prev].LeafV?
    requires s1[x].next != 0 ==> s1[x].next in s1 && s1[s1[x].next].LeafV?
    requires RemovalWrites(f1, UnlinkedStore(s1, x), s2, idx, x, v)
    ensures RemovedTo(s1, f1, s2, idx, x, true, pre, post, v)
  {
    hide Chain, Pool, Relinked;
    var su := UnlinkedStore(s1, x);
    Neighbours(s1, f1, idx, ci, x, pre, post);
    forall p | p in s1 && p != 0 && p != x && p != idx ensures s2[p] == Relinked(s1[p], p, pre, post) {
      UnlinkedPages(s1, f1, idx, ci, x, pre, post, p);
    }
    assert su.Keys == s1.Keys;
    assert su[0].hdr == s1[0].hdr.(firstLeaf := At(pre + post, 0));
  }

  lemma RemovedBranch(s1: Store, f1: seq<nat>, s2: Store, idx: nat, ci: nat, x: nat, pre: seq<nat>, post: seq<nat>,
                      v: PageView)
    requires Removable(s1, f1, idx, ci, x, false, pre, post) && v.BranchV?
    requires RemovalWrites(f1, s1, s2, idx, x, v)
    ensures RemovedTo(s1, f1, s2, idx, x, false, pre, post, v)
  {
    hide Chain, FreeList;
  }

  // ---- what the recursive methods ask for and promise ------------------------------------------------

  ghost predicate EraseReady(ord: nat, s: Store, f: seq<nat>, t: Tree, h: nat, lo: Option<int>, hi: Option<int>,
                             pre: seq<nat>, post: seq<nat>) {
    NodeReady(ord, s, t, h, lo, hi, pre, post) && Pool(s, f) && s[0].hdr.firstLeaf == At(pre + LeafIds(t) + post, 0)
  }

  /** What an erasure below node t has done, in the file and in what it returns. */
  ghost predicate EraseDone(s0: Store, f0: seq<nat>, s1: Store, f1: seq<nat>, t: Tree, h: nat, k: int, pre: seq<nat>,
                            post: seq<nat>, erased: bool, empty: bool)
    requires Balanced(t, h)
  {
    var s := Shrink(t, h, k);
    erased == s.erased && empty == s.node.None? && ShrunkFile(s0, f0, s1, f1, t, pre, post, s)
  }

  lemma EraseIsReady(ord: nat, s: Store, f: seq<nat>, t: Tree, h: nat, lo: Option<int>, hi: Option<int>,
                     pre: seq<nat>, post: seq<nat>)
    requires EraseReady(ord, s, f, t, h, lo, hi, pre, post)
    ensures NodeReady(ord, s, t, h, lo, hi, pre, post) && Balanced(t, h) && Pool(s, f)
  {
  }

  lemma LeafMissed(ord: nat, s: Store, f: seq<nat>, t: Tree, lo: Option<int>, hi: Option<int>, k: int, pre: seq<nat>,
                   post: seq<nat>)
    requires EraseReady(ord, s, f, t, 1, lo, hi, pre, post) && t.Leaf? && Balanced(t, 1) && !Hit(t.recs, k)
    ensures EraseDone(s, f, s, f, t, 1, k, pre, post, false, false)
  {
    NothingErased(s, f, t, pre, post);
  }

  lemma LeafErased(ord: nat, s0: Store, f: seq<nat>, s1: Store, t: Tree, lo: Option<int>, hi: Option<int>, k: int,
                   pre: seq<nat>, post: seq<nat>)
    requires EraseReady(ord, s0, f, t, 1, lo, hi, pre, post) && t.Leaf? && Balanced(t, 1) && Hit(t.recs, k)
    requires t.idx in s0 && s0[t.idx].LeafV?
    requires s1 == s0[t.idx := s0[t.idx].(recs := DropRec(t.recs, Lower(t.recs, k)))]
    ensures EraseDone(s0, f, s1, f, t, 1, k, pre, post, true, |t.recs| == 1) && Pool(s1, f)
  {
    LeafShrank(s0, f, s1, t, k, pre, post);
  }

  lemma KidEraseReady(ord: nat, s: Store, f: seq<nat>, t: Tree, h: nat, lo: Option<int>, hi: Option<int>,
                      pre: seq<nat>, post: seq<nat>, k: int, ci: nat)
    requires EraseReady(ord, s, f, t, h, lo, hi, pre, post) && t.Branch? && ci == Slot(t.keys, k)
    ensures h > 1 && ci < |t.kids| && ci <= |t.keys| && Balanced(t.kids[ci], h - 1)
    ensures EraseReady(ord, s, f, t.kids[ci], h - 1, LoOf(t.keys, lo, ci), HiOf(t.keys, hi, ci),
                       PreOf(pre, t.kids, ci), PostOf(post, t.kids, ci))
  {
    KidReady(ord, s, t, h, lo, hi, pre, post, k, ci);
    ChainAround(pre, t.kids, ci, post);
  }

  lemma KeptDone(ord: nat, s0: Store, f0: seq<nat>, s1: Store, f1: seq<nat>, t: Tree, h: nat, lo: Option<int>,
                 hi: Option<int>, k: int, ci: nat, pre: seq<nat>, post: seq<nat>, erased: bool)
    requires EraseReady(ord, s0, f0, t, h, lo, hi, pre, post) && t.Branch? && ci == Slot(t.keys, k) < |t.kids|
    requires Balanced(t, h) && Balanced(t.kids[ci], h - 1)
    requires EraseDone(s0, f0, s1, f1, t.kids[ci], h - 1, k, PreOf(pre, t.kids, ci), PostOf(post, t.kids, ci), erased,
                       false)
    ensures EraseDone(s0, f0, s1, f1, t, h, k, pre, post, erased, false)
  {
    ShrinkIdx(t.kids[ci], h - 1, k);
    BranchKeptChild(s0, f0, s1, f1, t, ci, Shrink(t.kids[ci], h - 1, k), pre, post);
  }

  lemma MissedIsKept(s0: Store, f0: seq<nat>, s1: Store, f1: seq<nat>, t: Tree, h: nat, k: int, pre: seq<nat>,
                     post: seq<nat>, empty: bool)
    requires Balanced(t, h) && EraseDone(s0, f0, s1, f1, t, h, k, pre, post, false, empty)
    ensures !empty
  {
    ShrinkMiss(t, h, k);
  }

  lemma EmptyRemovable(ord: nat, s0: Store, f0: seq<nat>, s1: Store, f1: seq<nat>, t: Tree, h: nat, lo: Option<int>,
                       hi: Option<int>, k: int, ci: nat, pre: seq<nat>, post: seq<nat>)
    requires EraseReady(ord, s0, f0, t, h, lo, hi, pre, post) && t.Branch? && ci == Slot(t.keys, k) < |t.kids|
    requires Balanced(t.kids[ci], h - 1)
    requires EraseDone(s0, f0, s1, f1, t.kids[ci], h - 1, k, PreOf(pre, t.kids, ci), PostOf(post, t.kids, ci), true,
                       true)
    ensures Removable(s1, f1, t.idx, ci, t.kids[ci].idx, t.kids[ci].Leaf?, PreOf(pre, t.kids, ci),
                      PostOf(post, t.kids, ci))
    ensures t.idx in s0 && t.idx in s1 && s1[t.idx] == s0[t.idx] && s0[t.idx].BranchV? && s0[t.idx].keys == t.keys
    ensures |s0[t.idx].kids| == |t.kids| == |t.keys| + 1
  {
    SiblingsHold(s0, s1, t, ci);
    OthersApart(t, ci);
    HoldsKinds(s0, t, t.idx);
  }

  lemma ShrinkUnfolds(t: Tree, h: nat, k: int)
    requires t.Branch? && Balanced(t, h)
    ensures |t.kids| == |t.keys| + 1 && Balanced(t.kids[Slot(t.keys, k)], h - 1)
    ensures Shrink(t, h, k) ==
            ShrinkBranch(t.idx, t.keys, t.kids, Slot(t.keys, k), Shrink(t.kids[Slot(t.keys, k)], h - 1, k))
  {
  }

  lemma LostDone(ord: nat, s0: Store, f0: seq<nat>, s1: Store, f1: seq<nat>, s2: Store, t: Tree, h: nat,
                 lo: Option<int>, hi: Option<int>, k: int, ci: nat, pre: seq<nat>, post: seq<nat>)
    requires EraseReady(ord, s0, f0, t, h, lo, hi, pre, post) && t.Branch? && ci == Slot(t.keys, k) < |t.kids|
    requires Balanced(t, h) && Balanced(t.kids[ci], h - 1)
    requires EraseDone(s0, f0, s1, f1, t.kids[ci], h - 1, k, PreOf(pre, t.kids, ci), PostOf(post, t.kids, ci), true,
                       true)
    requires t.idx in s0 && t.idx in s1 && s0[t.idx].BranchV? && |s0[t.idx].kids| == |s0[t.idx].keys| + 1 == |t.kids|
    requires RemovedTo(s1, f1, s2, t.idx, t.kids[ci].idx, t.kids[ci].Leaf?, PreOf(pre, t.kids, ci),
                       PostOf(post, t.kids, ci), BranchWithout(s0[t.idx], ci))
    ensures EraseDone(s0, f0, s2, [t.kids[ci].idx] + f1, t, h, k, pre, post, true, t.keys == [])
  {
    hide Holds, NoTwice, Pages, Chain, Pool, WF, Balanced, ShrunkFile, RemovedTo, Shrink, BranchWithout, PreOf, PostOf;
    ShrinkUnfolds(t, h, k);
    assert |t.kids| == |t.keys| + 1;
    BranchLostChild(s0, f0, s1, f1, s2, t, ci, Shrink(t.kids[ci], h - 1, k), pre, post);
  }
}
