/** Insertion, page write by page write: each step spells out the tree that `Grow` computes. */
module BTreeInsertSteps {
  import opened BTreeModel
  import opened BTreeInsert
  import opened BTreePage
  import opened BTreeStore
  import opened BTreeFile

  /** What inserting below a node does to the file, given the leaves `pre` and `post` around it. */
  ghost predicate GrownFile(s0: Store, f0: seq<nat>, s1: Store, f1: seq<nat>, pages: multiset<nat>,
                            pre: seq<nat>, post: seq<nat>, g: Grown, ids: seq<nat>) {
    && Holds(s1, g.node) && (g.split.Some? ==> Holds(s1, g.split.value.1))
    && Chain(s1, pre + LeafIdsG(g) + post)
    && Pool(s1, f1) && Took(s0, f0, s1, f1, ids)
    && OnlyTouched(s0, s1, pages) && SameTreeFields(s0, s1)
  }

  // ---- leaves -------------------------------------------------------------------------------------

  lemma NothingDone(s: Store, f: seq<nat>, t: Tree, pre: seq<nat>, post: seq<nat>)
    requires Holds(s, t) && Chain(s, pre + LeafIds(t) + post) && Pool(s, f)
    ensures GrownFile(s, f, s, f, Pages(t), pre, post, Grown(false, t, None), [])
  {
  }

  lemma LeafRewritten(s0: Store, f: seq<nat>, s1: Store, idx: nat, recs: seq<Rec>, pre: seq<nat>, post: seq<nat>)
    requires idx in s0 && s0[idx].LeafV? && Chain(s0, pre + [idx] + post) && Pool(s0, f)
    requires s1 == s0[idx := s0[idx].(recs := recs)]
    ensures Chain(s1, pre + [idx] + post) && Pool(s1, f) && Holds(s1, Leaf(idx, recs))
    ensures OnlyTouched(s0, s1, multiset{idx}) && SameTreeFields(s0, s1) && Took(s0, f, s1, f, [])
  {
    var ids := pre + [idx] + post;
    forall i | 0 <= i < |ids| ensures SameLinks(s0, s1, ids[i]) {
      ChainLeaf(s0, ids, i);
    }
    ChainFrame(s0, s1, ids);
    PoolFrame(s0, s1, f);
    assert s1.Keys == s0.Keys;
  }

  lemma LeafGrew(s0: Store, f: seq<nat>, s1: Store, idx: nat, recs: seq<Rec>, pre: seq<nat>, post: seq<nat>)
    requires idx in s0 && s0[idx].LeafV? && Chain(s0, pre + [idx] + post) && Pool(s0, f)
    requires s1 == s0[idx := s0[idx].(recs := recs)]
    ensures GrownFile(s0, f, s1, f, multiset{idx}, pre, post, Grown(true, Leaf(idx, recs), None), [])
  {
    LeafRewritten(s0, f, s1, idx, recs, pre, post);
  }

  /** the file after a leaf split: both halves written, the new leaf linked in */
  ghost predicate LeafSplitTo(s1: Store, s2: Store, pre: seq<nat>, idx: nat, r: nat, post: seq<nat>, lows: seq<Rec>,
                              highs: seq<Rec>) {
    && s2.Keys == s1.Keys
    && (forall p :: p in s1 && p != idx && p != r && p != At(post, 0) ==> s2[p] == s1[p])
    && idx in s2 && s2[idx] == LeafV(lows, r, At(pre, |pre| - 1))
    && r in s2 && s2[r] == LeafV(highs, At(post, 0), idx)
    && (post != [] ==> post[0] in s1 && s1[post[0]].LeafV? && s2[post[0]] == s1[post[0]].(prev := r))
    && (post == [] ==> 0 in s1 && s2[0] == s1[0])
  }

  /** The page writes of a leaf split amount to `LeafSplitTo`. */
  lemma LeafHalved(s1: Store, s2: Store, pre: seq<nat>, idx: nat, r: nat, post: seq<nat>, lows: seq<Rec>,
                   highs: seq<Rec>)
    requires Chain(s1, pre + [idx] + post) && r in s1 && s1[r].FreeV? && 0 in s1 && s1[0].HeaderV?
    requires idx in s1 && s1[idx].LeafV? && s2 == Halved(s1, idx, r, lows, highs)
    ensures LeafSplitTo(s1, s2, pre, idx, r, post, lows, highs)
    ensures idx != r && idx != At(post, 0) && r != At(post, 0)
  {
    LinksAt(s1, pre, idx, post);
    if post != [] {
      var ids := pre + [idx] + post;
      assert ids[|pre| + 1] == post[0];
      ChainLeaf(s1, ids, |pre| + 1);
    }
  }

  lemma HalvedByWrites(s1: Store, s2: Store, idx: nat, r: nat, m: nat)
    requires idx in s1 && s1[idx].LeafV? && m <= |s1[idx].recs| && 0 in s1 && s1[0].HeaderV? && r in s1 && s1[r].FreeV?
    requires var n, recs := s1[idx].next, s1[idx].recs;
             var a := s1[r := LeafV([], 0, 0)][r := LeafV(recs[m..], 0, 0)][idx := s1[idx].(recs := recs[..m])];
             var b := a[r := LeafV(recs[m..], n, idx)][idx := LeafV(recs[..m], r, s1[idx].prev)];
             && (n == 0 || (n in s1 && s1[n].LeafV? && n != idx && n != r))
             && s2 == if n == 0 then b else b[n := LeafV(s1[n].recs, s1[n].next, r)]
    ensures s2 == Halved(s1, idx, r, s1[idx].recs[..m], s1[idx].recs[m..])
  {
  }

  function Halved(s1: Store, idx: nat, r: nat, lows: seq<Rec>, highs: seq<Rec>): Store
    requires idx in s1 && s1[idx].LeafV?
  {
    var n := s1[idx].next;
    var s2 := s1[r := LeafV(highs, n, idx)][idx := LeafV(lows, r, s1[idx].prev)];
    if n in s2 && s2[n].LeafV? then s2[n := s2[n].(prev := r)] else s2
  }

  lemma LowsGrew(s1: Store, s2: Store, s3: Store, pre: seq<nat>, idx: nat, r: nat, post: seq<nat>,
                 lows: seq<Rec>, highs: seq<Rec>, lows': seq<Rec>)
    requires LeafSplitTo(s1, s2, pre, idx, r, post, lows, highs) && idx != r && idx != At(post, 0)
    requires s3 == s2[idx := s2[idx].(recs := lows')]
    ensures LeafSplitTo(s1, s3, pre, idx, r, post, lows', highs)
  {
    assert s3.Keys == s2.Keys;
  }

  lemma HighsGrew(s1: Store, s2: Store, s3: Store, pre: seq<nat>, idx: nat, r: nat, post: seq<nat>,
                  lows: seq<Rec>, highs: seq<Rec>, highs': seq<Rec>)
    requires LeafSplitTo(s1, s2, pre, idx, r, post, lows, highs) && idx != r && r != At(post, 0)
    requires s3 == s2[r := s2[r].(recs := highs')]
    ensures LeafSplitTo(s1, s3, pre, idx, r, post, lows, highs')
  {
    assert s3.Keys == s2.Keys;
  }

  lemma LeafSplitChain(s1: Store, s2: Store, idx: nat, r: nat, lows: seq<Rec>, highs: seq<Rec>, pre: seq<nat>,
                       post: seq<nat>)
    requires Chain(s1, pre + [idx] + post) && r in s1 && s1[r].FreeV?
    requires LeafSplitTo(s1, s2, pre, idx, r, post, lows, highs)
    ensures Chain(s2, pre + [idx, r] + post)
  {
    var ids := pre + [idx] + post;
    LinksAt(s1, pre, idx, post);
    forall i | 0 <= i < |ids| ensures ids[i] != r {
      ChainLeaf(s1, ids, i);
    }
    forall i, j | 0 <= i < j < |ids| ensures ids[i] != ids[j] {
    }
    forall i | 0 <= i < |pre| ensures SameLinks(s1, s2, pre[i]) {
      assert ids[i] == pre[i];
      ChainLeaf(s1, ids, i);
      assert post != [] ==> ids[|pre| + 1] == post[0];
    }
    forall i | 1 <= i < |post| ensures SameLinks(s1, s2, post[i]) {
      assert ids[|pre| + 1 + i] == post[i] && ids[|pre| + 1] == post[0];
      ChainLeaf(s1, ids, |pre| + 1 + i);
    }
    if post != [] {
      assert Linked(s1, ids, |pre| + 1) && ids[|pre| + 1] == post[0];
      assert At(ids, |pre| + 2) == At(post, 1);
    }
    ChainInsert(s1, s2, pre, idx, r, post);
  }

  lemma LeafSplitOthers(s1: Store, f1: seq<nat>, s2: Store, idx: nat, r: nat, lows: seq<Rec>, highs: seq<Rec>,
                        pre: seq<nat>, post: seq<nat>)
    requires Chain(s1, pre + [idx] + post) && Pool(s1, f1) && r in s1 && s1[r].FreeV? && r !in f1
    requires LeafSplitTo(s1, s2, pre, idx, r, post, lows, highs)
    ensures Pool(s2, f1) && s2[0] == s1[0]
    ensures forall p :: p in s1 && p != idx && p != r ==> SameBody(s1, s2, p)
  {
    var ids := pre + [idx] + post;
    LinksAt(s1, pre, idx, post);
    if post != [] {
      assert ids[|pre| + 1] == post[0];
      ChainLeaf(s1, ids, |pre| + 1);
    }
    PoolFrame(s1, s2, f1);
  }

  lemma LeafSplit(s0: Store, f0: seq<nat>, s1: Store, f1: seq<nat>, s2: Store, idx: nat, r: nat,
                  lows: seq<Rec>, highs: seq<Rec>, sep: int, pre: seq<nat>, post: seq<nat>)
    requires Chain(s0, pre + [idx] + post) && Pool(s0, f0)
    requires Pool(s1, f1) && Took(s0, f0, s1, f1, [r]) && r in s1 && s1[r].FreeV? && r !in f1 && SameTreeFields(s0, s1)
    requires forall p :: p in s0 && p != 0 ==> p in s1 && s1[p] == s0[p]
    requires LeafSplitTo(s1, s2, pre, idx, r, post, lows, highs)
    ensures GrownFile(s0, f0, s2, f1, multiset{idx}, pre, post,
                      Grown(true, Leaf(idx, lows), Some((sep, Leaf(r, highs)))), [r])
  {
    ChainElsewhere(s0, s1, pre + [idx] + post);
    LeafSplitChain(s1, s2, idx, r, lows, highs, pre, post);
    assert [idx] + [r] == [idx, r];
    LeafSplitOthers(s1, f1, s2, idx, r, lows, highs, pre, post);
    assert Took(s0, f0, s2, f1, [r]);
    forall p | p in s0 && p != idx && p != 0 && !s0[p].FreeV? ensures SameBody(s0, s2, p) {
      assert p in s1 && p != r && SameBody(s1, s2, p);
    }
  }

  /** Writing pages that are not leaves leaves the chain alone. */
  lemma ChainElsewhere(s1: Store, s2: Store, ids: seq<nat>)
    requires Chain(s1, ids)
    requires forall p :: p in s1 && s1[p].LeafV? ==> p in s2 && s2[p] == s1[p]
    ensures Chain(s2, ids)
  {
    forall i | 0 <= i < |ids| ensures SameLinks(s1, s2, ids[i]) {
      ChainLeaf(s1, ids, i);
    }
    ChainFrame(s1, s2, ids);
  }

  // ---- branches -----------------------------------------------------------------------------------

  /** what a branch page says of its children */
  ghost predicate Names(ids: seq<nat>, kids: seq<Tree>) {
    |ids| == |kids| && forall i :: 0 <= i < |kids| ==> ids[i] == kids[i].idx
  }

  lemma HoldsBranch(s: Store, idx: nat, keys: seq<int>, kids: seq<Tree>)
    requires idx in s && s[idx].BranchV? && s[idx].keys == keys && Names(s[idx].kids, kids)
    requires forall i :: 0 <= i < |kids| ==> Holds(s, kids[i])
    ensures Holds(s, Branch(idx, keys, kids))
  {
  }

  lemma NamesSpliced(ids: seq<nat>, kids: seq<Tree>, ci: nat, l: Tree, r: Tree)
    requires Names(ids, kids) && ci < |kids| && l.idx == kids[ci].idx
    ensures Names(KidIds(ids, ci, r.idx), Spliced(kids, ci, l, r))
  {
  }

  lemma {:induction false} GrowIdx(ord: nat, t: Tree, h: nat, k: int, v: Value, ids: seq<nat>)
    requires Balanced(t, h) && 2 <= ord
    ensures Grow(ord, t, h, k, v, ids).node.idx == t.idx
    ensures var g := Grow(ord, t, h, k, v, ids); g.split.Some? ==> g.split.value.1.idx == PageFor(ids, h)
  {
  }

  ghost predicate AllHold(s: Store, kids: seq<Tree>) {
    forall i :: 0 <= i < |kids| ==> Holds(s, kids[i])
  }

  /** the children of a branch with child ci grown */
  function Regrown(kids: seq<Tree>, ci: nat, g: Grown): seq<Tree>
    requires ci < |kids|
  {
    if g.split.Some? then Spliced(kids, ci, g.node, g.split.value.1) else kids[ci := g.node]
  }

  /** A branch and its children after its child ci has grown in the file s1. */
  lemma KidsAfter(s0: Store, s1: Store, t: Tree, ci: nat, g: Grown)
    requires t.Branch? && Holds(s0, t) && NoTwice(Pages(t)) && ci < |t.kids|
    requires 0 in s0 && s0[0].HeaderV? && OnlyTouched(s0, s1, Pages(t.kids[ci]))
    requires Holds(s1, g.node) && (g.split.Some? ==> Holds(s1, g.split.value.1))
    ensures t.idx in s1 && s1[t.idx] == s0[t.idx] && Names(s1[t.idx].kids, t.kids) && s1[t.idx].keys == t.keys
    ensures AllHold(s1, Regrown(t.kids, ci, g))
  {
    SiblingsHold(s0, s1, t, ci);
  }

  lemma AllHoldElsewhere(s1: Store, s2: Store, kids: seq<Tree>, idx: nat)
    requires AllHold(s1, kids) && forall i :: 0 <= i < |kids| ==> idx !in Pages(kids[i])
    requires forall p :: p in s1 && p != idx ==> p in s2 && s2[p] == s1[p]
    ensures AllHold(s2, kids)
  {
    forall i | 0 <= i < |kids| ensures Holds(s2, kids[i]) {
      HoldsElsewhere(s1, s2, kids[i], idx);
    }
  }

  /** The parent's page is none of its children's, new ones included. */
  lemma ParentApart(t: Tree, ci: nat, g: Grown)
    requires t.Branch? && NoTwice(Pages(t)) && ci < |t.kids| && t.idx !in PagesG(g)
    ensures forall i :: 0 <= i < |Regrown(t.kids, ci, g)| ==> t.idx !in Pages(Regrown(t.kids, ci, g)[i])
  {
    var ts := Regrown(t.kids, ci, g);
    forall j | 0 <= j < |t.kids| ensures t.idx !in Pages(t.kids[j]) {
      if t.idx in Pages(t.kids[j]) {
        KidsApart(t, j, t.idx);
      }
    }
    forall i | 0 <= i < |ts| ensures t.idx !in Pages(ts[i]) {
      if i != ci && !(g.split.Some? && i == ci + 1) {
        assert ts[i] in t.kids;
      }
    }
  }

  /** the leaves before and after child ci, as seen from the whole chain */
  function PreOf(pre: seq<nat>, kids: seq<Tree>, ci: nat): seq<nat>
    requires ci < |kids|
  {
    pre + LeafIdsF(kids[..ci])
  }

  function PostOf(post: seq<nat>, kids: seq<Tree>, ci: nat): seq<nat>
    requires ci < |kids|
  {
    LeafIdsF(kids[ci + 1..]) + post
  }

  lemma ChainAround(pre: seq<nat>, kids: seq<Tree>, ci: nat, post: seq<nat>)
    requires ci < |kids|
    ensures PreOf(pre, kids, ci) + LeafIds(kids[ci]) + PostOf(post, kids, ci) == pre + LeafIdsF(kids) + post
  {
    LeafIdsAt(kids, ci);
    Regroup(pre, LeafIdsF(kids[..ci]), LeafIds(kids[ci]), LeafIdsF(kids[ci + 1..]), post);
  }

  lemma Regroup(a: seq<nat>, b: seq<nat>, c: seq<nat>, d: seq<nat>, e: seq<nat>)
    ensures (a + b) + c + (d + e) == a + (b + c + d) + e
  {
  }

  lemma ChainRegrown(ord: nat, t: Tree, ci: nat, g: Grown, r: nat, pre: seq<nat>, post: seq<nat>)
    requires t.Branch? && ci < |t.kids| == |t.keys| + 1 && 2 <= ord && |t.keys| <= ord
    ensures PreOf(pre, t.kids, ci) + LeafIdsG(g) + PostOf(post, t.kids, ci) ==
            pre + LeafIdsG(GrowBranch(ord, t.idx, t.keys, t.kids, ci, g, r)) + post
  {
    GrowBranchParts(ord, t.idx, t.keys, t.kids, ci, g, r);
    Regroup(pre, LeafIdsF(t.kids[..ci]), LeafIdsG(g), LeafIdsF(t.kids[ci + 1..]), post);
  }

  /** The child did not split: the branch's own page stays as it is. */
  lemma BranchUnsplit(ord: nat, s0: Store, f0: seq<nat>, s1: Store, f1: seq<nat>, t: Tree, ci: nat, g: Grown,
                      ids: seq<nat>, r: nat, pre: seq<nat>, post: seq<nat>)
    requires t.Branch? && Holds(s0, t) && NoTwice(Pages(t)) && ci < |t.kids| == |t.keys| + 1 && |t.keys| <= ord
             && 2 <= ord
    requires 0 in s0 && s0[0].HeaderV? && g.split.None? && g.node.idx == t.kids[ci].idx
    requires GrownFile(s0, f0, s1, f1, Pages(t.kids[ci]), PreOf(pre, t.kids, ci), PostOf(post, t.kids, ci), g, ids)
    ensures GrownFile(s0, f0, s1, f1, Pages(t), pre, post, GrowBranch(ord, t.idx, t.keys, t.kids, ci, g, r), ids)
  {
    KidsAfter(s0, s1, t, ci, g);
    HoldsBranch(s1, t.idx, t.keys, t.kids[ci := g.node]);
    ChainRegrown(ord, t, ci, g, r, pre, post);
    KidPages(t.kids, ci);
    TouchedMore(s0, s1, Pages(t.kids[ci]), Pages(t));
  }

  lemma TouchedThen(s0: Store, s1: Store, s2: Store, idx: nat, pages: multiset<nat>)
    requires OnlyTouched(s0, s1, pages) && idx in pages
    requires forall p :: p in s1 && p != idx && p != 0 && !s1[p].FreeV? ==> p in s2 && s2[p] == s1[p]
    ensures OnlyTouched(s0, s2, pages)
  {
    forall p | p in s0 && p !in pages && p != 0 && !s0[p].FreeV? ensures SameBody(s0, s2, p) {
      assert SameBody(s0, s1, p);
    }
  }

  /** After the child has changed, only the branch's own page and at most one free page r change. */
  lemma BranchFrame(s0: Store, s1: Store, s2: Store, t: Tree, ci: nat, r: nat, chain: seq<nat>)
    requires t.Branch? && ci < |t.kids| && OnlyTouched(s0, s1, Pages(t.kids[ci])) && Chain(s1, chain)
    requires t.idx in s1 && s1[t.idx].BranchV? && (r in s1 && r != t.idx ==> s1[r].FreeV?)
    requires 0 in s1 && s1[0].HeaderV?
    requires forall p :: p in s1 && p != 0 && p != t.idx && p != r ==> p in s2 && s2[p] == s1[p]
    ensures Chain(s2, chain) && OnlyTouched(s0, s2, Pages(t))
  {
    ChainElsewhere(s1, s2, chain);
    KidPages(t.kids, ci);
    TouchedMore(s0, s1, Pages(t.kids[ci]), Pages(t));
    TouchedThen(s0, s1, s2, t.idx, Pages(t));
  }

  /** The child split and there is room: one page write. */
  lemma BranchGrew(ord: nat, s0: Store, f0: seq<nat>, s1: Store, f1: seq<nat>, s2: Store, t: Tree, ci: nat, g: Grown,
                   ids: seq<nat>, r: nat, pre: seq<nat>, post: seq<nat>)
    requires t.Branch? && Holds(s0, t) && NoTwice(Pages(t)) && ci < |t.kids| == |t.keys| + 1 && |t.keys| < ord
             && 2 <= ord
    requires 0 in s0 && s0[0].HeaderV? && g.split.Some? && g.node.idx == t.kids[ci].idx && t.idx !in PagesG(g)
    requires GrownFile(s0, f0, s1, f1, Pages(t.kids[ci]), PreOf(pre, t.kids, ci), PostOf(post, t.kids, ci), g, ids)
    requires t.idx in s0 && s0[t.idx].BranchV? && |s0[t.idx].kids| > ci
    requires s2 == s1[t.idx := BranchV(InsertKey(t.keys, ci, g.split.value.0),
                                       KidIds(s0[t.idx].kids, ci, g.split.value.1.idx))]
    ensures GrownFile(s0, f0, s2, f1, Pages(t), pre, post, GrowBranch(ord, t.idx, t.keys, t.kids, ci, g, r), ids)
  {
    hide Holds, Chain, OnlyTouched, AllHold, Names, Pages, NoTwice;
    var ts := Spliced(t.kids, ci, g.node, g.split.value.1);
    KidsAfter(s0, s1, t, ci, g);
    ParentApart(t, ci, g);
    AllHoldElsewhere(s1, s2, ts, t.idx);
    NamesSpliced(s0[t.idx].kids, t.kids, ci, g.node, g.split.value.1);
    HoldsBranch(s2, t.idx, InsertKey(t.keys, ci, g.split.value.0), ts);
    BranchFrame(s0, s1, s2, t, ci, t.idx, PreOf(pre, t.kids, ci) + LeafIdsG(g) + PostOf(post, t.kids, ci));
    ChainRegrown(ord, t, ci, g, r, pre, post);
    PoolFrame(s1, s2, f1);
    assert s2.Keys == s1.Keys;
  }

  lemma NamesPart(ids: seq<nat>, kids: seq<Tree>, a: nat, b: nat)
    requires Names(ids, kids) && a <= b <= |kids|
    ensures Names(ids[a..b], kids[a..b])
  {
  }

  lemma AllHoldPart(s: Store, kids: seq<Tree>, a: nat, b: nat)
    requires AllHold(s, kids) && a <= b <= |kids|
    ensures AllHold(s, kids[a..b])
  {
  }

  /** The file after a branch split: the lower part on the old page, the upper part on r. */
  ghost predicate BranchSplitTo(s1: Store, s4: Store, f1: seq<nat>, f3: seq<nat>, idx: nat, r: nat,
                                ks: seq<int>, cs: seq<nat>, m: nat)
    requires m < |ks| && |cs| == |ks| + 1
  {
    && r in s4 && r != idx && (r in s1 ==> s1[r].FreeV?) && r !in f3
    && idx in s4 && s4[idx] == BranchV(ks[..m], cs[..m + 1])
    && s4[r] == BranchV(ks[m + 1..], cs[m + 1..])
    && (forall p :: p in s1 && p != 0 && p != idx && p != r ==> p in s4 && s4[p] == s1[p])
    && Pool(s4, f3) && Took(s1, f1, s4, f3, [r]) && SameTreeFields(s1, s4)
  }

  lemma KidsApartFrom(s: Store, kids: seq<Tree>, r: nat)
    requires AllHold(s, kids) && (r in s ==> s[r].FreeV?)
    ensures forall i :: 0 <= i < |kids| ==> r !in Pages(kids[i])
  {
    forall i | 0 <= i < |kids| ensures r !in Pages(kids[i]) {
      if r in Pages(kids[i]) {
        HoldsKinds(s, kids[i], r);
      }
    }
  }

  lemma AllHoldElsewhere2(s1: Store, s2: Store, kids: seq<Tree>, idx: nat, r: nat)
    requires AllHold(s1, kids) && forall i :: 0 <= i < |kids| ==> idx !in Pages(kids[i]) && r !in Pages(kids[i])
    requires forall p :: p in s1 && p != 0 && p != idx && p != r ==> p in s2 && s2[p] == s1[p]
    requires 0 in s1 ==> s1[0].HeaderV?
    ensures AllHold(s2, kids)
  {
    forall i | 0 <= i < |kids| ensures Holds(s2, kids[i]) {
      forall p | p in Pages(kids[i]) ensures SameBody(s1, s2, p) {
        HoldsKinds(s1, kids[i], p);
      }
      HoldsFrame(s1, s2, kids[i]);
    }
  }

  lemma BranchHalvesHold(s1: Store, s4: Store, f1: seq<nat>, f3: seq<nat>, idx: nat, r: nat, ks: seq<int>, cs: seq<nat>,
                         ts: seq<Tree>, m: nat)
    requires m < |ks| && |cs| == |ks| + 1 && BranchSplitTo(s1, s4, f1, f3, idx, r, ks, cs, m)
    requires Names(cs, ts) && AllHold(s1, ts) && 0 in s1 && s1[0].HeaderV?
    requires forall i :: 0 <= i < |ts| ==> idx !in Pages(ts[i])
    ensures Holds(s4, Branch(idx, ks[..m], ts[..m + 1])) && Holds(s4, Branch(r, ks[m + 1..], ts[m + 1..]))
  {
    KidsApartFrom(s1, ts, r);
    AllHoldElsewhere2(s1, s4, ts, idx, r);
    assert cs[..m + 1] == cs[0..m + 1] && ts[..m + 1] == ts[0..m + 1];
    assert cs[m + 1..] == cs[m + 1..|cs|] && ts[m + 1..] == ts[m + 1..|ts|];
    NamesPart(cs, ts, 0, m + 1);
    NamesPart(cs, ts, m + 1, |cs|);
    AllHoldPart(s4, ts, 0, m + 1);
    AllHoldPart(s4, ts, m + 1, |ts|);
    HoldsBranch(s4, idx, ks[..m], ts[..m + 1]);
    HoldsBranch(s4, r, ks[m + 1..], ts[m + 1..]);
  }

  /** a branch's children by page, with the page of a new right sibling of child ci added */
  function KidIds(ids: seq<nat>, ci: nat, right: nat): seq<nat>
    requires ci < |ids|
  {
    ids[..ci + 1] + [right] + ids[ci + 1..]
  }

  lemma BranchPageOf(s: Store, t: Tree)
    requires Holds(s, t) && t.Branch?
    ensures t.idx in s && s[t.idx].BranchV? && Names(s[t.idx].kids, t.kids)
  {
  }

  lemma BranchSplitHolds(ord: nat, s0: Store, s1: Store, f1: seq<nat>, s4: Store, f3: seq<nat>, t: Tree, ci: nat,
                         g: Grown, r: nat)
    requires t.Branch? && Holds(s0, t) && NoTwice(Pages(t)) && ci < |t.kids| == |t.keys| + 1 && |t.keys| == ord
             && 2 <= ord
    requires 0 in s0 && s0[0].HeaderV? && g.split.Some? && g.node.idx == t.kids[ci].idx && t.idx !in PagesG(g)
    requires OnlyTouched(s0, s1, Pages(t.kids[ci])) && 0 in s1 && s1[0].HeaderV?
    requires Holds(s1, g.node) && Holds(s1, g.split.value.1)
    requires BranchSplitTo(s1, s4, f1, f3, t.idx, r, InsertKey(t.keys, ci, g.split.value.0),
                           KidIds(s0[t.idx].kids, ci, g.split.value.1.idx), (ord + 1) / 2)
    ensures var b := GrowBranch(ord, t.idx, t.keys, t.kids, ci, g, r);
            b.split.Some? && Holds(s4, b.node) && Holds(s4, b.split.value.1)
  {
    hide Holds, AllHold, NoTwice, Pages, PagesG, OnlyTouched, BranchSplitTo, InsertKey, Spliced;
    BranchPageOf(s0, t);
    KidsAfter(s0, s1, t, ci, g);
    ParentApart(t, ci, g);
    NamesSpliced(s0[t.idx].kids, t.kids, ci, g.node, g.split.value.1);
    BranchHalvesHold(s1, s4, f1, f3, t.idx, r, InsertKey(t.keys, ci, g.split.value.0),
                     KidIds(s0[t.idx].kids, ci, g.split.value.1.idx), Spliced(t.kids, ci, g.node, g.split.value.1),
                       (ord + 1) / 2);
  }

  /** The child split and the branch was full: it splits around its median. */
  lemma BranchSplit(ord: nat, s0: Store, f0: seq<nat>, s1: Store, f1: seq<nat>, s4: Store, f3: seq<nat>, t: Tree,
                    ci: nat, g: Grown, ids: seq<nat>, r: nat, pre: seq<nat>, post: seq<nat>)
    requires t.Branch? && Holds(s0, t) && NoTwice(Pages(t)) && ci < |t.kids| == |t.keys| + 1 && |t.keys| == ord
             && 2 <= ord
    requires 0 in s0 && s0[0].HeaderV? && g.split.Some? && g.node.idx == t.kids[ci].idx && t.idx !in PagesG(g)
    requires GrownFile(s0, f0, s1, f1, Pages(t.kids[ci]), PreOf(pre, t.kids, ci), PostOf(post, t.kids, ci), g, ids)
    requires t.idx in s0 && s0[t.idx].BranchV? && |s0[t.idx].kids| == |t.kids|
    requires BranchSplitTo(s1, s4, f1, f3, t.idx, r, InsertKey(t.keys, ci, g.split.value.0),
                           KidIds(s0[t.idx].kids, ci, g.split.value.1.idx), (ord + 1) / 2)
    ensures GrownFile(s0, f0, s4, f3, Pages(t), pre, post, GrowBranch(ord, t.idx, t.keys, t.kids, ci, g, r), ids + [r])
  {
    BranchSplitHolds(ord, s0, s1, f1, s4, f3, t, ci, g, r);
    assert t.idx in s1 && s1[t.idx].BranchV? by {
      KidsAfter(s0, s1, t, ci, g);
    }
    BranchFrame(s0, s1, s4, t, ci, r, PreOf(pre, t.kids, ci) + LeafIdsG(g) + PostOf(post, t.kids, ci));
    ChainRegrown(ord, t, ci, g, r, pre, post);
    TookMore(s0, f0, s1, f1, s4, f3, ids, r);
  }

  /** The pages of a grown child are its old ones and unused ones, so never its parent's. */
  lemma NewPagesApart(s0: Store, f0: seq<nat>, s1: Store, f1: seq<nat>, t: Tree, ci: nat, g: Grown, ids: seq<nat>)
    requires t.Branch? && Holds(s0, t) && NoTwice(Pages(t)) && ci < |t.kids|
    requires FreeList(s0, f0) && Took(s0, f0, s1, f1, ids) && PagesG(g) == Pages(t.kids[ci]) + multiset(ids)
    ensures t.idx !in PagesG(g)
  {
    assert t.idx !in Pages(t.kids[ci]) by {
      if t.idx in Pages(t.kids[ci]) {
        KidsApart(t, ci, t.idx);
      }
    }
    assert t.idx !in ids;
  }

  lemma GrowPagesAll(ord: nat, t: Tree, h: nat, k: int, v: Value, ids: seq<nat>, lo: Option<int>, hi: Option<int>)
    requires Balanced(t, h) && 2 <= ord && WF(t, ord, lo, hi) && |ids| == Splits(ord, t, h, k)
    ensures PagesG(Grow(ord, t, h, k, v, ids)) == Pages(t) + multiset(ids)
  {
    GrowPages(ord, t, h, k, v, ids, lo, hi);
    assert ids[..|ids|] == ids;
  }

  /** The page writes of a branch split amount to `BranchSplitTo`. */
  lemma BranchHalved(s1: Store, f1: seq<nat>, s2: Store, s3: Store, f3: seq<nat>, s4: Store, idx: nat, r: nat,
                     ks: seq<int>, cs: seq<nat>, m: nat)
    requires Pool(s1, f1) && idx in s1 && s1[idx].BranchV? && m < |ks| && |cs| == |ks| + 1
    requires s2 == s1[idx := BranchV(ks[..m], cs[..m + 1])]
    requires Pool(s3, f3) && Took(s2, f1, s3, f3, [r]) && SameTreeFields(s2, s3) && r in s3 && s3[r].FreeV? && r !in f3
    requires forall q :: q in s2 && q != 0 ==> q in s3 && s3[q] == s2[q]
    requires s4 == s3[r := BranchV(ks[m + 1..], cs[m + 1..])]
    ensures BranchSplitTo(s1, s4, f1, f3, idx, r, ks, cs, m)
  {
    assert s2.Keys == s1.Keys && s4.Keys == s3.Keys;
    assert [r][0] == r;
    assert r in s1 ==> s1[r].FreeV?;
    assert idx in s2 && s2[idx].BranchV? && idx != 0;
    PoolFrame(s3, s4, f3);
  }

  /** What is known of a child once the insertion below it is done. */
  lemma KidGrown(ord: nat, s0: Store, f0: seq<nat>, s1: Store, f1: seq<nat>, t: Tree, h: nat, ci: nat, k: int,
                 v: Value, ids: seq<nat>, lo: Option<int>, hi: Option<int>)
    requires t.Branch? && Holds(s0, t) && NoTwice(Pages(t)) && ci < |t.kids| && 2 <= ord
    requires Balanced(t.kids[ci], h) && WF(t.kids[ci], ord, lo, hi)
    requires FreeList(s0, f0) && Took(s0, f0, s1, f1, ids) && |ids| == Splits(ord, t.kids[ci], h, k)
    ensures var g := Grow(ord, t.kids[ci], h, k, v, ids);
            && g.node.idx == t.kids[ci].idx && t.idx !in PagesG(g)
            && (g.split.Some? <==> |ids| == h)
  {
    GrowIdx(ord, t.kids[ci], h, k, v, ids);
    SplitsUpward(ord, t.kids[ci], h, k, v, ids);
    GrowPagesAll(ord, t.kids[ci], h, k, v, ids, lo, hi);
    NewPagesApart(s0, f0, s1, f1, t, ci, Grow(ord, t.kids[ci], h, k, v, ids), ids);
  }

  /** The branch's outcome in terms of its child's. */
  lemma GrowUnfolds(ord: nat, t: Tree, h: nat, k: int, v: Value, ids: seq<nat>, more: seq<nat>)
    requires t.Branch? && Balanced(t, h) && 2 <= ord && |ids| == Splits(ord, t.kids[Slot(t.keys, k)], h - 1, k)
    requires var g := Grow(ord, t.kids[Slot(t.keys, k)], h - 1, k, v, ids);
             && (g.split.Some? <==> |ids| == h - 1)
             && (if g.split.Some? && |t.keys| >= ord then |more| == 1 else more == [])
    ensures |ids + more| == Splits(ord, t, h, k)
    ensures var ci := Slot(t.keys, k);
            Grow(ord, t, h, k, v, ids + more) ==
            GrowBranch(ord, t.idx, t.keys, t.kids, ci, Grow(ord, t.kids[ci], h - 1, k, v, ids),
                       if more == [] then PageFor(ids, h) else more[0])
  {
    GrowMore(ord, t.kids[Slot(t.keys, k)], h - 1, k, v, ids, more);
    assert ids + [] == ids;
  }

  // ---- what the recursive methods ask for and promise ------------------------------------------------

  /** a node that the descent may enter, with the leaves around it */
  ghost predicate NodeReady(ord: nat, s: Store, t: Tree, h: nat, lo: Option<int>, hi: Option<int>, pre: seq<nat>,
                            post: seq<nat>) {
    && 2 <= ord && 0 in s && s[0].HeaderV?
    && Balanced(t, h) && WF(t, ord, lo, hi) && Holds(s, t) && NoTwice(Pages(t))
    && Chain(s, pre + LeafIds(t) + post)
  }

  lemma BranchReady(ord: nat, s: Store, t: Tree, h: nat, lo: Option<int>, hi: Option<int>, pre: seq<nat>,
                    post: seq<nat>)
    requires NodeReady(ord, s, t, h, lo, hi, pre, post) && t.Branch?
    ensures Ascending(t.keys) && |t.kids| == |t.keys| + 1 && |t.keys| <= ord && t.idx in s && s[t.idx].BranchV?
    ensures s[t.idx].keys == t.keys && |s[t.idx].kids| == |t.kids|
    ensures forall i :: 0 <= i < |t.kids| ==> t.kids[i].idx == s[t.idx].kids[i]
  {
    KidWF(t, ord, lo, hi, 0);
  }

  lemma KidReady(ord: nat, s: Store, t: Tree, h: nat, lo: Option<int>, hi: Option<int>, pre: seq<nat>, post: seq<nat>,
                 k: int, ci: nat)
    requires NodeReady(ord, s, t, h, lo, hi, pre, post) && t.Branch? && ci == Slot(t.keys, k)
    ensures h > 1 && ci < |t.kids| && ci <= |t.keys| <= ord
    ensures NodeReady(ord, s, t.kids[ci], h - 1, LoOf(t.keys, lo, ci), HiOf(t.keys, hi, ci),
                      PreOf(pre, t.kids, ci), PostOf(post, t.kids, ci))
    ensures Within(k, lo, hi) ==> Within(k, LoOf(t.keys, lo, ci), HiOf(t.keys, hi, ci))
    ensures Balanced(t.kids[ci], h - 1) && Balanced(t, h) && 2 <= ord
  {
    KidNoTwice(t, ci);
    ChainAround(pre, t.kids, ci, post);
    KidWF(t, ord, lo, hi, ci);
  }

  lemma NodeKind(ord: nat, s: Store, t: Tree, h: nat, lo: Option<int>, hi: Option<int>, pre: seq<nat>, post: seq<nat>)
    requires NodeReady(ord, s, t, h, lo, hi, pre, post)
    ensures t.idx in s && (if t.Leaf? then s[t.idx].LeafV? && h == 1 else s[t.idx].BranchV?)
    ensures Balanced(t, h) && 2 <= ord
  {
  }

  lemma LeafReady(ord: nat, s: Store, t: Tree, lo: Option<int>, hi: Option<int>, pre: seq<nat>, post: seq<nat>)
    requires NodeReady(ord, s, t, 1, lo, hi, pre, post) && t.Leaf?
    ensures Holds(s, t) && t.idx in s && s[t.idx].LeafV? && s[t.idx].recs == t.recs && Sorted(t.recs)
            && 1 <= |t.recs| <= ord
    ensures Chain(s, pre + [t.idx] + post)
  {
  }

  /** What an insertion below node t has done, in the file and in what it returns. */
  ghost predicate NodeDone(ord: nat, s0: Store, f0: seq<nat>, s1: Store, f1: seq<nat>, t: Tree, h: nat, k: int,
                           v: Value,
                           pre: seq<nat>, post: seq<nat>, inserted: bool, split: bool, promo: int, right: nat,
                             ids: seq<nat>)
    requires Balanced(t, h) && 2 <= ord
  {
    && |ids| == Splits(ord, t, h, k)
    && var g := Grow(ord, t, h, k, v, ids);
       Says(g, inserted, split, promo, right) && GrownFile(s0, f0, s1, f1, Pages(t), pre, post, g, ids)
  }

  predicate Says(g: Grown, inserted: bool, split: bool, promo: int, right: nat) {
    inserted == g.inserted && split == g.split.Some?
      && (split ==> promo == g.split.value.0 && right == g.split.value.1.idx)
  }

  lemma LeafHit(ord: nat, s: Store, f: seq<nat>, t: Tree, k: int, v: Value, pre: seq<nat>, post: seq<nat>)
    requires 2 <= ord && t.Leaf? && Balanced(t, 1) && Hit(t.recs, k) && Holds(s, t) && Chain(s, pre + [t.idx] + post)
             && Pool(s, f)
    ensures NodeDone(ord, s, f, s, f, t, 1, k, v, pre, post, false, false, k, 0, [])
  {
    NothingDone(s, f, t, pre, post);
  }

  lemma LeafAdded(ord: nat, s0: Store, f: seq<nat>, s1: Store, t: Tree, k: int, v: Value, pre: seq<nat>, post: seq<nat>)
    requires 2 <= ord && t.Leaf? && Balanced(t, 1) && !Hit(t.recs, k) && |t.recs| < ord
    requires Holds(s0, t) && Chain(s0, pre + [t.idx] + post) && Pool(s0, f)
    requires s1 == s0[t.idx := s0[t.idx].(recs := InsertRec(t.recs, k, v))]
    ensures NodeDone(ord, s0, f, s1, f, t, 1, k, v, pre, post, true, false, k, 0, []) && Pool(s1, f)
  {
    LeafGrew(s0, f, s1, t.idx, InsertRec(t.recs, k, v), pre, post);
  }

  lemma LeafSplitDone(ord: nat, s0: Store, f0: seq<nat>, s1: Store, f1: seq<nat>, t: Tree, k: int, v: Value,
                      pre: seq<nat>, post: seq<nat>, promo: int, r: nat)
    requires 2 <= ord && t.Leaf? && Balanced(t, 1) && !Hit(t.recs, k) && |t.recs| == ord
    requires var g := SplitLeaf(ord, t.idx, t.recs, k, v, r);
             promo == g.split.value.0 && GrownFile(s0, f0, s1, f1, multiset{t.idx}, pre, post, g, [r])
    ensures NodeDone(ord, s0, f0, s1, f1, t, 1, k, v, pre, post, true, true, promo, r, [r])
  {
    assert PageFor([r], 1) == r;
  }

  /** The child ci of t has been inserted into; its parent's page has not been written yet. */
  ghost predicate KidDone(ord: nat, s0: Store, f0: seq<nat>, s1: Store, f1: seq<nat>, t: Tree, ci: nat, g: Grown,
                          ids: seq<nat>, pre: seq<nat>, post: seq<nat>, csplit: bool, sep: int, child: nat) {
    && 2 <= ord && t.Branch? && Holds(s0, t) && NoTwice(Pages(t))
    && ci < |t.kids| == |t.keys| + 1 && |t.keys| <= ord && 0 in s0 && s0[0].HeaderV?
    && csplit == g.split.Some? && (csplit ==> sep == g.split.value.0 && child == g.split.value.1.idx)
    && g.node.idx == t.kids[ci].idx && t.idx !in PagesG(g)
    && GrownFile(s0, f0, s1, f1, Pages(t.kids[ci]), PreOf(pre, t.kids, ci), PostOf(post, t.kids, ci), g, ids)
  }

  /** The branch itself has been brought up to date; r is the page named when none is taken. */
  ghost predicate BranchDone(ord: nat, s0: Store, f0: seq<nat>, s1: Store, f1: seq<nat>, t: Tree, ci: nat, g: Grown,
                             ids: seq<nat>, r: nat,
                             pre: seq<nat>, post: seq<nat>, csplit: bool, split: bool, promo: int, right: nat,
                               more: seq<nat>) {
    && 2 <= ord && t.Branch? && ci < |t.kids| == |t.keys| + 1
    && more == (if csplit && |t.keys| == ord then [right] else [])
    && var b := GrowBranch(ord, t.idx, t.keys, t.kids, ci, g, if more == [] then r else right);
       Says(b, g.inserted, split, promo, right) && GrownFile(s0, f0, s1, f1, Pages(t), pre, post, b, ids + more)
  }

  lemma KidIsDone(ord: nat, s0: Store, f0: seq<nat>, s1: Store, f1: seq<nat>, t: Tree, h: nat, ci: nat, k: int,
                  v: Value, lo: Option<int>, hi: Option<int>, pre: seq<nat>, post: seq<nat>,
                  inserted: bool, csplit: bool, sep: int, child: nat, ids: seq<nat>)
    requires NodeReady(ord, s0, t, h, lo, hi, pre, post) && t.Branch? && ci == Slot(t.keys, k) < |t.kids|
             && Pool(s0, f0)
    requires Balanced(t.kids[ci], h - 1)
    requires NodeDone(ord, s0, f0, s1, f1, t.kids[ci], h - 1, k, v, PreOf(pre, t.kids, ci), PostOf(post, t.kids, ci),
                      inserted, csplit, sep, child, ids)
    ensures KidDone(ord, s0, f0, s1, f1, t, ci, Grow(ord, t.kids[ci], h - 1, k, v, ids), ids, pre, post, csplit, sep,
                    child)
    ensures |ids| == Splits(ord, t.kids[ci], h - 1, k)
    ensures var g := Grow(ord, t.kids[ci], h - 1, k, v, ids); csplit == g.split.Some? && inserted == g.inserted
  {
    KidWF(t, ord, lo, hi, ci);
    KidGrown(ord, s0, f0, s1, f1, t, h - 1, ci, k, v, ids, LoOf(t.keys, lo, ci), HiOf(t.keys, hi, ci));
  }

  /** The branch's outcome in terms of its child's. */
  lemma NodeIsDone(ord: nat, s0: Store, f0: seq<nat>, s1: Store, f1: seq<nat>, t: Tree, h: nat, ci: nat, k: int,
                   v: Value, pre: seq<nat>, post: seq<nat>, inserted: bool, split: bool, promo: int, right: nat,
                   csplit: bool, ids: seq<nat>, more: seq<nat>)
    requires 2 <= ord && t.Branch? && Balanced(t, h) && ci == Slot(t.keys, k) < |t.kids| && |t.keys| <= ord
    requires |ids| == Splits(ord, t.kids[ci], h - 1, k)
    requires var g := Grow(ord, t.kids[ci], h - 1, k, v, ids);
             && csplit == g.split.Some? && inserted == g.inserted
             && BranchDone(ord, s0, f0, s1, f1, t, ci, g, ids, PageFor(ids, h), pre, post, csplit, split, promo,
                           right, more)
    ensures NodeDone(ord, s0, f0, s1, f1, t, h, k, v, pre, post, inserted, split, promo, right, ids + more)
  {
    SplitsUpward(ord, t.kids[ci], h - 1, k, v, ids);
    GrowUnfolds(ord, t, h, k, v, ids, more);
  }

  lemma ParentPage(ord: nat, s0: Store, f0: seq<nat>, s1: Store, f1: seq<nat>, t: Tree, ci: nat, g: Grown,
                   ids: seq<nat>, pre: seq<nat>, post: seq<nat>, csplit: bool, sep: int, child: nat)
    requires KidDone(ord, s0, f0, s1, f1, t, ci, g, ids, pre, post, csplit, sep, child)
    ensures t.idx in s1 && s1[t.idx].BranchV? && s1[t.idx].keys == t.keys && |s1[t.idx].kids| == |t.keys| + 1
    ensures ci <= |t.keys| <= ord && 0 <= ci <= |s1[t.idx].keys| <= ord
  {
    KidsAfter(s0, s1, t, ci, g);
  }

  lemma UnsplitDone(ord: nat, s0: Store, f0: seq<nat>, s1: Store, f1: seq<nat>, t: Tree, ci: nat, g: Grown,
                    ids: seq<nat>, r: nat,
                    pre: seq<nat>, post: seq<nat>, sep: int, child: nat, promo: int, right: nat)
    requires KidDone(ord, s0, f0, s1, f1, t, ci, g, ids, pre, post, false, sep, child)
    ensures BranchDone(ord, s0, f0, s1, f1, t, ci, g, ids, r, pre, post, false, false, promo, right, [])
  {
    assert ids + [] == ids;
    BranchUnsplit(ord, s0, f0, s1, f1, t, ci, g, ids, r, pre, post);
  }

  lemma GrewDone(ord: nat, s0: Store, f0: seq<nat>, s1: Store, f1: seq<nat>, s2: Store, t: Tree, ci: nat, g: Grown,
                 ids: seq<nat>, r: nat, pre: seq<nat>, post: seq<nat>, sep: int, child: nat, promo: int, right: nat)
    requires KidDone(ord, s0, f0, s1, f1, t, ci, g, ids, pre, post, true, sep, child) && |t.keys| < ord
    requires t.idx in s1 && s1[t.idx].BranchV? && |s1[t.idx].kids| == |t.keys| + 1
    requires s2 == s1[t.idx := BranchV(InsertKey(t.keys, ci, sep), KidIds(s1[t.idx].kids, ci, child))]
    ensures BranchDone(ord, s0, f0, s2, f1, t, ci, g, ids, r, pre, post, true, false, promo, right, [])
  {
    assert ids + [] == ids;
    KidsAfter(s0, s1, t, ci, g);
    BranchGrew(ord, s0, f0, s1, f1, s2, t, ci, g, ids, r, pre, post);
  }

  lemma SplitBranchDone(ord: nat, s0: Store, f0: seq<nat>, s1: Store, f1: seq<nat>, s2: Store, f2: seq<nat>, t: Tree,
                        ci: nat, g: Grown,
                        ids: seq<nat>, r: nat, pre: seq<nat>, post: seq<nat>, sep: int, child: nat, promo: int,
                          right: nat)
    requires KidDone(ord, s0, f0, s1, f1, t, ci, g, ids, pre, post, true, sep, child) && |t.keys| == ord
    requires t.idx in s1 && s1[t.idx].BranchV? && |s1[t.idx].kids| == |t.keys| + 1
    requires promo == InsertKey(t.keys, ci, sep)[(ord + 1) / 2]
    requires BranchSplitTo(s1, s2, f1, f2, t.idx, right, InsertKey(t.keys, ci, sep),
                           KidIds(s1[t.idx].kids, ci, child), (ord + 1) / 2)
    ensures BranchDone(ord, s0, f0, s2, f2, t, ci, g, ids, r, pre, post, true, true, promo, right, [right])
  {
    KidsAfter(s0, s1, t, ci, g);
    BranchSplit(ord, s0, f0, s1, f1, s2, f2, t, ci, g, ids, right, pre, post);
  }
}
