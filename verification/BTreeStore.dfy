/** A page file as a value: which trees, leaf chains and free lists it spells out. */
module BTreeStore {
  import opened BTreeModel
  import opened BTreePage

  type Store = map<nat, PageView>

  /** element i of a list of pages, 0 past its ends */
  function At(ids: seq<nat>, i: int): nat {
    if 0 <= i < |ids| then ids[i] else 0
  }

  // ---- trees ----------------------------------------------------------------------------------

  /** The pages below t.idx hold exactly the tree t. The links between leaves are not part of this. */
  ghost predicate Holds(s: Store, t: Tree) {
    && t.idx in s
    && match t
       case Leaf(idx, recs) => s[idx].LeafV? && s[idx].recs == recs
       case Branch(idx, keys, kids) =>
         && s[idx].BranchV? && s[idx].keys == keys && |s[idx].kids| == |kids|
         && forall i :: 0 <= i < |kids| ==> kids[i].idx == s[idx].kids[i] && Holds(s, kids[i])
  }

  ghost predicate NoTwice(pages: multiset<nat>) {
    forall p :: pages[p] <= 1
  }

  /** a page with its links to other leaves blanked out */
  function Body(v: PageView): PageView {
    if v.LeafV? then LeafV(v.recs, 0, 0) else v
  }

  ghost predicate SameBody(s0: Store, s1: Store, p: nat) {
    p in s0 && p in s1 && Body(s0[p]) == Body(s1[p])
  }

  lemma {:induction false} KidPages(kids: seq<Tree>, i: nat)
    requires i < |kids|
    ensures Pages(kids[i]) <= PagesF(kids)
  {
    PagesAt(kids, i);
  }

  /** Pages that stay the same keep holding the tree. */
  lemma {:induction false} HoldsFrame(s0: Store, s1: Store, t: Tree)
    requires Holds(s0, t) && forall p :: p in Pages(t) ==> SameBody(s0, s1, p)
    ensures Holds(s1, t)
  {
    assert t.idx in Pages(t) && SameBody(s0, s1, t.idx);
    if t.Branch? {
      forall i | 0 <= i < |t.kids| ensures Holds(s1, t.kids[i]) {
        KidPages(t.kids, i);
        HoldsFrame(s0, s1, t.kids[i]);
      }
    }
  }

  /** The pages of a tree are leaves or branches, never the header or free. */
  lemma {:induction false} HoldsKinds(s: Store, t: Tree, p: nat)
    requires Holds(s, t) && p in Pages(t)
    ensures p in s && (s[p].LeafV? || s[p].BranchV?)
  {
    if t.Branch? && p != t.idx {
      KidWith(t.kids, p);
      var i :| 0 <= i < |t.kids| && p in Pages(t.kids[i]);
      HoldsKinds(s, t.kids[i], p);
    }
  }

  lemma {:induction false} KidWith(kids: seq<Tree>, p: nat)
    requires p in PagesF(kids)
    ensures exists i :: 0 <= i < |kids| && p in Pages(kids[i])
  {
    if p !in Pages(kids[0]) {
      KidWith(kids[1..], p);
      var i :| 0 <= i < |kids[1..]| && p in Pages(kids[1..][i]);
      assert p in Pages(kids[i + 1]);
    }
  }

  /** In a tree that uses no page twice, children share no page with each other or with their parent. */
  lemma KidsApart(t: Tree, i: nat, p: nat)
    requires t.Branch? && NoTwice(Pages(t)) && i < |t.kids| && p in Pages(t.kids[i])
    ensures p != t.idx
    ensures forall j :: 0 <= j < |t.kids| && j != i ==> p !in Pages(t.kids[j])
  {
    PagesAt(t.kids, i);
    assert Pages(t)[p] <= 1;
    forall j | 0 <= j < |t.kids| && j != i ensures p !in Pages(t.kids[j]) {
      if j < i {
        KidPages(t.kids[..i], j);
      } else {
        KidPages(t.kids[i + 1..], j - i - 1);
      }
    }
  }

  lemma KidNoTwice(t: Tree, i: nat)
    requires t.Branch? && NoTwice(Pages(t)) && i < |t.kids|
    ensures NoTwice(Pages(t.kids[i]))
  {
    KidPages(t.kids, i);
    forall p ensures Pages(t.kids[i])[p] <= 1 {
      assert Pages(t)[p] <= 1;
    }
  }

  lemma {:induction false} LeafIdsArePages(t: Tree, h: nat, s: Store, i: nat)
    requires Balanced(t, h) && Holds(s, t) && i < |LeafIds(t)|
    ensures LeafIds(t)[i] in Pages(t)
    decreases t, 0
  {
    if t.Branch? {
      LeafIdsInForest(t.kids, h - 1, s, i);
    }
  }

  lemma {:induction false} LeafIdsInForest(kids: seq<Tree>, h: nat, s: Store, i: nat)
    requires forall j :: 0 <= j < |kids| ==> Balanced(kids[j], h) && Holds(s, kids[j])
    requires i < |LeafIdsF(kids)|
    ensures LeafIdsF(kids)[i] in PagesF(kids)
    decreases kids, 0
  {
    if i < |LeafIds(kids[0])| {
      LeafIdsArePages(kids[0], h, s, i);
    } else {
      LeafIdsInForest(kids[1..], h, s, i - |LeafIds(kids[0])|);
    }
  }

  // ---- the chain of leaves -----------------------------------------------------------------------

  ghost predicate Unrepeated(ids: seq<nat>) {
    forall i, j :: 0 <= i < j < |ids| ==> ids[i] != ids[j]
  }

  /** The leaves `ids` are linked in this order, forwards and backwards, with 0 at both ends. */
  ghost predicate Chain(s: Store, ids: seq<nat>) {
    && Unrepeated(ids)
    && forall i :: 0 <= i < |ids| ==> Linked(s, ids, i)
  }

  ghost predicate Linked(s: Store, ids: seq<nat>, i: int)
    requires 0 <= i < |ids|
  {
    ids[i] in s && s[ids[i]].LeafV? && s[ids[i]].next == At(ids, i + 1) && s[ids[i]].prev == At(ids, i - 1)
  }

  // ---- the free list ---------------------------------------------------------------------------------

  /** The free pages are threaded through each other in this order. */
  ghost predicate FreeList(s: Store, free: seq<nat>) {
    && Unrepeated(free)
    && forall i :: 0 <= i < |free| ==>
         free[i] != 0 && free[i] in s && s[free[i]] == FreeV(At(free, i + 1))
  }

  /** the header as far as the allocator is concerned */
  ghost predicate HeadsFree(s: Store, free: seq<nat>) {
    0 in s && s[0].HeaderV? && s[0].hdr.freeHead == At(free, 0) && s[0].hdr.freeCount == |free|
  }

  ghost predicate Pool(s: Store, free: seq<nat>) {
    FreeList(s, free) && HeadsFree(s, free)
  }

  /** the header with the allocator's fields left out */
  function TreeFields(h: Header): Header {
    h.(freeHead := 0, freeCount := 0)
  }

  ghost predicate SameTreeFields(s0: Store, s1: Store) {
    0 in s0 && 0 in s1 && s0[0].HeaderV? && s1[0].HeaderV? && TreeFields(s0[0].hdr) == TreeFields(s1[0].hdr)
  }

  /** `ids` were taken from the allocator, in this order: from the head of the free list while it
      lasts, and only then from the end of the file. No page appears or disappears on the way. */
  ghost predicate Took(s0: Store, f0: seq<nat>, s1: Store, f1: seq<nat>, ids: seq<nat>) {
    && s0.Keys <= s1.Keys
    && multiset(s0.Keys) + multiset(ids) + multiset(f1) == multiset(s1.Keys) + multiset(f0)
    && (if |ids| <= |f0| then ids == f0[..|ids|] && f1 == f0[|ids|..] && s1.Keys == s0.Keys
        else ids[..|f0|] == f0 && f1 == [])
    && forall i :: 0 <= i < |ids| ==> ids[i] != 0 && ids[i] in s1 && (ids[i] in s0 ==> ids[i] in f0)
  }

  /** Nothing but the free pages and the given ones was written to. */
  ghost predicate OnlyTouched(s0: Store, s1: Store, owned: multiset<nat>) {
    forall p :: p in s0 && p !in owned && p != 0 && !s0[p].FreeV? ==> SameBody(s0, s1, p)
  }

  lemma Compose(k0: multiset<nat>, ids: multiset<nat>, f0: multiset<nat>, k1: multiset<nat>, f1: multiset<nat>,
                id: multiset<nat>, k2: multiset<nat>, f2: multiset<nat>)
    requires k0 + ids + f1 == k1 + f0 && k1 + id + f2 == k2 + f1
    ensures k0 + (ids + id) + f2 == k2 + f0
  {
    forall p ensures (k0 + (ids + id) + f2)[p] == (k2 + f0)[p] {
      assert (k0 + ids + f1)[p] == (k1 + f0)[p] && (k1 + id + f2)[p] == (k2 + f1)[p];
    }
  }

  lemma TookMore(s0: Store, f0: seq<nat>, s1: Store, f1: seq<nat>, s2: Store, f2: seq<nat>, ids: seq<nat>, id: nat)
    requires Took(s0, f0, s1, f1, ids) && Took(s1, f1, s2, f2, [id])
    ensures Took(s0, f0, s2, f2, ids + [id])
  {
    var n := |ids|;
    assert [id][0] == id;
    Compose(multiset(s0.Keys), multiset(ids), multiset(f0), multiset(s1.Keys), multiset(f1), multiset([id]),
            multiset(s2.Keys), multiset(f2));
    if n < |f0| {
      assert [id] == f1[..1];
      assert f1[0] == f0[n] && f1[1..] == f0[n + 1..];
      assert ids + [id] == f0[..n + 1];
    } else {
      assert f1 == [];
      assert (ids + [id])[..|f0|] == f0;
    }
  }

  lemma TookSameKeys(s0: Store, f0: seq<nat>, s1: Store, s2: Store, f1: seq<nat>, ids: seq<nat>)
    requires Took(s0, f0, s1, f1, ids) && s2.Keys == s1.Keys
    ensures Took(s0, f0, s2, f1, ids)
  {
  }

  lemma TookIdx(s0: Store, f0: seq<nat>, s1: Store, f1: seq<nat>, idx: nat)
    requires Took(s0, f0, s1, f1, [idx])
    ensures idx != 0 && idx in s1
  {
    assert [idx][0] == idx;
  }

  // ---- what the allocator does to a file ---------------------------------------------------------

  /** The head of the free list, as the header and the head's own page name it. */
  lemma FreeHead(s: Store, f: seq<nat>)
    requires Pool(s, f)
    ensures 0 in s && s[0].HeaderV? && s[0].hdr.freeHead == At(f, 0) && s[0].hdr.freeCount == |f|
    ensures f != [] <==> At(f, 0) != 0
    ensures f != [] ==> f[0] in s && s[f[0]] == FreeV(At(f, 1))
  {
  }

  /** Taking the head off the free list. */
  lemma PopKeeps(s0: Store, f0: seq<nat>, s1: Store)
    requires Pool(s0, f0) && f0 != []
    requires s1 == s0[0 := HeaderV(s0[0].hdr.(freeHead := At(f0, 1), freeCount := |f0| - 1))]
    ensures Pool(s1, f0[1..]) && Took(s0, f0, s1, f0[1..], [f0[0]]) && SameTreeFields(s0, s1)
    ensures f0[0] !in f0[1..]
  {
    var f1 := f0[1..];
    assert f0 == [f0[0]] + f1;
    forall i | 0 <= i < |f1| ensures f1[i] != 0 && f1[i] in s1 && s1[f1[i]] == FreeV(At(f1, i + 1)) {
      assert f1[i] == f0[i + 1];
    }
  }

  /** Extending the file when no page is free. */
  lemma ExtendKeeps(s0: Store, s1: Store, idx: nat)
    requires Pool(s0, []) && idx != 0 && idx !in s0 && s1 == s0[idx := FreeV(0)]
    ensures Pool(s1, []) && Took(s0, [], s1, [], [idx]) && SameTreeFields(s0, s1)
  {
    assert s1.Keys == s0.Keys + {idx};
  }

  /** Pushing a page onto the free list. */
  lemma PushKeeps(s0: Store, f0: seq<nat>, s1: Store, idx: nat)
    requires Pool(s0, f0) && idx in s0 && idx != 0 && idx !in f0
    requires s1 == s0[idx := FreeV(At(f0, 0))][0 := HeaderV(s0[0].hdr.(freeHead := idx, freeCount := |f0| + 1))]
    ensures Pool(s1, [idx] + f0) && SameTreeFields(s0, s1)
  {
    var f1 := [idx] + f0;
    forall i | 0 <= i < |f1| ensures f1[i] != 0 && f1[i] in s1 && s1[f1[i]] == FreeV(At(f1, i + 1)) {
      if i > 0 {
        assert f1[i] == f0[i - 1];
      }
    }
  }
}
