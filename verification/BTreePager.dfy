/** The page file behind its cache, and the page allocator.

  Pages are reached only through the evicting cache. A handle obtained earlier stays good:
  every handle for one page index is the same page. */
module BTreePager {
  import opened BTreeModel
  import opened BTreePage
  import opened BTreeStore
  import BTreeInsert
  import BTreeErase
  import Lru

  class Pager {
    const order: nat
    const cache: Lru.LruCache<Page>
    var pages: map<nat, Page>
    ghost var store: Store
    ghost var free: seq<nat>
    ghost var owner: map<object, nat>
    ghost var Repr: set<object>

    /** `store` is what the pages say; the pages share no memory; the cache holds true handles. */
    ghost predicate Valid()
      reads this, Repr
    {
      && this in Repr && cache in Repr
      && Base()
      && forall i {:trigger Shown(i, store[i])} :: i in pages ==> (assert Owns(i); Shown(i, store[i]))
    }

    ghost predicate Base()
      reads this, cache
    {
      && this in Repr && cache in Repr && cache.size >= 1 && order >= 2
      && pages.Keys == store.Keys
      && Owned()
      && Cached()
    }

    /** each object in memory belongs to one page only */
    ghost predicate Owned()
      reads this`pages, this`owner, this`Repr
    {
      && owner.Keys <= Repr
      && forall i {:trigger Owns(i)} :: i in pages ==> Owns(i)
    }

    ghost predicate Owns(i: nat)
      requires i in pages
      reads this`pages, this`owner
    {
      var p := pages[i];
      && {p, p.records, p.keys, p.children} <= owner.Keys
      && owner[p] == i && owner[p.records] == i && owner[p.keys] == i && owner[p.children] == i
    }

    /** page i shows v */
    ghost predicate Shown(i: nat, v: PageView)
      requires i in pages
      reads this`pages, pages[i], pages[i].records, pages[i].keys, pages[i].children
    {
      pages[i].Shows(v, order)
    }

    /** the pages other than idx show what s says of them */
    ghost predicate Others(idx: nat, s: Store)
      requires Owned() && pages.Keys == s.Keys
      reads this`pages, this`owner, this`Repr
      reads set o: object | o in Repr && o in owner && owner[o] != idx
    {
      forall i {:trigger Shown(i, s[i])} :: i in pages && i != idx ==> (assert Owns(i); Shown(i, s[i]))
    }

    ghost predicate Cached()
      reads this, cache
    {
      forall n :: 0 <= n < |cache.items| ==>
        cache.items[n].0 in pages && cache.items[n].1 == pages[cache.items[n].0]
    }

    ghost predicate Ready()
      reads this, Repr
    {
      Valid() && Pool(store, free)
    }

    ghost predicate Is(idx: nat, p: Page)
      reads this
    {
      idx in pages && pages[idx] == p
    }

    /** a file with a zeroed header page, behind an empty cache */
    constructor (order: nat, cacheSize: nat)
      requires order >= 2 && cacheSize >= 1
      ensures Valid() && fresh(Repr) && this.order == order
      ensures store == map[0 := FreeV(0)] && free == []
    {
      this.order := order;
      var c := new Lru.LruCache<Page>(cacheSize);
      var p := new Page(order);
      cache := c;
      pages := map[0 := p];
      store := map[0 := FreeV(0)];
      free := [];
      owner := map[p := 0, p.records := 0, p.keys := 0, p.children := 0];
      Repr := {this, c} + p.Parts();
    }

    /** the page at idx, through the cache */
    method Fetch(idx: nat) returns (p: Page)
      requires Valid() && idx in store
      modifies cache
      ensures Valid() && Is(idx, p) && p.Parts() <= Repr && p.Shows(store[idx], order)
    {
      p := cache.Index(idx, pages);
      assert Owns(idx) && Shown(idx, store[idx]);
    }

    /** brings `store` up to date with the page just written */
    ghost method Note(idx: nat, p: Page, v: PageView)
      requires Base() && Is(idx, p) && Others(idx, store) && p.Shows(v, order)
      modifies this`store
      ensures Valid() && store == old(store)[idx := v]
    {
      store := store[idx := v];
    }

    // ---- writing to a page ----------------------------------------------------------------

    method FormatHeader(p: Page)
      requires Valid() && Is(0, p)
      modifies this`store, p`kind, p`hdr
      ensures Valid() && store == old(store)[0 := HeaderV(Header(0, 0, 0, 0, 0, 0))]
    {
      assert Owns(0) && Shown(0, store[0]) && Others(0, store);
      p.FormatHeader();
      Note(0, p, HeaderV(Header(0, 0, 0, 0, 0, 0)));
    }

    method PutHeader(p: Page, h: Header)
      requires Valid() && Is(0, p) && store[0].HeaderV?
      modifies this`store, p`hdr
      ensures Valid() && store == old(store)[0 := HeaderV(h)]
    {
      assert Owns(0) && Shown(0, store[0]) && Others(0, store);
      p.PutHeader(h);
      Note(0, p, HeaderV(h));
    }

    method FormatLeaf(ghost idx: nat, p: Page)
      requires Valid() && Is(idx, p)
      modifies this`store, p`kind, p`count, p`nextPage, p`prevPage
      ensures Valid() && store == old(store)[idx := LeafV([], 0, 0)]
    {
      assert Owns(idx) && Shown(idx, store[idx]) && Others(idx, store);
      p.FormatLeaf();
      Note(idx, p, LeafV([], 0, 0));
    }

    method FormatBranch(ghost idx: nat, p: Page)
      requires Valid() && Is(idx, p)
      modifies this`store, p`kind, p`count
      ensures Valid() && idx in store && store[idx].BranchV? && store == old(store)[idx := store[idx]]
    {
      assert Owns(idx) && Shown(idx, store[idx]) && Others(idx, store);
      p.FormatBranch();
      Note(idx, p, p.View());
    }

    method FormatFree(ghost idx: nat, p: Page, link: nat)
      requires Valid() && Is(idx, p)
      modifies this`store, p`kind, p`nextFree
      ensures Valid() && store == old(store)[idx := FreeV(link)]
    {
      assert Owns(idx) && Shown(idx, store[idx]) && Others(idx, store);
      p.FormatFree(link);
      Note(idx, p, FreeV(link));
    }

    method PutLinks(ghost idx: nat, p: Page, next: nat, prev: nat)
      requires Valid() && Is(idx, p) && store[idx].LeafV?
      modifies this`store, p`nextPage, p`prevPage
      ensures Valid() && store == old(store)[idx := LeafV(old(store)[idx].recs, next, prev)]
    {
      ghost var v := store[idx];
      assert Owns(idx) && Shown(idx, store[idx]) && Others(idx, store);
      p.PutLinks(next, prev);
      Note(idx, p, LeafV(v.recs, next, prev));
    }

    method PutRecord(ghost idx: nat, p: Page, pos: nat, key: int, val: Value)
      requires Valid() && Is(idx, p) && store[idx].LeafV? && |store[idx].recs| < order
      requires pos == Lower(store[idx].recs, key)
      modifies this`store, p`count, p.records
      ensures Valid()
      ensures var s := old(store);
              store == s[idx := s[idx].(recs := BTreeInsert.InsertRec(s[idx].recs, key, val))]
    {
      ghost var v := store[idx];
      assert Owns(idx) && Shown(idx, store[idx]) && Others(idx, store);
      p.InsertRecordAt(pos, key, val);
      Note(idx, p, v.(recs := BTreeInsert.InsertRec(v.recs, key, val)));
    }

    method DropRecord(ghost idx: nat, p: Page, pos: nat)
      requires Valid() && Is(idx, p) && store[idx].LeafV? && pos < |store[idx].recs|
      modifies this`store, p`count, p.records
      ensures Valid()
      ensures store == old(store)[idx := old(store)[idx].(recs := BTreeErase.DropRec(old(store)[idx].recs, pos))]
    {
      ghost var v := store[idx];
      assert Owns(idx) && Shown(idx, store[idx]) && Others(idx, store);
      p.EraseRecordAt(pos);
      Note(idx, p, v.(recs := BTreeErase.DropRec(v.recs, pos)));
    }

    method PutValue(ghost idx: nat, p: Page, pos: nat, val: Value)
      requires Valid() && Is(idx, p) && store[idx].LeafV? && pos < |store[idx].recs|
      modifies this`store, p.records
      ensures Valid()
      ensures var recs := old(store)[idx].recs;
              store == old(store)[idx := old(store)[idx].(recs := recs[pos := Rec(recs[pos].key, val)])]
    {
      ghost var v := store[idx];
      assert Owns(idx) && Shown(idx, store[idx]) && Others(idx, store);
      p.PutValue(pos, val);
      Note(idx, p, v.(recs := v.recs[pos := Rec(v.recs[pos].key, val)]));
    }

    method PutChild(ghost idx: nat, p: Page, at: nat, sep: int, right: nat)
      requires Valid() && Is(idx, p) && store[idx].BranchV? && |store[idx].kids| == |store[idx].keys| + 1
      requires at <= |store[idx].keys| < order
      modifies this`store, p`count, p.keys, p.children
      ensures Valid()
      ensures var v := old(store)[idx];
              store == old(store)[idx := BranchV(BTreeInsert.InsertKey(v.keys, at, sep), v.kids[..at + 1] + [right] +
                                                 v.kids[at + 1..])]
    {
      ghost var v := store[idx];
      assert Owns(idx) && Shown(idx, store[idx]) && Others(idx, store);
      p.InsertChildAt(at, sep, right);
      Note(idx, p, BranchV(BTreeInsert.InsertKey(v.keys, at, sep), v.kids[..at + 1] + [right] + v.kids[at + 1..]));
    }

    method PutPair(ghost idx: nat, p: Page, sep: int, left: nat, right: nat)
      requires Valid() && Is(idx, p) && store[idx].BranchV?
      modifies this`store, p`count, p.keys, p.children
      ensures Valid() && store == old(store)[idx := BranchV([sep], [left, right])]
    {
      assert Owns(idx) && Shown(idx, store[idx]) && Others(idx, store);
      p.PutPair(sep, left, right);
      Note(idx, p, BranchV([sep], [left, right]));
    }

    method LoadBranch(ghost idx: nat, p: Page, tkeys: array<int>, tkids: array<nat>, from: nat, n: nat)
      requires Valid() && Is(idx, p) && store[idx].BranchV? && n <= order
      requires from + n <= tkeys.Length && from + n + 1 <= tkids.Length
      requires tkeys !in owner && tkids !in owner
      modifies this`store, p`count, p.keys, p.children
      ensures Valid()
      ensures store == old(store)[idx := BranchV(tkeys[from..from + n], tkids[from..from + n + 1])]
    {
      assert Owns(idx) && Shown(idx, store[idx]) && Others(idx, store);
      p.Load(tkeys, tkids, from, n);
      Note(idx, p, BranchV(tkeys[from..from + n], tkids[from..from + n + 1]));
    }

    method DropChild(ghost idx: nat, p: Page, ci: nat)
      requires Valid() && Is(idx, p) && store[idx].BranchV? && |store[idx].kids| == |store[idx].keys| + 1
      requires ci <= |store[idx].keys|
      modifies this`store, p`count, p.keys, p.children
      ensures Valid()
      ensures var v := old(store)[idx];
              store == old(store)[idx :=
                if v.keys == [] then v
                else BranchV(BTreeErase.DropKey(v.keys, BTreeErase.KeyOf(v.keys, ci)), v.kids[..ci] + v.kids[ci + 1..])]
    {
      ghost var v := store[idx];
      assert Owns(idx) && Shown(idx, store[idx]) && Others(idx, store);
      p.RemoveChildAt(ci);
      Note(idx, p, p.View());
    }

    method CopyUpperHalf(ghost ridx: nat, r: Page, ghost idx: nat, p: Page)
      requires Valid() && Is(idx, p) && Is(ridx, r) && idx != ridx
      requires store[idx].LeafV? && |store[idx].recs| == order && store[ridx].LeafV?
      modifies this`store, r`count, r.records
      ensures Valid()
      ensures store == old(store)[ridx := old(store)[ridx].(recs := old(store)[idx].recs[order / 2..])]
    {
      ghost var v, w := store[idx], store[ridx];
      assert Owns(ridx) && Shown(ridx, store[ridx]) && Others(ridx, store);
      assert Owns(idx) && Shown(idx, store[idx]);
      r.CopyUpperHalf(p);
      Note(ridx, r, w.(recs := v.recs[order / 2..]));
    }

    method Truncate(ghost idx: nat, p: Page, n: nat)
      requires Valid() && Is(idx, p) && store[idx].LeafV? && n <= |store[idx].recs|
      modifies this`store, p`count
      ensures Valid() && store == old(store)[idx := old(store)[idx].(recs := old(store)[idx].recs[..n])]
    {
      ghost var v := store[idx];
      assert Owns(idx) && Shown(idx, store[idx]) && Others(idx, store);
      p.Truncate(n);
      Note(idx, p, v.(recs := v.recs[..n]));
    }

    // ---- allocation -------------------------------------------------------------------------

    /** enters a new page in the file */
    method Adopt(idx: nat, p: Page)
      requires Valid() && idx !in pages && p.Shows(FreeV(0), order) && p.Parts() !! Repr
      modifies this`pages, this`store, this`owner, this`Repr
      ensures Valid() && Is(idx, p) && Repr == old(Repr) + p.Parts()
      ensures store == old(store)[idx := FreeV(0)]
      ensures pages == old(pages)[idx := p]
    {
      hide Page.Shows;
      pages := pages[idx := p];
      owner := owner[p := idx][p.records := idx][p.keys := idx][p.children := idx];
      store := store[idx := FreeV(0)];
      Repr := Repr + p.Parts();
      forall i | i in pages ensures Owns(i) && Shown(i, store[i]) {
        if i != idx {
          assert old(Owns(i)) && old(Shown(i, store[i]));
        }
      }
    }

    /** Adds a zeroed page at an index not used before. Which index that is, the file decides. */
    method Append() returns (idx: nat, p: Page)
      requires Valid()
      modifies this`pages, this`store, this`owner, this`Repr, cache
      ensures Valid() && fresh(Repr - old(Repr)) && Is(idx, p) && p.Parts() <= Repr
      ensures idx != 0 && idx !in old(store) && store == old(store)[idx := FreeV(0)]
      ensures forall i :: i in old(pages) ==> i in pages && pages[i] == old(pages)[i]
    {
      hide Owned, Owns, Shown;
      ghost var unused := UnusedIndex(pages.Keys);
      assert unused != 0 && unused !in pages;
      idx :| idx != 0 && idx !in pages;
      p := new Page(order);
      Adopt(idx, p);
      p := cache.Append(idx, p);
    }

    ghost method SetFree(f: seq<nat>)
      requires Valid()
      modifies this`free
      ensures Valid() && free == f
    {
      free := f;
    }

    /** takes the head off the free list */
    method PopFree(header: Page, idx: nat)
      requires Ready() && Is(0, header) && header in Repr && header.kind == HeaderPage
               && header.Shows(store[0], order) && free != [] && idx == free[0]
      modifies Repr
      ensures Valid() && Repr == old(Repr) && pages == old(pages) && free == old(free)[1..]
      ensures var s := old(store);
              store == s[0 := HeaderV(s[0].hdr.(freeHead := At(old(free), 1), freeCount := |old(free)| - 1))]
    {
      hide FreeList, Others, Owned, Cached, Shown;
      ghost var s0, f0 := store, free;
      FreeHead(s0, f0);
      var h := header.hdr;
      assert HeaderV(h) == s0[0];
      var p := Fetch(idx);
      assert FreeV(p.nextFree) == s0[idx];
      PutHeader(header, h.(freeHead := p.nextFree, freeCount := h.freeCount - 1));
      SetFree(free[1..]);
    }

    /** A page for a new node: the head of the free list, or else a fresh one. */
    method Allocate() returns (idx: nat, p: Page)
      requires Ready()
      modifies Repr
      ensures Ready() && fresh(Repr - old(Repr)) && Is(idx, p) && p.Parts() <= Repr
      ensures Took(old(store), old(free), store, free, [idx])
      ensures idx in store && store[idx].FreeV? && idx !in free && SameTreeFields(old(store), store)
      ensures forall q :: q in old(store) && q != 0 ==> q in store && store[q] == old(store)[q]
      ensures forall i :: i in old(pages) ==> i in pages && pages[i] == old(pages)[i]
    {
      hide Took, FreeList, SameTreeFields, Others, Owned, Cached, Shown;
      ghost var s0, f0 := store, free;
      var header := Fetch(0);
      var h := header.hdr;
      assert HeaderV(h) == s0[0];
      FreeHead(s0, f0);
      if h.freeHead != 0 {
        idx := h.freeHead;
        PopFree(header, idx);
        PopKeeps(s0, f0, store);
        p := Fetch(idx);
      } else {
        idx, p := Append();
        ExtendKeeps(s0, store, idx);
      }
    }

    /** Threads a page that is no longer in use onto the head of the free list. */
    method Free(idx: nat)
      requires Ready() && idx in store && idx != 0 && idx !in free
      modifies Repr
      ensures Ready() && Repr == old(Repr) && pages == old(pages) && free == [idx] + old(free)
      ensures store.Keys == old(store.Keys) && SameTreeFields(old(store), store)
      ensures forall q :: q in old(store) && q != 0 && q != idx ==> store[q] == old(store)[q]
    {
      ghost var s0, f0 := store, free;
      var header := Fetch(0);
      var h := header.hdr;
      assert HeaderV(h) == s0[0];
      var p := Fetch(idx);
      FormatFree(idx, p, h.freeHead);
      PutHeader(header, h.(freeHead := idx, freeCount := h.freeCount + 1));
      SetFree([idx] + free);
      PushKeeps(s0, f0, store, idx);
    }
  }

  /** No finite file uses every index. */
  lemma UnusedIndex(used: set<nat>) returns (i: nat)
    ensures i != 0 && i !in used
  {
    if used == {} {
      i := 1;
    } else {
      i := Largest(used);
      i := i + 1;
    }
  }

  lemma {:induction false} Largest(used: set<nat>) returns (m: nat)
    requires used != {}
    ensures m in used && forall j :: j in used ==> j <= m
    decreases |used|
  {
    var x :| x in used;
    if used == {x} {
      m := x;
    } else {
      var rest := used - {x};
      assert rest != {};
      var r := Largest(rest);
      m := if x < r then r else x;
      assert forall j :: j in used ==> j == x || j in rest;
    }
  }
}
