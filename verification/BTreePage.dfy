/** One page of the file: a fixed block of memory read as a header, a leaf, a branch or a free
  page, and the in-place loops that shift its records, keys and children. */
module BTreePage {
  import opened BTreeModel

  /** value 0 of the source's page types is the free, or never written, page */
  datatype Kind = FreePage | HeaderPage | LeafPage | BranchPage

  datatype Header = Header(root: nat, firstLeaf: nat, count: nat, height: nat, freeHead: nat, freeCount: nat)

  /** what a page says, by kind */
  datatype PageView =
    | FreeV(link: nat)
    | HeaderV(hdr: Header)
    | LeafV(recs: seq<Rec>, next: nat, prev: nat)
    | BranchV(keys: seq<int>, kids: seq<nat>)

  /** s is r with x inserted */
  lemma Opened<T>(r: seq<T>, at: nat, x: T, s: seq<T>)
    requires at <= |r| && |s| == |r| + 1 && s[at] == x
    requires forall j :: 0 <= j < at ==> s[j] == r[j]
    requires forall j :: at < j < |s| ==> s[j] == r[j - 1]
    ensures s == r[..at] + [x] + r[at..]
  {
  }

  /** s is r with one element left out */
  lemma Closed<T>(r: seq<T>, at: nat, s: seq<T>)
    requires at < |r| && |s| == |r| - 1
    requires forall j :: 0 <= j < at ==> s[j] == r[j]
    requires forall j :: at <= j < |s| ==> s[j] == r[j + 1]
    ensures s == r[..at] + r[at + 1..]
  {
  }

  lemma Copied<T>(s: seq<T>, r: seq<T>)
    requires |s| == |r| && forall j :: 0 <= j < |s| ==> s[j] == r[j]
    ensures s == r
  {
  }

  class Page {
    const order: nat
    var kind: Kind
    var hdr: Header
    var count: nat
    var nextPage: nat
    var prevPage: nat
    var nextFree: nat
    const records: array<Rec>
    const keys: array<int>
    const children: array<nat>

    ghost function Parts(): set<object> {
      {this, records, keys, children}
    }

    ghost predicate Ok()
      reads this
    {
      && records.Length == order && keys.Length == order && children.Length == order + 1
      && (keys as object) != (children as object)
      && (kind == LeafPage || kind == BranchPage ==> count <= order)
    }

    ghost function View(): PageView
      requires Ok()
      reads this, records, keys, children
    {
      match kind
      case FreePage => FreeV(nextFree)
      case HeaderPage => HeaderV(hdr)
      case LeafPage => LeafV(records[..count], nextPage, prevPage)
      case BranchPage => BranchV(keys[..count], children[..count + 1])
    }

    ghost predicate Shows(v: PageView, ord: nat)
      reads this, records, keys, children
    {
      Ok() && View() == v && order == ord
    }

    /** a zeroed page, as the file hands it out */
    constructor (order: nat)
      ensures Ok() && this.order == order && kind == FreePage && View() == FreeV(0)
      ensures fresh(Parts())
    {
      this.order := order;
      kind := FreePage;
      hdr := Header(0, 0, 0, 0, 0, 0);
      count, nextPage, prevPage, nextFree := 0, 0, 0, 0;
      records := new Rec[order];
      keys := new int[order];
      children := new nat[order + 1];
    }

    // ---- writing single fields --------------------------------------------------------------

    method FormatHeader()
      requires Ok()
      modifies this`kind, this`hdr
      ensures Ok() && kind == HeaderPage && View() == HeaderV(Header(0, 0, 0, 0, 0, 0))
    {
      kind, hdr := HeaderPage, Header(0, 0, 0, 0, 0, 0);
    }

    method PutHeader(h: Header)
      requires Ok() && kind == HeaderPage
      modifies this`hdr
      ensures Ok() && View() == HeaderV(h)
    {
      hdr := h;
    }

    method FormatLeaf()
      requires Ok()
      modifies this`kind, this`count, this`nextPage, this`prevPage
      ensures Ok() && kind == LeafPage && View() == LeafV([], 0, 0)
    {
      kind, count, nextPage, prevPage := LeafPage, 0, 0, 0;
    }

    method FormatBranch()
      requires Ok()
      modifies this`kind, this`count
      ensures Ok() && kind == BranchPage && count == 0
    {
      kind, count := BranchPage, 0;
    }

    method FormatFree(link: nat)
      requires Ok()
      modifies this`kind, this`nextFree
      ensures Ok() && View() == FreeV(link)
    {
      kind, nextFree := FreePage, link;
    }

    method PutLinks(next: nat, prev: nat)
      requires Ok() && kind == LeafPage
      modifies this`nextPage, this`prevPage
      ensures Ok() && View() == LeafV(old(records[..count]), next, prev)
    {
      nextPage, prevPage := next, prev;
    }

    method PutValue(pos: nat, val: Value)
      requires Ok() && kind == LeafPage && pos < count
      modifies records
      ensures Ok() && records[..count] == old(records[..count])[pos := Rec(old(records[pos].key), val)]
    {
      records[pos] := Rec(records[pos].key, val);
    }

    // ---- searching ------------------------------------------------------------------------

    method LowerBound(key: int) returns (lo: nat)
      requires Ok() && kind == LeafPage && Sorted(records[..count])
      ensures lo == Lower(records[..count], key)
    {
      lo := 0;
      var hi := count;
      while lo < hi
        invariant 0 <= lo <= hi <= count
        invariant forall j :: 0 <= j < lo ==> records[j].key < key
        invariant forall j :: hi <= j < count ==> key <= records[j].key
      {
        var mid := lo + (hi - lo) / 2;
        ghost var recs := records[..count];
        assert forall j :: 0 <= j < mid ==> recs[j].key < recs[mid].key;
        assert forall j :: mid < j < count ==> recs[mid].key < recs[j].key;
        if records[mid].key < key {
          lo := mid + 1;
        } else {
          hi := mid;
        }
      }
      LowerUnique(records[..count], key, lo);
    }

    method ChildIndex(key: int) returns (lo: nat)
      requires Ok() && kind == BranchPage && Ascending(keys[..count])
      ensures lo == Slot(keys[..count], key)
    {
      lo := 0;
      var hi := count;
      while lo < hi
        invariant 0 <= lo <= hi <= count
        invariant forall j :: 0 <= j < lo ==> keys[j] <= key
        invariant forall j :: hi <= j < count ==> key < keys[j]
      {
        var mid := lo + (hi - lo) / 2;
        ghost var ks := keys[..count];
        assert forall j :: 0 <= j < mid ==> ks[j] < ks[mid];
        assert forall j :: mid < j < count ==> ks[mid] < ks[j];
        if key < keys[mid] {
          hi := mid;
        } else {
          lo := mid + 1;
        }
      }
      SlotUnique(keys[..count], key, lo);
    }

    // ---- leaves ---------------------------------------------------------------------------

    method InsertRecordAt(pos: nat, key: int, val: Value)
      requires Ok() && kind == LeafPage && pos <= count < order
      modifies this`count, records
      ensures Ok() && count == old(count) + 1
      ensures var r := old(records[..count]);
              records[..count] == r[..pos] + [Rec(key, val)] + r[pos..]
    {
      ghost var r := records[..count];
      var i := count;
      while i > pos
        modifies records
        invariant pos <= i <= count
        invariant forall j :: 0 <= j < i ==> records[j] == r[j]
        invariant forall j :: i < j <= count ==> records[j] == r[j - 1]
      {
        records[i] := records[i - 1];
        i := i - 1;
      }
      records[pos] := Rec(key, val);
      count := count + 1;
      Opened(r, pos, Rec(key, val), records[..count]);
    }

    method EraseRecordAt(pos: nat)
      requires Ok() && kind == LeafPage && pos < count
      modifies this`count, records
      ensures Ok() && count == old(count) - 1
      ensures var r := old(records[..count]);
              records[..count] == r[..pos] + r[pos + 1..]
    {
      ghost var rs := records[..count];
      var i := pos;
      while i + 1 < count
        modifies records
        invariant pos <= i < count
        invariant forall j :: 0 <= j < pos ==> records[j] == rs[j]
        invariant forall j :: pos <= j < i ==> records[j] == rs[j + 1]
        invariant forall j :: i <= j < count ==> records[j] == rs[j]
      {
        records[i] := records[i + 1];
        i := i + 1;
      }
      count := count - 1;
      Closed(rs, pos, records[..count]);
    }

    /** copies the upper half of a full leaf into this empty one */
    method CopyUpperHalf(left: Page)
      requires Ok() && kind == LeafPage
      requires left.Ok() && left.kind == LeafPage && left.count == left.order == order && Parts() !! left.Parts()
      modifies this`count, records
      ensures Ok() && records[..count] == left.records[..left.count][order / 2..]
    {
      var mid := order / 2;
      count := order - mid;
      var i := 0;
      while i < count
        modifies records
        invariant 0 <= i <= count
        invariant forall j :: 0 <= j < i ==> records[j] == left.records[mid + j]
      {
        records[i] := left.records[mid + i];
        i := i + 1;
      }
    }

    method Truncate(n: nat)
      requires Ok() && kind == LeafPage && n <= count
      modifies this`count
      ensures Ok() && records[..count] == old(records[..count])[..n]
    {
      count := n;
    }

    // ---- branches -------------------------------------------------------------------------

    method InsertKeyAt(at: nat, sep: int)
      requires Ok() && kind == BranchPage && at <= count < order
      modifies keys
      ensures var ks := old(keys[..count]);
              keys[..count + 1] == ks[..at] + [sep] + ks[at..]
    {
      ghost var ks := keys[..count];
      var i := count;
      while i > at
        modifies keys
        invariant at <= i <= count
        invariant forall j :: 0 <= j < i ==> keys[j] == ks[j]
        invariant forall j :: i < j <= count ==> keys[j] == ks[j - 1]
      {
        keys[i] := keys[i - 1];
        i := i - 1;
      }
      keys[at] := sep;
      Opened(ks, at, sep, keys[..count + 1]);
    }

    method InsertKidAt(at: nat, right: nat)
      requires Ok() && kind == BranchPage && 1 <= at <= count + 1 <= order
      modifies children
      ensures var cs := old(children[..count + 1]);
              children[..count + 2] == cs[..at] + [right] + cs[at..]
    {
      ghost var cs := children[..count + 1];
      var i := count + 1;
      while i > at
        modifies children
        invariant at <= i <= count + 1
        invariant forall j :: 0 <= j < i && j <= count ==> children[j] == cs[j]
        invariant forall j :: i < j <= count + 1 ==> children[j] == cs[j - 1]
      {
        children[i] := children[i - 1];
        i := i - 1;
      }
      children[at] := right;
      Opened(cs, at, right, children[..count + 2]);
    }

    method InsertChildAt(at: nat, sep: int, right: nat)
      requires Ok() && kind == BranchPage && at <= count < order
      modifies this`count, keys, children
      ensures Ok() && count == old(count) + 1
      ensures var ks, cs := old(keys[..count]), old(children[..count + 1]);
              && keys[..count] == ks[..at] + [sep] + ks[at..]
              && children[..count + 1] == cs[..at + 1] + [right] + cs[at + 1..]
    {
      InsertKeyAt(at, sep);
      InsertKidAt(at + 1, right);
      count := count + 1;
    }

    /** a new root over two children */
    method PutPair(sep: int, left: nat, right: nat)
      requires Ok() && kind == BranchPage && order >= 1
      modifies this`count, keys, children
      ensures Ok() && kind == BranchPage && View() == BranchV([sep], [left, right])
    {
      count := 1;
      keys[0] := sep;
      children[0] := left;
      children[1] := right;
    }

    /** the keys with the new one added, one more than a page can hold */
    method OverfullKeys(at: nat, sep: int) returns (tkeys: array<int>)
      requires Ok() && kind == BranchPage && at <= count == order
      ensures fresh(tkeys) && tkeys.Length == order + 1
      ensures var ks := keys[..count];
              tkeys[..] == ks[..at] + [sep] + ks[at..]
    {
      ghost var ks := keys[..count];
      tkeys := new int[order + 1];
      var i := 0;
      while i < count
        modifies tkeys
        invariant 0 <= i <= count
        invariant forall j :: 0 <= j < i ==> tkeys[j] == ks[j]
      {
        tkeys[i] := keys[i];
        i := i + 1;
      }
      i := count;
      while i > at
        modifies tkeys
        invariant at <= i <= count
        invariant forall j :: 0 <= j < i ==> tkeys[j] == ks[j]
        invariant forall j :: i < j <= count ==> tkeys[j] == ks[j - 1]
      {
        tkeys[i] := tkeys[i - 1];
        i := i - 1;
      }
      tkeys[at] := sep;
      Opened(ks, at, sep, tkeys[..]);
    }

    /** a copy of a full branch's children, with room for one more */
    method CopyKids() returns (tkids: array<nat>)
      requires Ok() && kind == BranchPage && count == order
      ensures fresh(tkids) && tkids.Length == order + 2 && tkids[..count + 1] == children[..count + 1]
    {
      tkids := new nat[order + 2];
      var i := 0;
      while i < count + 1
        modifies tkids
        invariant 0 <= i <= count + 1
        invariant forall j :: 0 <= j < i ==> tkids[j] == children[j]
      {
        tkids[i] := children[i];
        i := i + 1;
      }
    }

    /** the children likewise */
    method OverfullKids(at: nat, right: nat) returns (tkids: array<nat>)
      requires Ok() && kind == BranchPage && 1 <= at <= count + 1 && count == order
      ensures fresh(tkids) && tkids.Length == order + 2
      ensures var cs := children[..count + 1];
              tkids[..] == cs[..at] + [right] + cs[at..]
    {
      ghost var cs := children[..count + 1];
      tkids := CopyKids();
      assert forall j :: 0 <= j < |cs| ==> tkids[j] == tkids[..count + 1][j];
      var i := count + 1;
      while i > at
        modifies tkids
        invariant at <= i <= count + 1
        invariant forall j :: 0 <= j < i && j < |cs| ==> tkids[j] == cs[j]
        invariant forall j :: i < j <= count + 1 ==> tkids[j] == cs[j - 1]
      {
        tkids[i] := tkids[i - 1];
        i := i - 1;
      }
      tkids[at] := right;
      Opened(cs, at, right, tkids[..]);
    }

    /** fills a branch from a stretch of n keys and n + 1 children */
    method Load(tkeys: array<int>, tkids: array<nat>, from: nat, n: nat)
      requires Ok() && kind == BranchPage && n <= order
      requires from + n <= tkeys.Length && from + n + 1 <= tkids.Length
      requires {tkeys as object, tkids} !! Parts()
      modifies this`count, keys, children
      ensures Ok() && count == n
      ensures keys[..count] == tkeys[from..from + n]
      ensures children[..count + 1] == tkids[from..from + n + 1]
    {
      count := n;
      var i := 0;
      while i < n
        modifies keys
        invariant 0 <= i <= n
        invariant forall j :: 0 <= j < i ==> keys[j] == tkeys[from + j]
      {
        keys[i] := tkeys[from + i];
        i := i + 1;
      }
      Copied(keys[..n], tkeys[from..from + n]);
      i := 0;
      while i < n + 1
        modifies children
        invariant 0 <= i <= n + 1
        invariant forall j :: 0 <= j < i ==> children[j] == tkids[from + j]
      {
        children[i] := tkids[from + i];
        i := i + 1;
      }
      Copied(children[..n + 1], tkids[from..from + n + 1]);
    }

    /** closes the gap that child ci leaves */
    method CloseChildren(ci: nat)
      requires Ok() && kind == BranchPage && ci < count
      modifies children
      ensures var cs := old(children[..count + 1]); Ok() && children[..count] == cs[..ci] + cs[ci + 1..]
    {
      ghost var cs := children[..count + 1];
      var i := ci;
      while i < count
        modifies children
        invariant ci <= i <= count
        invariant forall j :: 0 <= j < ci ==> children[j] == cs[j]
        invariant forall j :: ci <= j < i ==> children[j] == cs[j + 1]
        invariant forall j :: i <= j <= count ==> children[j] == cs[j]
      {
        children[i] := children[i + 1];
        i := i + 1;
      }
      Closed(cs, ci, children[..count]);
    }

    /** closes the gap that key ci leaves */
    method CloseKeys(ci: nat)
      requires Ok() && kind == BranchPage && ci < count
      modifies keys
      ensures var ks := old(keys[..count]); Ok() && keys[..count - 1] == ks[..ci] + ks[ci + 1..]
    {
      ghost var ks := keys[..count];
      var i := ci;
      while i + 1 < count
        modifies keys
        invariant ci <= i < count
        invariant forall j :: 0 <= j < ci ==> keys[j] == ks[j]
        invariant forall j :: ci <= j < i ==> keys[j] == ks[j + 1]
        invariant forall j :: i <= j < count ==> keys[j] == ks[j]
      {
        keys[i] := keys[i + 1];
        i := i + 1;
      }
      Closed(ks, ci, keys[..count - 1]);
    }

    /** drops child ci and the separator that goes with it; the only child of a branch stays behind */
    method RemoveChildAt(ci: nat)
      requires Ok() && kind == BranchPage && ci <= count
      modifies this`count, keys, children
      ensures Ok() && count == if old(count) == 0 then 0 else old(count) - 1
      ensures var ks, cs := old(keys[..count]), old(children[..count + 1]);
              if ks == [] then children[..count + 1] == cs
              else
                var p := if ci == |ks| then ci - 1 else ci;
                keys[..count] == ks[..p] + ks[p + 1..] && children[..count + 1] == cs[..ci] + cs[ci + 1..]
    {
      ghost var ks, cs := keys[..count], children[..count + 1];
      var cnt := count;
      if ci == cnt {
        if cnt > 0 {
          count := count - 1;
          Closed(ks, ci - 1, keys[..count]);
          Closed(cs, ci, children[..count + 1]);
        }
      } else {
        CloseChildren(ci);
        CloseKeys(ci);
        count := count - 1;
      }
    }
  }
}
