/**
 The physical page allocator: bitmaps, reference counts and buddy lists updated in place.
 `FreeSet` is what the allocator means: the managed pages whose used bit is clear.
 */
module PhysicalMemory {
  import opened Basics
  import opened Buddy
  import opened FreeLists
  import opened Bitmap

  /** The bit of page p in a bitmap whose first bit stands for page lo. */
  predicate Marked(bm: seq<bv8>, lo: int, p: int) {
    lo <= p && p - lo < 8 * |bm| && Bit(bm, p - lo)
  }

  /** Pages in [lo, hi) with the managed bit set and the used bit clear. */
  ghost function FreePages(lo: int, hi: int, managed: seq<bv8>, used: seq<bv8>): iset<int> {
    iset p | lo <= p < hi && Marked(managed, lo, p) && !Marked(used, lo, p)
  }

  ghost predicate Within(b: Block, lo: int, hi: int)
    requires b.order >= 0
  {
    lo <= Head(b) && Head(b) + Pow2(b.order) <= hi
  }

  lemma FilledMarks(bm: seq<bv8>, bm': seq<bv8>, lo: int, b: Block, v: bool, p: int)
    requires b.order >= 0 && lo <= Head(b) && Filled(bm, bm', Head(b) - lo, Head(b) - lo + Pow2(b.order), v)
    requires Head(b) + Pow2(b.order) - lo <= 8 * |bm|
    ensures Marked(bm', lo, p) == if Covers(b, p) then v else Marked(bm, lo, p)
  {
    hide Bit, Head, Pow2, Covers;
    CoversInterval(b, p);
    if lo <= p && p - lo < 8 * |bm| {
      assert Bit(bm', p - lo) == (if Head(b) - lo <= p - lo < Head(b) - lo + Pow2(b.order) then v else Bit(bm, p - lo));
    }
  }

  /** Clearing the used bits of a managed block frees exactly its pages; setting them takes exactly those. */
  lemma MarkingMoves(lo: int, hi: int, managed: seq<bv8>, used: seq<bv8>, used': seq<bv8>, b: Block, v: bool)
    requires b.order >= 0 && Within(b, lo, hi) && hi - lo <= 8 * |used|
    requires Filled(used, used', Head(b) - lo, Head(b) - lo + Pow2(b.order), v)
    requires forall p :: Covers(b, p) ==> Marked(managed, lo, p)
    ensures FreePages(lo, hi, managed, used')
         == if v then FreePages(lo, hi, managed, used) - Pages(b) else FreePages(lo, hi, managed, used) + Pages(b)
  {
    hide Bit, Marked, Head, Pow2, Covers;
    forall p ensures Marked(used', lo, p) == (if Covers(b, p) then v else Marked(used, lo, p))
      ensures Covers(b, p) ==> lo <= p < hi
    {
      FilledMarks(used, used', lo, b, v, p);
      CoversInterval(b, p);
    }
  }

  class PageAllocator {
    const lo: int
    const hi: int
    const used: array<bv8>
    const managed: array<bv8>
    const refs: array<int>
    var lists: Lists
    var nodes: map<int, Node>

    ghost predicate Shape() {
      && 0 <= lo <= hi && hi - lo <= 8 * used.Length && used.Length == managed.Length && used != managed
      && refs.Length == hi - lo && refs as object != used && refs as object != managed
    }

    ghost function FreeSet(): iset<int>
      reads used, managed
    {
      FreePages(lo, hi, managed[..], used[..])
    }

    /** The lists partition the pages P into aligned blocks. */
    ghost predicate Listed(P: iset<int>)
      reads this
    {
      ListsOk(lists) && NodesOk(lists, nodes) && Partition(Blocks(lists), P)
    }

    /** No two free siblings are left unmerged. Boot need not establish this; every operation keeps it. */
    ghost predicate Merged()
      reads `lists
    {
      NoSiblings(Blocks(lists))
    }

    /** Counts are sixteen bits wide, and a page with references is not free. */
    ghost predicate Counted()
      requires Shape()
      reads used, managed, refs
    {
      forall i :: 0 <= i < refs.Length ==> 0 <= refs[i] < 0x1_0000 && (refs[i] > 0 ==> lo + i !in FreeSet())
    }

    ghost predicate Valid()
      reads this, used, managed, refs
    {
      Shape() && Listed(FreeSet()) && Counted()
    }

    /** Removes the head q from list k and clears its links. */
    method ListDel(k: int, q: int)
      requires ListsOk(lists) && NodesOk(lists, nodes) && 0 <= k < MAX_ORDER && q in lists[k]
      modifies `lists, `nodes
      ensures ListsOk(lists) && NodesOk(lists, nodes)
      ensures Blocks(lists) == old(Blocks(lists)) - {BlockAt(q, k)}
    {
      Unlink(lists, k, q);
      WithoutDistinct(lists[k], q);
      ghost var before := lists;
      lists := lists[k := Without(lists[k], q)];
      nodes := nodes[q := nodes[q].(linked := false)];
      forall j, p | 0 <= j < |lists| && p in lists[j] ensures p in nodes && nodes[p] == Node(j, true) {
        assert p in before[j];
      }
    }

    /** Appends the head of b to its list and records its order there. */
    method ListAddTail(ghost b: Block, p: int, k: int)
      requires ListsOk(lists) && NodesOk(lists, nodes) && 0 <= k < MAX_ORDER && k == b.order && p == Head(b) && p >= 0
      requires forall c :: c in Blocks(lists) ==> c.order >= 0 && !Covers(c, p)
      modifies `lists, `nodes
      ensures ListsOk(lists) && NodesOk(lists, nodes)
      ensures Blocks(lists) == old(Blocks(lists)) + {b}
    {
      HeadCovered(b);
      Link(lists, b);
      ghost var before := lists;
      lists := lists[k := lists[k] + [p]];
      nodes := nodes[p := Node(k, true)];
      forall j, q | 0 <= j < |lists| && q in lists[j] ensures q in nodes && nodes[q] == Node(j, true) {
        if q in before[j] {
          ListedBlock(before, BlockAt(q, j));
          HeadCovered(BlockAt(q, j));
        }
      }
    }

    /** One look at the sibling of the block at `cur`; true when it was unlinked to be merged. */
    method TakeSibling(cur: int, k: int, ghost P: iset<int>) returns (merged: bool, q: int)
      requires Shape() && Listed(P) && 0 <= k < MAX_ORDER - 1 && cur >= 0
      requires Head(BlockAt(cur, k)) == cur && BlockAt(cur, k).idx >= 0
      requires Apart(BlockAt(cur, k), P) && FreeSet() == P + Pages(BlockAt(cur, k))
      modifies `lists, `nodes
      ensures q == Head(Sibling(BlockAt(cur, k)))
      ensures merged == (Sibling(BlockAt(cur, k)) in old(Blocks(lists)))
      ensures Listed(if merged then P - Pages(Sibling(BlockAt(cur, k))) else P)
      ensures Blocks(lists) == if merged then old(Blocks(lists)) - {Sibling(BlockAt(cur, k))} else old(Blocks(lists))
    {
      hide Bit, Xor, Pow2, Head, Covers, Partition;
      ghost var b := BlockAt(cur, k);
      XorSibling(b);
      q := Xor(cur, Pow2(k));
      SiblingTest(lists, nodes, P, b);
      HeadCovered(Sibling(b));
      Siblings(b, q);
      if q < lo || q >= hi || !Bit(managed[..], q - lo) || Bit(used[..], q - lo) {
        return false, q;
      }
      if !(q in nodes && nodes[q].order == k && nodes[q].linked) {
        return false, q;
      }
      ListedBlock(lists, Sibling(b));
      BlockAtHead(Sibling(b));
      RemoveBlock(Blocks(lists), P, Sibling(b));
      ListDel(k, q);
      merged := true;
    }

    /** The merge loop: climbs while the sibling is free, then lists the block it ends with. */
    method CoalesceUp(pfn: int, order: int, ghost P: iset<int>)
      requires Shape() && Listed(P) && 0 <= order < MAX_ORDER && pfn >= 0
      requires Head(BlockAt(pfn, order)) == pfn && BlockAt(pfn, order).idx >= 0
      requires Apart(BlockAt(pfn, order), P) && FreeSet() == P + Pages(BlockAt(pfn, order))
      modifies `lists, `nodes
      ensures Listed(P + Pages(BlockAt(pfn, order))) && (old(Merged()) ==> Merged())
      ensures Blocks(lists) == Coalesce(old(Blocks(lists)), BlockAt(pfn, order))
    {
      hide Bit, Pow2, Head, Covers, NoSiblings;
      ghost var goal := Coalesce(Blocks(lists), BlockAt(pfn, order));
      CoalesceCorrect(Blocks(lists), P, BlockAt(pfn, order));
      var cur, k := pfn, order;
      ghost var Q := P;
      while k < MAX_ORDER - 1
        invariant 0 <= k < MAX_ORDER && cur >= 0 && Head(BlockAt(cur, k)) == cur && BlockAt(cur, k).idx >= 0
        invariant Listed(Q) && Apart(BlockAt(cur, k), Q) && FreeSet() == Q + Pages(BlockAt(cur, k))
        invariant Coalesce(Blocks(lists), BlockAt(cur, k)) == goal
        decreases MAX_ORDER - k
      {
        ghost var b := BlockAt(cur, k);
        var merged, q := TakeSibling(cur, k, Q);
        if !merged { break; }
        MergedPages(b, Q);
        ParentHead(b);
        BlockAtHead(Parent(b));
        cur, k, Q := if cur < q then cur else q, k + 1, Q - Pages(Sibling(b));
      }
      HeadCovered(BlockAt(cur, k));
      ListAddTail(BlockAt(cur, k), cur, k);
    }

    /** The order-k block at page p is aligned, managed and wholly in use. */
    ghost predicate Returnable(p: int, k: int)
      requires k >= 0
      reads used, managed
    {
      && Head(BlockAt(p, k)) == p && Within(BlockAt(p, k), lo, hi) && Apart(BlockAt(p, k), FreeSet())
      && forall q :: Covers(BlockAt(p, k), q) ==> Marked(managed[..], lo, q)
    }

    /** Returns a block to the lists, merging it with free siblings on the way up. */
    method FreeInternal(pfn: int, order: int)
      requires Shape() && Listed(FreeSet()) && 0 <= order < MAX_ORDER && Returnable(pfn, order)
      modifies this, used
      ensures Listed(FreeSet()) && (old(Merged()) ==> Merged())
      ensures FreeSet() == old(FreeSet()) + Pages(BlockAt(pfn, order))
      ensures Blocks(lists) == Coalesce(old(Blocks(lists)), BlockAt(pfn, order))
    {
      hide Bit, Marked, Pow2, Head, Covers;
      ghost var b := BlockAt(pfn, order);
      ghost var P, before := FreeSet(), used[..];
      FillRange(used, lo, hi, pfn, Pow2(order), false);
      MarkingMoves(lo, hi, managed[..], before, used[..], b, false);
      HeadSign(b);
      CoalesceUp(pfn, order, P);
    }

    /** Splits the unlisted block at p from order j down to k; right halves are listed. */
    method SplitDown(p: int, j: int, k: int, ghost P: iset<int>)
      requires Listed(P) && 0 <= k <= j < MAX_ORDER && p >= 0 && Head(BlockAt(p, j)) == p && Apart(BlockAt(p, j), P)
      modifies `lists, `nodes
      ensures Head(BlockAt(p, k)) == p && Pages(BlockAt(p, k)) <= Pages(BlockAt(p, j))
      ensures (Blocks(lists), BlockAt(p, k)) == Split(old(Blocks(lists)), BlockAt(p, j), k)
      ensures Listed(P + (Pages(BlockAt(p, j)) - Pages(BlockAt(p, k)))) && (old(Merged()) ==> Merged())
    {
      hide Pow2, Head, Covers, NoSiblings;
      ghost var goal := Split(Blocks(lists), BlockAt(p, j), k);
      SplitCorrect(Blocks(lists), P, BlockAt(p, j), k);
      var cur := j;
      ghost var Q := P;
      while cur > k
        invariant k <= cur <= j && Head(BlockAt(p, cur)) == p
        invariant Partition(Blocks(lists), Q) && Apart(BlockAt(p, cur), Q) && ListsOk(lists) && NodesOk(lists, nodes)
        invariant Split(Blocks(lists), BlockAt(p, cur), k) == goal
      {
        ghost var b := BlockAt(p, cur);
        HalfHeads(b);
        HalfPages(b, Q);
        cur := cur - 1;
        HeadCovered(Right(b));
        BlockAtHead(Left(b));
        BlockAtHead(Right(b));
        ListAddTail(Right(b), p + Pow2(cur), cur);
        AddBlock(Blocks(lists) - {Right(b)}, Q, Right(b));
        assert Blocks(lists) - {Right(b)} + {Right(b)} == Blocks(lists);
        Q := Q + Pages(Right(b));
      }
    }

    /**
     Boot over the usable regions of the memory map. Every usable page becomes free, none else does, and
     the lists come out fully coalesced exactly when no aligned free run straddles two regions.
     */
    constructor (lo: int, hi: int, regions: seq<Region>, m0: int, m1: int, stale: seq<int>)
      requires 0 <= lo <= hi && m0 < m1 && |stale| == hi - lo
      requires forall i :: 0 <= i < |stale| ==> 0 <= stale[i] < 0x1_0000
      requires forall i :: 0 <= i < |regions| ==> lo <= regions[i].base <= regions[i].end <= hi
      requires forall i, j :: 0 <= i < j < |regions| ==> regions[i].end <= regions[j].base || regions[j].end <= regions[i].base
      ensures fresh(used) && fresh(managed) && fresh(refs) && this.lo == lo && this.hi == hi
      ensures Valid() && FreeSet() == AllPages(UsablePages(regions, m0, m1))
      ensures Merged() <==> NoneStraddles(UsablePages(regions, m0, m1))
    {
      this.lo, this.hi := lo, hi;
      used := new bv8[(hi - lo + 7) / 8](_ => 0xFF);
      managed := new bv8[(hi - lo + 7) / 8](_ => 0);
      refs := new int[hi - lo](i requires 0 <= i < |stale| => stale[i]);
      lists, nodes := seq(MAX_ORDER, _ => []), map[];
      new;
      NoneManaged(managed[..], lo);
      NothingCarved(iset{});
      assert Blocks(lists) == {};
      assert FreeSet() == iset{};
      ghost var F := CarveAll(regions, m0, m1);
      CoalescedIff(F, UsablePages(regions, m0, m1));
    }

    /** Boot: one region after the other; F lists what each was cut into. */
    method CarveAll(regions: seq<Region>, m0: int, m1: int) returns (ghost F: seq<set<Block>>)
      requires Valid() && Blocks(lists) == {} && FreeSet() == iset{} && m0 < m1 && forall q :: !Marked(managed[..], lo, q)
      requires forall i :: 0 <= i < |regions| ==> lo <= regions[i].base <= regions[i].end <= hi
      requires forall i, j :: 0 <= i < j < |regions| ==> regions[i].end <= regions[j].base || regions[j].end <= regions[i].base
      modifies this, used, managed, refs
      ensures Valid() && Pieces(F, UsablePages(regions, m0, m1))
      ensures Blocks(lists) == Union(F) && FreeSet() == AllPages(UsablePages(regions, m0, m1))
    {
      hide Marked, Pow2, Head, Covers, NoSiblings, Partition, GreedyMaximal, Valid, FreePages, Blocks;
      F := [];
      ghost var U := UsablePages(regions, m0, m1);
      for i := 0 to |regions|
        invariant Valid() && |F| == i && Pieces(F, U[..i])
        invariant Blocks(lists) == Union(F) && FreeSet() == AllPages(U[..i])
        invariant forall q :: Marked(managed[..], lo, q) <==> q in AllPages(U[..i])
      {
        UsableApart(regions, m0, m1, i);
        assert Unmanaged(U[i]);
        ghost var G := CarveRegion(regions[i], m0, m1);
        MorePieces(F, U[..i], G, U[i]);
        F := F + [G];
        assert U[..i] + [U[i]] == U[..i + 1];
      }
      assert U[..|regions|] == U;
    }

    ghost predicate Unmanaged(U: iset<int>)
      reads managed
    {
      forall p :: p in U ==> lo <= p < hi && !Marked(managed[..], lo, p)
    }

    /** Boot: hands one block to the lists, with no attempt to merge it. */
    method CarveBlock(p: int, k: int)
      requires Valid() && 0 <= k < MAX_ORDER && p >= 0 && Head(BlockAt(p, k)) == p && Unmanaged(Pages(BlockAt(p, k)))
      modifies this, used, managed, refs
      ensures Valid() && Blocks(lists) == old(Blocks(lists)) + {BlockAt(p, k)}
      ensures FreeSet() == old(FreeSet()) + Pages(BlockAt(p, k))
      ensures forall q :: Marked(managed[..], lo, q) <==> Marked(old(managed[..]), lo, q) || Covers(BlockAt(p, k), q)
    {
      hide Bit, Marked, Pow2, Head, Covers;
      ghost var b, P, m, u := BlockAt(p, k), FreeSet(), managed[..], used[..];
      UnmanagedWithin(b);
      FillRange(managed, lo, hi, p, Pow2(k), true);
      FillRange(used, lo, hi, p, Pow2(k), false);
      forall q ensures Marked(managed[..], lo, q) == (if Covers(b, q) then true else Marked(m, lo, q))
        ensures Marked(used[..], lo, q) == (if Covers(b, q) then false else Marked(u, lo, q))
      {
        FilledMarks(m, managed[..], lo, b, true, q);
        FilledMarks(u, used[..], lo, b, false, q);
      }
      assert FreeSet() == P + Pages(b) by {
        forall q | Covers(b, q) ensures lo <= q < hi { CoversInterval(b, q); }
      }
      ClearRefs(p, k);
      HeadCovered(b);
      AddBlock(Blocks(lists), P, b);
      ListAddTail(b, p, k);
    }

    /** A block of unmanaged pages of the span lies within it, and none of its pages is free. */
    lemma UnmanagedWithin(b: Block)
      requires Shape() && b.order >= 0 && Unmanaged(Pages(b))
      ensures Within(b, lo, hi) && Apart(b, FreeSet())
    {
      hide Bit, Marked, Pow2, Covers;
      HeadCovered(b);
      assert Head(b) in Pages(b);
      var q := Head(b) + Pow2(b.order) - 1;
      CoversInterval(b, q);
      assert q in Pages(b);
      forall p | Covers(b, p) ensures p !in FreeSet() { assert p in Pages(b); }
    }

    method ClearRefs(p: int, k: int)
      requires Shape() && k >= 0 && p == Head(BlockAt(p, k)) && Within(BlockAt(p, k), lo, hi)
      modifies refs
      ensures forall i :: 0 <= i < refs.Length ==> refs[i] == if Covers(BlockAt(p, k), lo + i) then 0 else old(refs[i])
    {
      hide Pow2, Head, Covers;
      for n := 0 to Pow2(k)
        invariant forall i :: 0 <= i < refs.Length ==> refs[i] == if p <= lo + i < p + n then 0 else old(refs[i])
      {
        refs[p + n - lo] := 0;
      }
      forall i | 0 <= i < refs.Length ensures refs[i] == if Covers(BlockAt(p, k), lo + i) then 0 else old(refs[i]) {
        CoversInterval(BlockAt(p, k), lo + i);
      }
    }

    /** Boot: one usable region, cut greedily into the largest aligned blocks that fit. */
    method CarveRegion(r: Region, m0: int, m1: int) returns (ghost G: set<Block>)
      requires Valid() && m0 < m1 && Unmanaged(Usable(r, m0, m1))
      modifies this, used, managed, refs
      ensures Valid() && Blocks(lists) == old(Blocks(lists)) + G
      ensures Partition(G, Usable(r, m0, m1)) && NoSiblings(G)
      ensures FreeSet() == old(FreeSet()) + Usable(r, m0, m1)
      ensures forall q :: Marked(managed[..], lo, q) <==> Marked(old(managed[..]), lo, q) || q in Usable(r, m0, m1)
    {
      hide Marked, Pow2, Head, Covers, NoSiblings, Partition, GreedyMaximal, Valid, FreePages;
      var p := r.base;
      G := {};
      ghost var done := iset{};
      NothingCarved(Usable(r, m0, m1));
      while p < r.end
        invariant r.base <= p && forall q :: q in done <==> InRegion(r, m0, m1, q) && q < p
        invariant Valid() && Blocks(lists) == old(Blocks(lists)) + G && FreeSet() == old(FreeSet()) + done
        invariant Partition(G, done) && GreedyMaximal(G, Usable(r, m0, m1))
        invariant forall q :: Marked(managed[..], lo, q) <==> Marked(old(managed[..]), lo, q) || q in done
        decreases r.end - p
      {
        if p < LOW_PAGES {
          p := LOW_PAGES;
        } else if m0 <= p < m1 {
          p := m1;
        } else {
          var k := LargestOrder(r, p, m0, m1);
          ghost var b := BlockAt(p, k);
          forall q ensures Covers(b, q) <==> p <= q < p + Pow2(k) { CoversInterval(b, q); }
          forall q | q in Pages(b) ensures lo <= q < hi && !Marked(managed[..], lo, q) {
            assert q in Usable(r, m0, m1);
          }
          CarveBlock(p, k);
          AddBlock(G, done, b);
          GreedyAdd(G, b, Usable(r, m0, m1));
          G := G + {b};
          done := done + Pages(b);
          p := p + Pow2(k);
        }
      }
      assert done == Usable(r, m0, m1);
      GreedyCoalesced(G, Usable(r, m0, m1));
    }

    /** Takes the head p off list j, splits it down to order k and marks the piece used. */
    method Claim(j: int, p: int, k: int)
      requires Valid() && 0 <= k <= j < MAX_ORDER && p in lists[j]
      modifies this, used
      ensures Valid() && (old(Merged()) ==> Merged()) && Head(BlockAt(p, k)) == p && Within(BlockAt(p, k), lo, hi)
      ensures Pages(BlockAt(p, k)) <= Pages(BlockAt(p, j)) <= old(FreeSet())
      ensures FreeSet() == old(FreeSet()) - Pages(BlockAt(p, k)) && Apart(BlockAt(p, k), FreeSet())
      ensures (Blocks(lists), BlockAt(p, k)) == Split(old(Blocks(lists)) - {BlockAt(p, j)}, BlockAt(p, j), k)
    {
      hide Bit, Marked, Pow2, Head, Covers;
      ghost var P, c, b, before := FreeSet(), BlockAt(p, j), BlockAt(p, k), used[..];
      ListedBlock(lists, c);
      RemoveBlock(Blocks(lists), P, c);
      assert Pages(c) <= P;
      if Merged() { FewerSiblings(Blocks(lists), c); }
      ListDel(j, p);
      SplitDown(p, j, k, P - Pages(c));
      FreeWithin(lo, hi, managed[..], used[..], b);
      FillRange(used, lo, hi, p, Pow2(k), true);
      MarkingMoves(lo, hi, managed[..], before, used[..], b, true);
      assert P - Pages(c) + (Pages(c) - Pages(b)) == FreeSet();
      forall i | 0 <= i < refs.Length ensures 0 <= refs[i] < 0x1_0000 && (refs[i] > 0 ==> lo + i !in FreeSet()) {
        assert 0 <= old(refs[i]) < 0x1_0000;
      }
    }

    /** The smallest order whose block holds count pages. */
    method GetOrder(count: int) returns (k: int)
      requires 0 < count <= 0x8000_0000_0000_0000
      ensures k >= 0 && count <= Pow2(k) && (k > 0 ==> Pow2(k - 1) < count)
    {
      k := 0;
      var size := 1;
      while size < count
        invariant k >= 0 && size == Pow2(k) && (k > 0 ==> Pow2(k - 1) < count)
        decreases count - size
      {
        size, k := size * 2, k + 1;
      }
    }

    /**
     Allocation: null exactly when no free block of the rounded size or more is listed, which with merged lists
     means that no aligned run of that size is wholly free; otherwise such a run, removed from the free pages and
     given one reference per page.
     */
    method AllocPages(count: int) returns (r: Option<int>, ghost k: int)
      requires Valid() && 0 <= count <= 0x8000_0000_0000_0000
      modifies this, used, refs
      ensures Valid() && (old(Merged()) ==> Merged())
      ensures count > 0 ==> Fits(count, k)
      ensures r.None? <==> count == 0 || k >= MAX_ORDER || !HasBlock(old(Blocks(lists)), k)
      ensures old(Merged()) ==> (r.None? <==> count == 0 || k >= MAX_ORDER || !Available(old(FreeSet()), k))
      ensures r.None? ==> lists == old(lists) && FreeSet() == old(FreeSet()) && refs[..] == old(refs[..])
      ensures r.Some? ==> Granted(k, r.value, old(FreeSet()), FreeSet()) && FirstFit(old(lists), k, r.value)
      ensures r.Some? ==> forall i :: 0 <= i < refs.Length ==> refs[i] == if Covers(BlockAt(r.value, k), lo + i) then 1 else old(refs[i])
    {
      hide Pow2, Head, Covers, Pages;
      if count == 0 { return None, 0; }
      var order := GetOrder(count);
      k := order;
      if order >= MAX_ORDER { return None, k; }
      var j := order;
      while j < MAX_ORDER && lists[j] == []
        invariant order <= j <= MAX_ORDER && forall i :: order <= i < j ==> lists[i] == []
      {
        j := j + 1;
      }
      if j == MAX_ORDER {
        NoneListed(lists, order);
        if Merged() { BlockForRun(Blocks(lists), FreeSet(), order); }
        return None, k;
      }
      var p := lists[j][0];
      ListedFits(lists, FreeSet(), order, j, p);
      Claim(j, p, order);
      SetRefs(p, order);
      r := Some(p);
    }

    /** The first head of list j whose block lies in the bounds. */
    method FindInList(j: int, min: int, max: int) returns (r: Option<int>)
      requires |lists| == MAX_ORDER && 0 <= j < MAX_ORDER
      ensures r.None? ==> forall q :: q in lists[j] ==> !InBounds(q, j, min, max)
      ensures r.Some? ==> r.value in lists[j] && InBounds(r.value, j, min, max)
    {
      for n := 0 to |lists[j]|
        invariant forall i :: 0 <= i < n ==> !InBounds(lists[j][i], j, min, max)
      {
        if InBounds(lists[j][n], j, min, max) { return Some(lists[j][n]); }
      }
      return None;
    }

    /**
     Allocation inside a physical address range: null exactly when no listed block of sufficient
     order lies wholly inside it. Reference counts are left alone.
     */
    method AllocRange(count: int, min: int, max: int) returns (r: Option<int>, ghost k: int)
      requires Valid() && 0 <= count <= 0x8000_0000_0000_0000
      modifies this, used
      ensures Valid() && (old(Merged()) ==> Merged())
      ensures count > 0 ==> Fits(count, k)
      ensures r.None? <==> count == 0 || k >= MAX_ORDER || !ListedInBounds(old(Blocks(lists)), k, min, max)
      ensures r.None? ==> lists == old(lists) && FreeSet() == old(FreeSet())
      ensures r.Some? ==> Granted(k, r.value, old(FreeSet()), FreeSet()) && InBounds(r.value, k, min, max)
    {
      hide Pow2, Head, Covers, Pages, InBounds;
      if count == 0 { return None, 0; }
      var order := GetOrder(count);
      k := order;
      if order >= MAX_ORDER { return None, k; }
      for j := order to MAX_ORDER
        invariant Valid() && lists == old(lists) && FreeSet() == old(FreeSet())
        invariant forall i, q :: order <= i < j && q in lists[i] ==> !InBounds(q, i, min, max)
      {
        var found := FindInList(j, min, max);
        if found.Some? {
          ListedBlock(lists, BlockAt(found.value, j));
          assert BlockAt(found.value, j) in Blocks(lists);
          Claim(j, found.value, order);
          SubInBounds(found.value, order, j, min, max);
          return found, k;
        }
      }
      NoneInBounds(lists, k, min, max);
      return None, k;
    }

    /** Allocation below a physical address. */
    method AllocConstrained(count: int, max: int) returns (r: Option<int>, ghost k: int)
      requires Valid() && 0 <= count <= 0x8000_0000_0000_0000
      modifies this, used
      ensures Valid() && (old(Merged()) ==> Merged())
      ensures count > 0 ==> Fits(count, k)
      ensures r.None? <==> count == 0 || k >= MAX_ORDER || !ListedInBounds(old(Blocks(lists)), k, 0, max)
      ensures r.None? ==> lists == old(lists) && FreeSet() == old(FreeSet())
      ensures r.Some? ==> Granted(k, r.value, old(FreeSet()), FreeSet()) && InBounds(r.value, k, 0, max)
    {
      r, k := AllocRange(count, 0, max);
    }

    predicate IsManaged(addr: int)
      requires Shape()
      reads managed
    {
      lo <= addr / PAGE_SIZE < hi && Bit(managed[..], addr / PAGE_SIZE - lo)
    }

    /** One more reference, in sixteen bits. The allocator stays sound just when the page was not free. */
    method Incref(addr: int)
      requires Valid() && addr >= 0
      modifies refs
      ensures Shape() && Listed(FreeSet())
      ensures refs[..] == if addr == 0 || !IsManaged(addr) then old(refs[..])
                          else var i := addr / PAGE_SIZE - lo; old(refs[..])[i := (old(refs[i]) + 1) % 0x1_0000]
      ensures Valid() <==> addr == 0 || addr / PAGE_SIZE !in FreeSet()
    {
      hide Bit;
      if addr == 0 || !IsManaged(addr) { return; }
      var i := addr / PAGE_SIZE - lo;
      refs[i] := (refs[i] + 1) % 0x1_0000;
      forall n | 0 <= n < refs.Length && n != i ensures 0 <= refs[n] < 0x1_0000 && (refs[n] > 0 ==> lo + n !in FreeSet()) {
        assert 0 <= old(refs[n]) < 0x1_0000;
      }
    }

    /** One reference less; the page is free exactly when its last reference went. */
    method Decref(addr: int)
      requires Valid() && addr >= 0
      modifies this, used, refs
      ensures Valid() && (old(Merged()) ==> Merged())
      ensures addr == 0 || !IsManaged(addr) ==> refs[..] == old(refs[..]) && FreeSet() == old(FreeSet()) && lists == old(lists)
      ensures addr != 0 && IsManaged(addr) ==>
        var p, n := addr / PAGE_SIZE, old(refs[addr / PAGE_SIZE - lo]);
        && refs[..] == old(refs[..])[p - lo := if n > 0 then n - 1 else n]
        && FreeSet() == (if n == 1 then old(FreeSet()) + iset{p} else old(FreeSet()))
        && Blocks(lists) == (if n == 1 then Coalesce(old(Blocks(lists)), Block(p, 0)) else old(Blocks(lists)))
    {
      hide Bit, Pow2, Head, Covers, Coalesce;
      if addr == 0 || !IsManaged(addr) { return; }
      var p := addr / PAGE_SIZE;
      assert refs[p - lo] > 0 ==> p !in FreeSet();
      if refs[p - lo] > 0 {
        refs[p - lo] := refs[p - lo] - 1;
        if refs[p - lo] == 0 {
          SinglePage(p);
          FreeInternal(p, 0);
        }
      }
      forall n | 0 <= n < refs.Length ensures 0 <= refs[n] < 0x1_0000 && (refs[n] > 0 ==> lo + n !in FreeSet()) {
        assert 0 <= old(refs[n]) < 0x1_0000;
      }
    }

    /** One reference less for each page of the block at p that has any. */
    method DropRefs(p: int, k: int)
      requires Shape() && Listed(FreeSet()) && k >= 0 && p == Head(BlockAt(p, k)) && Within(BlockAt(p, k), lo, hi)
      modifies refs
      ensures forall i :: 0 <= i < refs.Length ==> refs[i] == if Covers(BlockAt(p, k), lo + i) then Less(old(refs[i])) else old(refs[i])
    {
      hide Pow2, Head, Covers, Bit, Marked;
      for n := 0 to Pow2(k)
        invariant forall i :: 0 <= i < refs.Length ==> refs[i] == if p <= lo + i < p + n then Less(old(refs[i])) else old(refs[i])
      {
        if refs[p + n - lo] > 0 { refs[p + n - lo] := refs[p + n - lo] - 1; }
      }
      forall i | 0 <= i < refs.Length ensures refs[i] == if Covers(BlockAt(p, k), lo + i) then Less(old(refs[i])) else old(refs[i])
      {
        CoversInterval(BlockAt(p, k), lo + i);
      }
    }

    /**
     Release of a block: every page loses a reference, but only the head's count decides whether the
     whole block goes back. The allocator stays sound just when no other page of it is still referenced.
     */
    method ReleaseBlock(p: int, k: int)
      requires Valid() && 0 <= k < MAX_ORDER && Returnable(p, k)
      modifies this, used, refs
      ensures Shape() && Listed(FreeSet()) && (old(Merged()) ==> Merged())
      ensures forall i :: 0 <= i < refs.Length ==> refs[i] == if Covers(BlockAt(p, k), lo + i) then Less(old(refs[i])) else old(refs[i])
      ensures lo <= p < hi && FreeSet() == if old(refs[p - lo]) <= 1 then old(FreeSet()) + Pages(BlockAt(p, k)) else old(FreeSet())
      ensures Valid() <==> old(refs[p - lo]) > 1 || forall i :: 0 <= i < refs.Length && Covers(BlockAt(p, k), lo + i) ==> old(refs[i]) <= 1
    {
      hide Listed, FreePages, Marked, Pow2, Head, Covers;
      ghost var b := BlockAt(p, k);
      HeadCovered(b);
      DropRefs(p, k);
      assert Covers(b, lo + (p - lo));
      if refs[p - lo] == 0 {
        FreeInternal(p, k);
      }
      forall i | 0 <= i < refs.Length && (refs[p - lo] == 0 && Covers(b, lo + i) ==> old(refs[i]) <= 1)
        ensures 0 <= refs[i] < 0x1_0000 && (refs[i] > 0 ==> lo + i !in FreeSet())
      {
        assert 0 <= old(refs[i]) < 0x1_0000;
      }
      forall i | 0 <= i < refs.Length && refs[p - lo] == 0 && Covers(b, lo + i) && old(refs[i]) > 1 ensures !Counted() {
        assert refs[i] > 0 && lo + i in FreeSet();
      }
    }

    /** Releases count pages at addr, unless the address is null, unmanaged or already free. */
    method FreePagesAt(addr: int, count: int, ghost k: int)
      requires Valid() && addr >= 0 && 0 <= count <= 0x8000_0000_0000_0000 && (count > 0 ==> Fits(count, k))
      requires Releases(addr, count, k) ==> Returnable(addr / PAGE_SIZE, k)
      modifies this, used, refs
      ensures Shape() && Listed(FreeSet()) && (old(Merged()) ==> Merged())
      ensures !old(Releases(addr, count, k)) ==> Valid() && refs[..] == old(refs[..]) && FreeSet() == old(FreeSet()) && lists == old(lists)
      ensures old(Releases(addr, count, k)) ==>
        var p, b := addr / PAGE_SIZE, BlockAt(addr / PAGE_SIZE, k);
        && (forall i :: 0 <= i < refs.Length ==> refs[i] == if Covers(b, lo + i) then Less(old(refs[i])) else old(refs[i]))
        && FreeSet() == (if old(refs[p - lo]) <= 1 then old(FreeSet()) + Pages(b) else old(FreeSet()))
        && (Valid() <==> old(refs[p - lo]) > 1 || forall i :: 0 <= i < refs.Length && Covers(b, lo + i) ==> old(refs[i]) <= 1)
    {
      hide Listed, FreePages, Bit, Marked, Pow2, Head, Covers;
      if addr == 0 || count == 0 { return; }
      var order := GetOrder(count);
      OnlyOrder(count, k, order);
      if order >= MAX_ORDER { return; }
      var pfn := addr / PAGE_SIZE;
      if !IsManaged(addr) || !Bit(used[..], pfn - lo) { return; }
      ReleaseBlock(pfn, order);
    }

    /** Whoever owns a page may write what it likes over the list node that was kept there. */
    method Scribble(p: int, n: Node)
      requires Valid() && p !in FreeSet()
      modifies `nodes
      ensures Valid() && nodes == old(nodes)[p := n]
    {
      hide Bit, Covers, Partition;
      forall k | 0 <= k < MAX_ORDER && p in lists[k] ensures false { ListedIsFree(lists, FreeSet(), k, p); }
      nodes := nodes[p := n];
    }

    /** pmm_free_pages goes past its early returns. */
    ghost predicate Releases(addr: int, count: int, k: int)
      requires Shape()
      reads used, managed
    {
      && addr > 0 && count > 0 && k < MAX_ORDER && IsManaged(addr)
      && Bit(used[..], addr / PAGE_SIZE - lo)
    }

    /** One reference for every page of the block at p. */
    method SetRefs(p: int, k: int)
      requires Valid() && k >= 0 && p == Head(BlockAt(p, k)) && Within(BlockAt(p, k), lo, hi)
      requires Apart(BlockAt(p, k), FreeSet())
      modifies refs
      ensures Valid()
      ensures forall i :: 0 <= i < refs.Length ==> refs[i] == if Covers(BlockAt(p, k), lo + i) then 1 else old(refs[i])
    {
      hide Pow2, Head, Covers, Bit, Marked;
      for n := 0 to Pow2(k)
        invariant forall i :: 0 <= i < refs.Length ==> refs[i] == if p <= lo + i < p + n then 1 else old(refs[i])
      {
        refs[p + n - lo] := 1;
      }
      forall i | 0 <= i < refs.Length ensures refs[i] == if Covers(BlockAt(p, k), lo + i) then 1 else old(refs[i])
      {
        CoversInterval(BlockAt(p, k), lo + i);
      }
      forall i | 0 <= i < refs.Length ensures 0 <= refs[i] < 0x1_0000 && (refs[i] > 0 ==> lo + i !in FreeSet()) {
        if old(refs[i]) > 0 { assert lo + i !in old(FreeSet()); }
      }
    }
  }

  const WORD_SIZES: int := 0x1_0000_0000_0000_0000

  /** The size after n doublings in a 64-bit word. */
  function WordSize(n: nat): int {
    if n == 0 then 1 else 2 * WordSize(n - 1) % WORD_SIZES
  }

  /** The loop of get_order ends if and only if the count is at most 2^63: beyond, the size wraps to 0 and stays there. */
  lemma OrderLoopEndsIff(count: int)
    ensures (exists n: nat :: WordSize(n) >= count) <==> count <= 0x8000_0000_0000_0000
  {
    if count <= 0x8000_0000_0000_0000 {
      WordPower(63);
      PowerOf63();
      assert WordSize(63) >= count;
    }
    forall n: nat ensures WordSize(n) <= 0x8000_0000_0000_0000 { WordBound(n); }
  }

  lemma {:induction false} WordPower(n: nat)
    requires n <= 63
    ensures WordSize(n) == Pow2(n) <= 0x8000_0000_0000_0000
  {
    PowerOf63();
    Pow2Monotone(n, 63);
    if n > 0 { WordPower(n - 1); }
  }

  lemma PowerOf63()
    ensures Pow2(63) == 0x8000_0000_0000_0000
  {
    hide Pow2;
    PowerOf1();
    Pow2Sum(32, 31);
    Pow2Sum(16, 16);
    Pow2Sum(16, 15);
    Pow2Sum(8, 8);
    Pow2Sum(8, 7);
    Pow2Sum(4, 4);
    Pow2Sum(4, 3);
    Pow2Sum(2, 2);
    Pow2Sum(2, 1);
    Pow2Sum(1, 1);
  }

  lemma PowerOf1()
    ensures Pow2(1) == 2
  {
  }

  lemma {:induction false} Pow2Sum(j: int, k: int)
    requires 0 <= j && 0 <= k
    ensures Pow2(j + k) == Pow2(j) * Pow2(k)
    decreases k
  {
    if k > 0 { Pow2Sum(j, k - 1); }
  }

  lemma WordStep(n: nat)
    ensures n > 0 ==> WordSize(n) == 2 * WordSize(n - 1) % WORD_SIZES
  {
  }

  lemma {:induction false} WordBound(n: nat)
    ensures if n <= 63 then WordSize(n) == Pow2(n) else WordSize(n) == 0
    ensures WordSize(n) <= 0x8000_0000_0000_0000
  {
    hide Pow2, WordSize;
    if n <= 63 {
      WordPower(n);
    } else {
      WordStep(n);
      WordBound(n - 1);
      PowerOf63();
    }
  }

  /** k is the order get_order computes: 2^(k-1) < count <= 2^k. */
  ghost predicate Fits(count: int, k: int) {
    k >= 0 && count <= Pow2(k) && (k > 0 ==> Pow2(k - 1) < count)
  }

  lemma OnlyOrder(count: int, j: int, k: int)
    requires Fits(count, j) && Fits(count, k)
    ensures j == k
  {
    if j < k { Pow2Monotone(j, k - 1); }
    if k < j { Pow2Monotone(k, j - 1); }
  }

  function Less(n: int): int { if n > 0 then n - 1 else n }

  /** The aligned block of order k at page p went from free to used, and nothing else changed hands. */
  ghost predicate Granted(k: int, p: int, P: iset<int>, P': iset<int>) {
    && 0 <= k < MAX_ORDER && Head(BlockAt(p, k)) == p
    && Pages(BlockAt(p, k)) <= P && P' == P - Pages(BlockAt(p, k))
  }

  /** p heads the lowest nonempty list from order k up. */
  ghost predicate FirstFit(lists: Lists, k: int, p: int) {
    exists j :: 0 <= k <= j < |lists| && lists[j] != [] && lists[j][0] == p && forall i :: k <= i < j ==> lists[i] == []
  }

  const PAGE_SIZE: int := 4096

  /** The block of order j headed by page p lies in the physical addresses [min, max). */
  predicate InBounds(p: int, j: int, min: int, max: int)
    requires j >= 0
  {
    min <= p * PAGE_SIZE && (p + Pow2(j)) * PAGE_SIZE <= max
  }

  /** Some aligned run of 2^k pages is wholly in P. */
  ghost predicate Available(P: iset<int>, k: int)
    requires k >= 0
  {
    exists b: Block :: b.order == k && Pages(b) <= P
  }

  /** Some free block has order k or more. */
  ghost predicate HasBlock(F: set<Block>, k: int) {
    exists b :: b in F && b.order >= k
  }

  /** A block of order k or more holds an aligned run of 2^k free pages; among merged blocks every such run lies in one. */
  lemma BlockForRun(F: set<Block>, P: iset<int>, k: int)
    requires Partition(F, P) && 0 <= k < MAX_ORDER
    ensures HasBlock(F, k) ==> Available(P, k)
    ensures NoSiblings(F) ==> (HasBlock(F, k) <==> Available(P, k))
  {
    if b :| b in F && b.order >= k {
      var c := BlockAt(Head(b), k);
      HeadCovered(b);
      assert Covers(c, Head(b));
      Nests(c, b, Head(b));
      assert Pages(c) <= P;
    }
    if NoSiblings(F) && Available(P, k) {
      var b: Block :| b.order == k && Pages(b) <= P;
      var c := Contained(F, P, b);
    }
  }

  /** Unmerged siblings hide a run: two free pages side by side, and no block of two. */
  lemma UnmergedHidesRun()
    ensures var F := {Block(256, 0), Block(257, 0)};
      Partition(F, iset{256, 257}) && !NoSiblings(F) && Available(iset{256, 257}, 1) && !HasBlock(F, 1)
  {
    var F := {Block(256, 0), Block(257, 0)};
    var P := iset{256, 257};
    forall p ensures Covers(Block(128, 1), p) <==> p == 256 || p == 257 { assert Pow2(1) == 2; CoversInterval(Block(128, 1), p); }
    SinglePage(256);
    SinglePage(257);
    assert Pages(Block(128, 1)) <= P;
    assert Sibling(Block(256, 0)) in F;
    forall p | p in P ensures exists b :: b in F && Covers(b, p) { assert Covers(Block(p, 0), p) && Block(p, 0) in F; }
  }

  lemma NoneListed(lists: Lists, k: int)
    requires ListsOk(lists) && 0 <= k < MAX_ORDER && forall i :: k <= i < MAX_ORDER ==> lists[i] == []
    ensures !HasBlock(Blocks(lists), k)
  {
    forall b | b in Blocks(lists) ensures b.order < k { assert b.order < MAX_ORDER; }
  }

  /** A block on list j holds a run of any smaller order. */
  lemma ListedFits(lists: Lists, P: iset<int>, k: int, j: int, p: int)
    requires ListsOk(lists) && Partition(Blocks(lists), P) && 0 <= k <= j < MAX_ORDER && p in lists[j]
    ensures HasBlock(Blocks(lists), k) && Available(P, k)
  {
    assert BlockAt(p, j) in Blocks(lists);
    BlockForRun(Blocks(lists), P, k);
  }

  /** Some free block of order k or more lies in the bounds. */
  ghost predicate ListedInBounds(F: set<Block>, k: int, min: int, max: int)
    requires k >= 0
  {
    exists b :: b in F && b.order >= k && InBounds(Head(b), b.order, min, max)
  }

  /** A block that straddles the bounds hides the free pages inside them from the range search. */
  lemma RangeMissesStraddlers()
    ensures var F := {Block(128, 1)};
      && Partition(F, iset{256, 257}) && NoSiblings(F)
      && InBounds(256, 0, 0, 257 * PAGE_SIZE) && Pages(Block(256, 0)) <= iset{256, 257}
      && !ListedInBounds(F, 0, 0, 257 * PAGE_SIZE)
  {
    forall p ensures Covers(Block(128, 1), p) <==> p == 256 || p == 257 { CoversInterval(Block(128, 1), p); }
    SinglePage(256);
    assert Pow2(1) == 2;
  }

  lemma NoneInBounds(lists: Lists, k: int, min: int, max: int)
    requires ListsOk(lists) && 0 <= k < MAX_ORDER
    requires forall i, q :: k <= i < MAX_ORDER && q in lists[i] ==> !InBounds(q, i, min, max)
    ensures !ListedInBounds(Blocks(lists), k, min, max)
  {
    forall b | b in Blocks(lists) && b.order >= k ensures !InBounds(Head(b), b.order, min, max) {
      ListedBlock(lists, b);
    }
  }

  lemma SubInBounds(p: int, k: int, j: int, min: int, max: int)
    requires 0 <= k <= j && InBounds(p, j, min, max)
    ensures InBounds(p, k, min, max)
  {
    Pow2Monotone(k, j);
  }

  lemma {:induction false} Pow2Monotone(j: int, k: int)
    requires 0 <= j <= k
    ensures Pow2(j) <= Pow2(k)
    decreases k
  {
    if j < k { Pow2Monotone(j, k - 1); }
  }

  /** A wholly free block lies in [lo, hi) and is wholly managed. */
  lemma FreeWithin(lo: int, hi: int, managed: seq<bv8>, used: seq<bv8>, b: Block)
    requires b.order >= 0 && Pages(b) <= FreePages(lo, hi, managed, used)
    ensures Within(b, lo, hi) && forall p :: Covers(b, p) ==> Marked(managed, lo, p)
  {
    hide Bit, Marked, Covers;
    HeadCovered(b);
    assert Head(b) in Pages(b);
    var q := Head(b) + Pow2(b.order) - 1;
    CoversInterval(b, q);
    assert q in Pages(b);
    forall p | Covers(b, p) ensures Marked(managed, lo, p) { assert p in Pages(b); }
  }

  lemma SinglePage(p: int)
    ensures BlockAt(p, 0) == Block(p, 0) && Head(Block(p, 0)) == p && Pow2(0) == 1
    ensures Pages(Block(p, 0)) == iset{p} && forall q :: Covers(Block(p, 0), q) <==> q == p
  {
  }

  // ---------------------------------------------------------------- boot

  /** A usable region of the memory map, in pages. */
  datatype Region = Region(base: int, end: int)

  /** The first megabyte is never handed out. */
  const LOW_PAGES: int := 256

  /** The pages of a region that go to the allocator: above the first megabyte and clear of the metadata [m0, m1). */
  ghost function Usable(r: Region, m0: int, m1: int): iset<int> {
    iset p | InRegion(r, m0, m1, p)
  }

  predicate InRegion(r: Region, m0: int, m1: int, p: int) {
    r.base <= p < r.end && LOW_PAGES <= p && !(m0 <= p < m1)
  }

  /** No left half below the top order could have been carved as its parent. */
  ghost predicate GreedyMaximal(G: set<Block>, U: iset<int>) {
    forall b :: b in G && 0 <= b.order < MAX_ORDER - 1 && b.idx % 2 == 0 ==> !(Pages(Parent(b)) <= U)
  }

  ghost function UsablePages(regions: seq<Region>, m0: int, m1: int): seq<iset<int>> {
    seq(|regions|, i requires 0 <= i < |regions| => Usable(regions[i], m0, m1))
  }

  /** Two adjacent one-page regions are carved into siblings that boot does not merge. */
  lemma AdjacentRegionsStraddle()
    ensures !NoneStraddles(UsablePages([Region(256, 257), Region(257, 258)], 0, 1))
  {
    var U := UsablePages([Region(256, 257), Region(257, 258)], 0, 1);
    var b := Block(128, 1);
    forall p ensures Covers(b, p) <==> p == 256 || p == 257 {
      assert Pow2(1) == 2;
      CoversInterval(b, p);
    }
    forall p | p in Pages(b) ensures p in AllPages(U) { assert p in U[if p == 256 then 0 else 1]; }
    assert 256 in Pages(b) && 257 in Pages(b);
    assert !InOnePiece(b, U);
  }

  lemma UsableApart(regions: seq<Region>, m0: int, m1: int, i: int)
    requires 0 <= i < |regions|
    requires forall i, j :: 0 <= i < j < |regions| ==> regions[i].end <= regions[j].base || regions[j].end <= regions[i].base
    ensures var U := UsablePages(regions, m0, m1); U[i] !! AllPages(U[..i])
  {
    var U := UsablePages(regions, m0, m1);
    forall p | p in AllPages(U[..i]) ensures p !in U[i] {
      var j :| 0 <= j < i && p in U[j];
    }
  }

  lemma MorePieces(F: seq<set<Block>>, P: seq<iset<int>>, G: set<Block>, Q: iset<int>)
    requires Pieces(F, P) && Partition(G, Q) && NoSiblings(G) && Q !! AllPages(P)
    ensures Pieces(F + [G], P + [Q])
    ensures Union(F + [G]) == Union(F) + G && AllPages(P + [Q]) == AllPages(P) + Q
  {
    hide Partition, NoSiblings;
    var F', P' := F + [G], P + [Q];
    forall b ensures b in Union(F') <==> b in Union(F) + G {
      if b in Union(F) {
        var i :| 0 <= i < |F| && b in F[i];
        assert b in F'[i];
      }
      if b in G { assert b in F'[|F|]; }
    }
    forall p ensures p in AllPages(P') <==> p in AllPages(P) + Q {
      if p in AllPages(P) {
        var i :| 0 <= i < |P| && p in P[i];
        assert p in P'[i];
      }
      if p in Q { assert p in P'[|P|]; }
    }
    forall i, j | 0 <= i < j < |P'| ensures P'[i] !! P'[j] {
      assert forall p :: p in P[i] ==> p in AllPages(P);
    }
  }

  lemma NoneManaged(bm: seq<bv8>, lo: int)
    requires forall i :: 0 <= i < |bm| ==> bm[i] == 0
    ensures forall p :: !Marked(bm, lo, p)
  {
    forall p ensures !Marked(bm, lo, p) {
      if lo <= p && p - lo < 8 * |bm| { OrMask(0, (p - lo) % 8, 0); }
    }
  }

  lemma NothingCarved(U: iset<int>)
    ensures Partition({}, iset{}) && GreedyMaximal({}, U)
  {
  }

  lemma GreedyAdd(G: set<Block>, b: Block, U: iset<int>)
    requires GreedyMaximal(G, U) && (0 <= b.order < MAX_ORDER - 1 && b.idx % 2 == 0 ==> !(Pages(Parent(b)) <= U))
    ensures GreedyMaximal(G + {b}, U)
  {
  }

  /** Greedy carving leaves nothing to coalesce. */
  lemma GreedyCoalesced(G: set<Block>, U: iset<int>)
    requires Partition(G, U) && GreedyMaximal(G, U)
    ensures NoSiblings(G)
  {
    forall b | b in G && b.order < MAX_ORDER - 1 ensures Sibling(b) !in G {
      if Sibling(b) in G {
        forall p | Covers(Parent(b), p) ensures p in U { Siblings(b, p); }
        Siblings(b, 0);
        assert false;
      }
    }
  }

  /** Alignment of a page number, as the code tests it. */
  lemma Aligned(p: int, k: int)
    requires k >= 0
    ensures p % Pow2(k) == 0 <==> Head(BlockAt(p, k)) == p
  {
    CoversInterval(BlockAt(p, k), p);
    Quotient(p, BlockAt(p, k).idx, Pow2(k));
    Remainder(p, Pow2(k));
  }

  lemma Remainder(p: int, n: int)
    requires n >= 1
    ensures p % n == 0 <==> p / n * n == p
  {
  }

  /** The largest order, aligned at page p, that stays inside the region and clear of the metadata. */
  method LargestOrder(r: Region, p: int, m0: int, m1: int) returns (k: int)
    requires p in Usable(r, m0, m1) && m0 < m1
    ensures 0 <= k < MAX_ORDER && Head(BlockAt(p, k)) == p && Pages(BlockAt(p, k)) <= Usable(r, m0, m1)
    ensures k < MAX_ORDER - 1 && BlockAt(p, k).idx % 2 == 0 ==> !(Pages(Parent(BlockAt(p, k))) <= Usable(r, m0, m1))
  {
    hide Pow2, Head, Covers;
    k := 0;
    SinglePage(p);
    while k < MAX_ORDER - 1 && p + Pow2(k + 1) <= r.end && p % Pow2(k + 1) == 0 && (p + Pow2(k + 1) <= m0 || p >= m1)
      invariant 0 <= k < MAX_ORDER && Head(BlockAt(p, k)) == p
      invariant p + Pow2(k) <= r.end && (p + Pow2(k) <= m0 || p >= m1)
    {
      Aligned(p, k + 1);
      k := k + 1;
    }
    forall q | Covers(BlockAt(p, k), q) ensures q in Usable(r, m0, m1) { CoversInterval(BlockAt(p, k), q); }
    if k < MAX_ORDER - 1 && BlockAt(p, k).idx % 2 == 0 {
      EvenParent(p, k);
      Aligned(p, k + 1);
      var q := if p + Pow2(k + 1) <= r.end then m0 else p + Pow2(k + 1) - 1;
      CoversInterval(Parent(BlockAt(p, k)), q);
      assert q in Pages(Parent(BlockAt(p, k))) && q !in Usable(r, m0, m1);
    }
  }

  lemma EvenParent(p: int, k: int)
    requires k >= 0 && Head(BlockAt(p, k)) == p && BlockAt(p, k).idx % 2 == 0
    ensures Parent(BlockAt(p, k)) == BlockAt(p, k + 1) && Head(BlockAt(p, k + 1)) == p
  {
    var b := BlockAt(p, k);
    ParentHead(b);
    Distribute(b.idx, Pow2(k));
  }

  lemma ListedIsFree(lists: Lists, P: iset<int>, k: int, p: int)
    requires ListsOk(lists) && Partition(Blocks(lists), P) && 0 <= k < MAX_ORDER && p in lists[k]
    ensures p in P
  {
    HeadCovered(BlockAt(p, k));
    assert BlockAt(p, k) in Blocks(lists);
  }

  lemma FewerSiblings(F: set<Block>, b: Block)
    requires NoSiblings(F)
    ensures NoSiblings(F - {b})
  {
  }

  lemma HeadSign(b: Block)
    requires b.order >= 0 && Head(b) >= 0
    ensures b.idx >= 0
  {
    if b.idx < 0 { NegativeHead(b.idx, Pow2(b.order)); }
  }

  lemma NegativeHead(i: int, n: int)
    requires i < 0 && n >= 1
    ensures i * n < 0
  {
  }

  /** Taking the sibling off the lists and merging leaves the same pages accounted for. */
  lemma MergedPages(b: Block, Q: iset<int>)
    requires b.order >= 0 && Apart(b, Q) && Pages(Sibling(b)) <= Q
    ensures Q + Pages(b) == Q - Pages(Sibling(b)) + Pages(Parent(b))
    ensures Apart(Parent(b), Q - Pages(Sibling(b)))
  {
    forall p ensures Covers(Parent(b), p) <==> Covers(b, p) || Covers(Sibling(b), p) { Siblings(b, p); }
  }

  lemma HalfHeads(b: Block)
    requires b.order > 0
    ensures Head(Left(b)) == Head(b) && Head(Right(b)) == Head(b) + Pow2(b.order - 1)
  {
    HalvesHeads(b.idx, Pow2(b.order - 1));
  }

  /** Setting aside the right half leaves the left half still apart from the listed pages. */
  lemma HalfPages(b: Block, Q: iset<int>)
    requires b.order > 0 && Apart(b, Q)
    ensures Apart(Right(b), Q) && Apart(Left(b), Q + Pages(Right(b)))
  {
    forall p ensures Covers(b, p) <==> Covers(Left(b), p) || Covers(Right(b), p)
      ensures !(Covers(Left(b), p) && Covers(Right(b), p))
    {
      Halves(b, p);
    }
  }
}
