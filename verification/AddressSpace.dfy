/**
 A process's list of memory regions, changed in place: mapping, unmapping with splits, protection
 changes, merging, cloning and the search for a gap.
 */
module AddressSpace {
  import opened AvlTree
  import opened Basics
  import opened Regions
  import opened RegionTree
  import opened Protection

  class VmaList {
    var root: Tree
    var count: int

    ghost predicate Valid()
      reads this
    {
      Sound(root) && Ordered(root, 0, WORD64) && count == |InOrder(root)|
    }

    ghost function List(): seq<Vma>
      reads this
    {
      InOrder(root)
    }

    constructor ()
      ensures Valid() && List() == []
    {
      root, count := Leaf, 0;
    }

    /**
     Maps [start, end) unless it overlaps a region. The list stays well formed exactly when the request was
     refused or the interval is not empty.
     */
    method Add(start: int, end: int, prot: int, flags: int, fd: int, offset: int) returns (ok: bool)
      requires Valid() && 0 <= start && end <= WORD64
      modifies this
      ensures ok <==> forall v :: v in old(List()) ==> !Overlaps(v, start, end)
      ensures root == PutIn(old(root), Vma(start, end, prot, flags, fd, offset))
      ensures !ok ==> Valid() && root == old(root)
      ensures ok && start < end ==> Valid() && List() == ListInsert(old(List()), Vma(start, end, prot, flags, fd, offset))
      ensures ok && start >= end ==> !Valid()
    {
      hide Sound, Ordered, InOrder, Insert, ListInsert, Overlaps, FindOverlap;
      FindOverlapScan(root, start, end);
      if FindOverlap(root, start, end).Some? { return false; }
      ghost var t := root;
      var v := Vma(start, end, prot, flags, fd, offset);
      InsertSound(root, v);
      if start < end {
        InsertOrder(root, v, 0, WORD64);
        InsertLength(InOrder(root), v);
      } else {
        InsertEmpty(root, v, 0, WORD64);
      }
      root := Insert(root, v);
      count := count + 1;
      ok := true;
    }

    /** Takes one overlapping region out and puts its remaining pieces back. */
    method RemoveOne(v: Vma, start: int, end: int) returns (ghost a: seq<Vma>, ghost b: seq<Vma>)
      requires Valid() && 0 <= start && end <= WORD64 && v in List() && Overlaps(v, start, end)
      modifies this
      ensures Valid() && old(List()) == a + [v] + b && List() == a + Pieces(v, start, end) + b
      ensures root == CutRegion(old(root), v, start, end)
    {
      hide Sound, Ordered, InOrder, PutIn, Delete, Pieces, ListInsert;
      a, b := CutRegionOrder(root, v, start, end);
      ghost var a', b' := TakenOut(root, v);
      root := Delete(root, v.start);
      count := count - 1;
      if start > v.start && end < v.end {
        var ok := Add(v.start, start, v.prot, v.flags, v.fd, v.offset);
        var ok' := Add(end, v.end, v.prot, v.flags, v.fd, (v.offset + (end - v.start)) % WORD64);
      } else if start <= v.start && end > v.start && end < v.end {
        var ok := Add(end, v.end, v.prot, v.flags, v.fd, (v.offset + (end - v.start)) % WORD64);
      } else if end >= v.end && start > v.start && start < v.end {
        var ok := Add(v.start, start, v.prot, v.flags, v.fd, v.offset);
      }
    }

    /** Unmaps a range: every region that overlaps it is cut, split or dropped. */
    method Remove(start: int, end: int) returns (removed: bool)
      requires Valid() && 0 <= start && end <= WORD64
      modifies this
      ensures Valid() && List() == CutList(old(List()), start, end)
      ensures root == CutOut(old(root), start, end)
      ensures removed <==> exists v :: v in old(List()) && Overlaps(v, start, end)
    {
      hide Sound, Ordered, InOrder, CutList, Pieces, Overlaps, CountOverlaps, FindOverlap, CutRegion;
      removed := false;
      FindOverlapIs(root, start, end);
      CutOutOrder(root, start, end);
      while FindOverlap(root, start, end).Some?
        invariant Valid() && CutOut(root, start, end) == CutOut(old(root), start, end)
        invariant if removed then exists v :: v in old(List()) && Overlaps(v, start, end) else root == old(root)
        decreases CountOverlaps(List(), start, end)
      {
        FindOverlapIs(root, start, end);
        CutRegionFewer(root, start, end);
        ghost var a, b := RemoveOne(FindOverlap(root, start, end).value, start, end);
        removed := true;
      }
      FindOverlapIs(root, start, end);
    }

    /** Gives [lo, hi) inside region v a new protection. */
    method Reprotect(v: Vma, lo: int, hi: int, prot: int)
      requires Valid() && v in List() && v.start <= lo < hi <= v.end && 0 <= lo && hi <= WORD64
      modifies this
      ensures Valid() && root == Change(old(root), v, lo, hi, prot)
      ensures forall a :: At(List(), a) == if lo <= a < hi then Some(PageOf(v, a).(prot := prot)) else At(old(List()), a)
    {
      hide Sound, Ordered, InOrder, CutList, At, PutIn, CutOut, PageOf, Overlaps, ListInsert;
      ghost var t := root;
      ghost var a, b := ChangeOrder(root, v, lo, hi, prot);
      forall x ensures At(InOrder(Change(t, v, lo, hi, prot)), x) == if lo <= x < hi then Some(PageOf(v, x).(prot := prot)) else At(InOrder(t), x) {
        ChangeAt(t, v, lo, hi, prot, x);
      }
      var removed := Remove(lo, hi);
      var ok := Add(lo, hi, prot, v.flags, v.fd, (v.offset + (lo - v.start)) % WORD64);
    }

    /**
     Changes the protection of a range. Only protections change, only inside the range, and every mapped address
     of it is reached if and only if no jump over a gap skips one.
     */
    method Mprotect(start: int, end: int, prot: int)
      requires Valid() && 0 <= start && end <= WORD64
      modifies this
      ensures Valid() && root == Mprotected(old(root), start, start, end, prot)
      ensures forall a :: At(List(), a) == At(old(List()), a) || (start <= a < end && At(List(), a) == Under(At(old(List()), a), prot))
      ensures Reached(old(List()), List(), start, end, prot) <==> SkipsNothing(old(root), start, start, end, prot)
    {
      hide Sound, Ordered, InOrder, At, PageOf, Find, FindOverlap, Change, Under, Reached, SkipsNothing;
      ghost var t := root;
      ghost var goal := Mprotected(t, start, start, end, prot);
      forall a ensures Good(goal) && (At(InOrder(goal), a) == At(InOrder(t), a) || (start <= a < end && At(InOrder(goal), a) == Under(At(InOrder(t), a), prot))) {
        MprotectSafe(t, start, start, end, prot, a);
      }
      ReachedIff(t, start, start, end, prot);
      var curr := start;
      while curr < end
        invariant start <= curr && Valid() && Mprotected(root, start, curr, end, prot) == goal
        decreases end - curr
      {
        MoveIs(root, start, curr, end);
        var found := Find(root, curr);
        if found.None? {
          found := FindOverlap(root, curr, end);
          if found.None? { return; }
          curr := found.value.start;
        } else {
          var v := found.value;
          var lo, hi := if v.start > start then v.start else start, if v.end < end then v.end else end;
          Reprotect(v, lo, hi, prot);
          curr := hi;
        }
      }
    }

    /** Replaces two adjacent regions by one. */
    method MergePair(ghost a: seq<Vma>, x: Vma, y: Vma, ghost b: seq<Vma>)
      requires Valid() && List() == a + [x] + [y] + b && Mergeable(x, y)
      modifies this
      ensures Valid() && List() == a + [Merged(x, y)] + b
    {
      hide Sound, Ordered, InOrder, CutList, Sorted, ListInsert;
      TreeSorted(root, 0, WORD64);
      PairApart(a, x, y, b);
      assert x in List() && y in List();
      OrderedBounds(root, 0, WORD64, x);
      OrderedBounds(root, 0, WORD64, y);
      var removed := Remove(x.start, x.end);
      CutExact(a, x, [y] + b);
      assert a + [x] + [y] + b == a + [x] + ([y] + b);
      removed := Remove(y.start, y.end);
      assert a + ([y] + b) == a + [y] + b;
      CutExact(a, y, b);
      var ok := Add(x.start, y.end, x.prot, x.flags, -1, 0);
      InsertBetween(a, b, Merged(x, y));
    }

    /**
     Merges adjacent anonymous regions until none are left. Every address keeps its protection, flags and
     file; only positions of anonymous pages, which mean nothing, may change.
     */
    method MergeAdjacent()
      requires Valid()
      modifies this
      ensures Valid() && count <= old(count)
      ensures forall a :: SameAttributes(At(List(), a), At(old(List()), a))
      ensures forall i :: 0 <= i < |List()| - 1 ==> !Mergeable(List()[i], List()[i + 1])
      ensures forall a :: Joined(List(), a)
    {
      MergePairs();
      TreeSorted(root, 0, WORD64);
      hide Sound, Ordered, InOrder, At, Sorted, Mergeable;
      forall a ensures Joined(List(), a) { JoinedAt(List(), a); }
    }

    /** Merges one adjacent pair after another, gathering the regions anew each time. */
    method MergePairs()
      requires Valid()
      modifies this
      ensures Valid() && count <= old(count)
      ensures forall a :: SameAttributes(At(List(), a), At(old(List()), a))
      ensures forall i :: 0 <= i < |List()| - 1 ==> !Mergeable(List()[i], List()[i + 1])
    {
      hide Sound, Ordered, InOrder, At, Sorted;
      if count < 2 { return; }
      var merged := true;
      while merged
        invariant Valid() && count <= old(count)
        invariant forall a :: SameAttributes(At(List(), a), At(old(List()), a))
        invariant !merged ==> forall i :: 0 <= i < |List()| - 1 ==> !Mergeable(List()[i], List()[i + 1])
        decreases count, merged
      {
        merged := false;
        var arr := InOrder(root);
        var i := 0;
        while i < |arr| - 1
          invariant 0 <= i <= |arr| && forall j :: 0 <= j < i && j < |arr| - 1 ==> !Mergeable(arr[j], arr[j + 1])
        {
          if Mergeable(arr[i], arr[i + 1]) {
            ghost var a, b := arr[..i], arr[i + 2..];
            assert arr == a + [arr[i]] + [arr[i + 1]] + b;
            TreeSorted(root, 0, WORD64);
            forall x ensures SameAttributes(At(a + [Merged(arr[i], arr[i + 1])] + b, x), At(arr, x)) {
              MergedAt(a, arr[i], arr[i + 1], b, x);
            }
            MergePair(a, arr[i], arr[i + 1], b);
            merged := true;
            break;
          }
          i := i + 1;
        }
      }
    }

    /** Adds every region of a source tree: the node itself, then its left and right subtree. */
    method CloneTree(t: Tree, ghost lo: int, ghost hi: int)
      requires Valid() && 0 <= lo && hi <= WORD64 && Ordered(t, lo, hi)
      requires forall v, x :: v in List() && x in InOrder(t) ==> !Overlaps(v, x.start, x.end)
      modifies this
      ensures Valid() && forall v :: v in List() <==> v in old(List()) || v in InOrder(t)
      decreases t
    {
      hide Sound, Ordered;
      if t.Leaf? { return; }
      NodeApart(t, lo, hi);
      var v := t.vma;
      assert v in InOrder(t);
      ghost var s := List();
      var ok := Add(v.start, v.end, v.prot, v.flags, v.fd, v.offset);
      forall x ensures x in List() <==> x in s || x == v { InsertMember(s, v, x); }
      CloneTree(t.left, lo, v.start);
      CloneTree(t.right, v.end, hi);
    }

    /**
     The search for an unmapped interval: the lowest from base on, unless no region lies above it and its end,
     in 64 bits, is past the limit.
     */
    method FindGap(length: int, base: int, limit: int) returns (r: int)
      requires Valid() && 0 < length < WORD64 && 0 <= base < WORD64 && 0 <= limit < WORD64
      ensures forall g :: Lowest(List(), base, length, g) ==> r == GapResult(List(), length, limit, g)
      ensures r != 0 ==> Lowest(List(), base, length, r)
    {
      hide Sound, Ordered, Taken, RegionAbove, Sorted;
      if count == 0 {
        EmptySorted();
        GapAfter([], base, length, base);
        return if (base + length) % WORD64 <= limit then base else 0;
      }
      var arr := InOrder(root);
      TreeSorted(root, 0, WORD64);
      var current, i := base, 0;
      while i < |arr|
        invariant 0 <= i <= |arr| && base <= current
        invariant forall j :: 0 <= j < i ==> arr[j].end <= current
        invariant forall g :: base <= g < current ==> Taken(arr, g, length)
      {
        if arr[i].end > current {
          if arr[i].start > current && arr[i].start - current >= length {
            GapBefore(arr, i, base, length, current);
            if current != 0 { return current; }
            break;
          }
          NoGapBefore(arr, i, length, current);
          current := arr[i].end;
        }
        i := i + 1;
      }
      if i == |arr| { GapAfter(arr, base, length, current); }
      r := if (current + length) % WORD64 <= limit then current else 0;
    }
  }

  /** Some region overlaps the `length` addresses from g on. */
  ghost predicate Taken(s: seq<Vma>, g: int, length: int) {
    exists v :: v in s && Overlaps(v, g, g + length)
  }

  /** g is the lowest place from base on that no region overlaps. */
  ghost predicate Lowest(s: seq<Vma>, base: int, length: int, g: int) {
    base <= g && !Taken(s, g, length) && forall h :: base <= h < g ==> Taken(s, h, length)
  }

  /** Some region lies above the interval of that length at g. */
  ghost predicate RegionAbove(s: seq<Vma>, g: int, length: int) {
    exists v :: v in s && g + length <= v.start
  }

  /** What the search returns when g is the lowest place: the limit counts only past the last region, in 64 bits. */
  ghost function GapResult(s: seq<Vma>, length: int, limit: int, g: int): int {
    if RegionAbove(s, g, length) || (g + length) % WORD64 <= limit then g else 0
  }

  lemma LowestUnique(s: seq<Vma>, base: int, length: int, g: int)
    requires Lowest(s, base, length, g)
    ensures forall h :: Lowest(s, base, length, h) ==> h == g
  {
  }

  lemma NoGapBefore(s: seq<Vma>, i: int, length: int, g: int)
    requires 0 <= i < |s| && s[i].start < g + length && length > 0
    ensures forall h :: g <= h < s[i].end ==> Taken(s, h, length)
  {
    forall h | g <= h < s[i].end ensures Taken(s, h, length) { assert s[i] in s && Overlaps(s[i], h, h + length); }
  }

  /** A large enough gap before region i. */
  lemma GapBefore(s: seq<Vma>, i: int, base: int, length: int, g: int)
    requires Sorted(s) && 0 <= i < |s| && base <= g && g + length <= s[i].start && length > 0
    requires forall j :: 0 <= j < i ==> s[j].end <= g
    requires forall h :: base <= h < g ==> Taken(s, h, length)
    ensures Lowest(s, base, length, g) && RegionAbove(s, g, length)
    ensures forall h :: Lowest(s, base, length, h) ==> h == g
  {
    forall v | v in s ensures !Overlaps(v, g, g + length) {
      var j :| 0 <= j < |s| && s[j] == v;
      if j > i { assert s[i].end <= s[j].start; }
    }
    LowestUnique(s, base, length, g);
    assert s[i] in s;
  }

  /** The place past all regions. */
  lemma GapAfter(s: seq<Vma>, base: int, length: int, g: int)
    requires Sorted(s) && base <= g && length > 0
    requires forall j :: 0 <= j < |s| ==> s[j].end <= g
    requires forall h :: base <= h < g ==> Taken(s, h, length)
    ensures Lowest(s, base, length, g) && !RegionAbove(s, g, length)
    ensures forall h :: Lowest(s, base, length, h) ==> h == g
  {
    LowestUnique(s, base, length, g);
  }

  /** There is a free place between base and limit. */
  ghost predicate Fits(s: seq<Vma>, base: int, limit: int, length: int) {
    exists g :: base <= g && g + length <= limit && !Taken(s, g, length)
  }

  /** What a caller is promised: the lowest free place between base and limit, and 0 if there is none. */
  ghost predicate GapPromise(s: seq<Vma>, base: int, limit: int, length: int, r: int) {
    if Fits(s, base, limit, length) then Lowest(s, base, length, r) && r + length <= limit else r == 0
  }

  lemma LowestFits(s: seq<Vma>, base: int, limit: int, length: int, g: int)
    requires Lowest(s, base, length, g)
    ensures Fits(s, base, limit, length) <==> g + length <= limit
  {
    if h :| base <= h && h + length <= limit && !Taken(s, h, length) { assert g <= h; }
  }

  /**
   The promise is kept if and only if the lowest free place ends at the limit or below, or no region lies above
   it and its end does not wrap to the limit or below.
   */
  lemma FindGapExactIff(s: seq<Vma>, base: int, limit: int, length: int, g: int)
    requires Lowest(s, base, length, g) && 0 < base && 0 < length && limit < WORD64
    ensures GapPromise(s, base, limit, length, GapResult(s, length, limit, g))
      <==> g + length <= limit || (!RegionAbove(s, g, length) && (g + length) % WORD64 > limit)
  {
    LowestFits(s, base, limit, length, g);
  }

  /** Enough for a caller: no region above the limit, and no region nor base so high that the length wraps. */
  lemma FindGapSafe(s: seq<Vma>, base: int, limit: int, length: int, g: int)
    requires Lowest(s, base, length, g) && 0 < base && 0 < length && limit < WORD64 && base + length < WORD64
    requires forall v :: v in s ==> v.start <= limit && v.end + length < WORD64
    ensures GapPromise(s, base, limit, length, GapResult(s, length, limit, g))
  {
    FindGapExactIff(s, base, limit, length, g);
    if g > base {
      assert Taken(s, g - 1, length);
      var v :| v in s && Overlaps(v, g - 1, g - 1 + length);
      assert !Overlaps(v, g, g + length);
    }
  }

  /** A gap between two regions is handed out although it ends past the limit. */
  lemma GapOversteps()
    ensures var s := [Vma(10, 20, 1, 2, -1, 0), Vma(100, 110, 1, 2, -1, 0)];
      Lowest(s, 10, 50, 20) && GapResult(s, 50, 40, 20) == 20 && !Fits(s, 10, 40, 50)
  {
    var s := [Vma(10, 20, 1, 2, -1, 0), Vma(100, 110, 1, 2, -1, 0)];
    assert s[0] in s && s[1] in s;
    forall h | 10 <= h < 20 ensures Taken(s, h, 50) { assert Overlaps(s[0], h, h + 50); }
    LowestFits(s, 10, 40, 50, 20);
  }

  /** Past the last region the sum wraps, and a place that ends beyond the address space is handed out. */
  lemma GapWraps()
    ensures var top := WORD64 - 10;
      var s := [Vma(10, top, 1, 2, -1, 0)];
      Lowest(s, 10, 20, top) && GapResult(s, 20, 100, top) == top && !Fits(s, 10, 100, 20)
  {
    var top := WORD64 - 10;
    var s := [Vma(10, top, 1, 2, -1, 0)];
    assert s[0] in s;
    forall h | 10 <= h < top ensures Taken(s, h, 20) { assert Overlaps(s[0], h, h + 20); }
    LowestFits(s, 10, 100, 20, top);
  }

  // ---------------------------------------------------------------- merging

  predicate Mergeable(x: Vma, y: Vma) {
    x.end == y.start && x.prot == y.prot && x.flags == y.flags && x.fd == -1 && y.fd == -1
  }

  /** Two mapped, anonymous pages of the same protection and flags. */
  predicate Alike(p: Option<Page>, q: Option<Page>) {
    p.Some? && q.Some? && p.value.prot == q.value.prot && p.value.flags == q.value.flags && p.value.fd == -1 && q.value.fd == -1
  }

  /** If address a and the next are alike, one region covers both. */
  ghost predicate Joined(s: seq<Vma>, a: int) {
    Alike(At(s, a), At(s, a + 1)) ==> exists v :: v in s && Covers(v, a) && Covers(v, a + 1)
  }

  /** With no mergeable neighbours left, alike neighbouring addresses lie in one region. */
  lemma JoinedAt(s: seq<Vma>, a: int)
    requires Sorted(s) && forall i :: 0 <= i < |s| - 1 ==> !Mergeable(s[i], s[i + 1])
    ensures Joined(s, a)
  {
    if Alike(At(s, a), At(s, a + 1)) {
      var i := CoveredAt(s, a);
      var j := CoveredAt(s, a + 1);
      if i != j {
        assert i < j && s[i].end == s[j].start == a + 1;
        var m := i + 1;
        assert s[m].start < s[m].end;
        assert Mergeable(s[i], s[j]);
      }
      assert s[i] in s;
    }
  }

  lemma {:induction false} CoveredAt(s: seq<Vma>, a: int) returns (i: int)
    requires At(s, a).Some?
    ensures 0 <= i < |s| && Covers(s[i], a) && At(s, a) == Some(PageOf(s[i], a))
  {
    if Covers(s[0], a) { return 0; }
    i := CoveredAt(s[1..], a);
    i := i + 1;
  }

  function Merged(x: Vma, y: Vma): Vma { Vma(x.start, y.end, x.prot, x.flags, -1, 0) }

  predicate SameAttributes(p: Option<Page>, q: Option<Page>) {
    p == q || (p.Some? && q.Some? && q.value.fd == -1 && p.value == q.value.(pos := p.value.pos))
  }

  lemma PairApart(a: seq<Vma>, x: Vma, y: Vma, b: seq<Vma>)
    requires Sorted(a + [x] + [y] + b)
    ensures x.start < x.end <= y.start < y.end
    ensures forall v :: v in a ==> v.start < v.end <= x.start
    ensures forall v :: v in b ==> y.end <= v.start < v.end
  {
    var s := a + [x] + [y] + b;
    var n := |a|;
    assert s[n] == x && s[n + 1] == y;
    forall v | v in a ensures v.start < v.end <= x.start {
      var i :| 0 <= i < n && a[i] == v;
      assert s[i] == v;
    }
    forall v | v in b ensures y.end <= v.start < v.end {
      var i :| 0 <= i < |b| && b[i] == v;
      assert s[n + 2 + i] == v;
    }
  }

  /** Unmapping exactly one region's range takes out exactly that region. */
  lemma CutExact(a: seq<Vma>, v: Vma, b: seq<Vma>)
    requires v.start < v.end
    requires forall x :: x in a ==> x.end <= v.start
    requires forall x :: x in b ==> v.end <= x.start
    ensures CutList(a + [v] + b, v.start, v.end) == a + b
  {
    hide CutList, Pieces;
    CutAppend(a + [v], b, v.start, v.end);
    CutAppend(a, [v], v.start, v.end);
    CutOne(v, v.start, v.end);
    NoPieces(v);
    CutNothing(a, v.start, v.end);
    CutNothing(b, v.start, v.end);
  }

  lemma NoPieces(v: Vma)
    ensures v.start < v.end ==> Pieces(v, v.start, v.end) == []
  {
  }

  lemma MergedAt(a: seq<Vma>, x: Vma, y: Vma, b: seq<Vma>, p: int)
    requires Sorted(a + [x] + [y] + b) && Mergeable(x, y)
    ensures SameAttributes(At(a + [Merged(x, y)] + b, p), At(a + [x] + [y] + b, p))
  {
    PairApart(a, x, y, b);
    AtSplit(a + [Merged(x, y)], b, p);
    AtSplit(a, [Merged(x, y)], p);
    AtSplit(a + [x] + [y], b, p);
    AtSplit(a + [x], [y], p);
    AtSplit(a, [x], p);
    assert [x][1..] == [] && [y][1..] == [] && [Merged(x, y)][1..] == [];
  }

  // ---------------------------------------------------------------- cloning

  lemma {:induction false} InsertMember(s: seq<Vma>, v: Vma, x: Vma)
    ensures x in ListInsert(s, v) <==> x in s || x == v
  {
    if s != [] && v.start >= s[0].start { InsertMember(s[1..], v, x); }
  }

  /** The parts of an ordered tree lie apart. */
  lemma NodeApart(t: Tree, lo: int, hi: int)
    requires t.Node? && Ordered(t, lo, hi)
    ensures lo <= t.vma.start < t.vma.end <= hi && Ordered(t.left, lo, t.vma.start) && Ordered(t.right, t.vma.end, hi)
    ensures forall x :: x in InOrder(t.left) ==> x.start < x.end <= t.vma.start
    ensures forall x :: x in InOrder(t.right) ==> t.vma.end <= x.start < x.end
  {
    forall x | x in InOrder(t.left) ensures x.start < x.end <= t.vma.start { OrderedBounds(t.left, lo, t.vma.start, x); }
    forall x | x in InOrder(t.right) ensures t.vma.end <= x.start < x.end { OrderedBounds(t.right, t.vma.end, hi, x); }
  }

  lemma HeadMember(t: seq<Vma>)
    ensures t == [] || t[0] in t
  {
  }

  /** A sorted list is determined by its members, so a clone lists exactly what its source lists. */
  lemma {:induction false} SortedSame(s: seq<Vma>, t: seq<Vma>)
    requires Sorted(s) && Sorted(t) && forall v :: v in s <==> v in t
    ensures s == t
  {
    HeadMember(t);
    if s != [] {
      assert s[0] in s && s[0] in t;
      assert t[0] in t && t[0] in s;
      assert s[0] == t[0];
      forall v ensures v in s[1..] <==> v in t[1..] {
        assert s[0] !in s[1..] && t[0] !in t[1..];
        assert v in s <==> v == s[0] || v in s[1..];
        assert v in t <==> v == t[0] || v in t[1..];
      }
      SortedSame(s[1..], t[1..]);
    }
  }

  // ---------------------------------------------------------------- insertion, loose ends

  lemma {:induction false} InsertLength(s: seq<Vma>, v: Vma)
    ensures |ListInsert(s, v)| == |s| + 1
  {
    if s != [] && v.start >= s[0].start { InsertLength(s[1..], v); }
  }

  /** An empty or reversed interval either makes the tree ill ordered or is lost on a start already taken. */
  lemma InsertEmpty(t: Tree, v: Vma, lo: int, hi: int)
    requires v.start >= v.end
    ensures !Ordered(Insert(t, v), lo, hi) || |InOrder(Insert(t, v))| == |InOrder(t)|
  {
    InsertAny(t, v);
    if v in InOrder(Insert(t, v)) && Ordered(Insert(t, v), lo, hi) {
      OrderedBounds(Insert(t, v), lo, hi, v);
    }
  }

  lemma {:induction false} InsertAny(t: Tree, v: Vma)
    ensures v in InOrder(Insert(t, v)) || |InOrder(Insert(t, v))| == |InOrder(t)|
  {
    hide FixInsert;
    if t.Node? {
      if v.start < t.vma.start {
        InsertAny(t.left, v);
        FixInsertOrder(Make(Insert(t.left, v), t.vma, t.right), v.start, 0, 0);
      } else if v.start > t.vma.start {
        InsertAny(t.right, v);
        FixInsertOrder(Make(t.left, t.vma, Insert(t.right, v)), v.start, 0, 0);
      }
    }
  }

  // ---------------------------------------------------------------- where the code departs from the promise

  /** Unmapping removes exactly [start, end), except when the range is reversed inside one region. */
  lemma RemoveExactIff(s: seq<Vma>, start: int, end: int)
    requires Sorted(s)
    ensures (forall a :: At(CutList(s, start, end), a) == if start <= a < end then None else At(s, a))
      <==> start <= end || forall v :: v in s ==> !Overlaps(v, start, end)
  {
    hide CutList, Pieces;
    forall a ensures At(CutList(s, start, end), a) == if Gone(s, start, end, a) then None else At(s, a) {
      CutAt(s, start, end, a);
    }
    if end < start {
      if v :| v in s && Overlaps(v, start, end) {
        AtMember(s, v, start);
        assert Gone(s, start, end, start);
        assert At(CutList(s, start, end), start) != At(s, start);
      } else {
        CutNothing(s, start, end);
      }
    }
  }

  /** Unmapping the reversed range from 8 to 5 of a region of ten addresses loses its last two. */
  lemma ReversedRemoveLoses()
    ensures var v := Vma(0, 10, 1, 2, -1, 0); CutList([v], 8, 5) == [v.(end := 8)]
  {
    CutOne(Vma(0, 10, 1, 2, -1, 0), 8, 5);
  }
}
