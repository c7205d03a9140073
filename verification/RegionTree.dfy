/**
 What mapping, unmapping and re-protecting do to the tree of regions, as functions of the tree, and what
 they do to the list of regions and to the address map.
 */
module RegionTree {
  import opened AvlTree
  import opened Basics
  import opened Regions

  ghost predicate Good(t: Tree) { Sound(t) && Ordered(t, 0, WORD64) }

  // ---------------------------------------------------------------- mapping

  /** The tree after a request to map v, which is refused if it overlaps a region. */
  function PutIn(t: Tree, v: Vma): Tree {
    if FindOverlap(t, v.start, v.end).Some? then t else Insert(t, v)
  }

  lemma PutInOrder(t: Tree, v: Vma)
    requires Good(t) && 0 <= v.start < v.end <= WORD64
    requires forall x :: x in InOrder(t) ==> !Overlaps(x, v.start, v.end)
    ensures Good(PutIn(t, v)) && InOrder(PutIn(t, v)) == ListInsert(InOrder(t), v)
  {
    hide Sound, Ordered, InOrder, Insert, ListInsert, Overlaps;
    FindOverlapScan(t, v.start, v.end);
    InsertSound(t, v);
    InsertOrder(t, v, 0, WORD64);
  }

  /** Mapping a disjoint region extends the address map exactly on it. */
  lemma InsertAt(s: seq<Vma>, v: Vma, a: int)
    requires Sorted(s) && v.start < v.end && forall x :: x in s ==> !Overlaps(x, v.start, v.end)
    ensures At(ListInsert(s, v), a) == if Covers(v, a) then Some(PageOf(v, a)) else At(s, a)
  {
    hide PageOf;
    if s != [] {
      assert s[0] in s;
      if v.start < s[0].start {
        assert ([v] + s)[1..] == s;
      } else {
        InsertAt(s[1..], v, a);
        assert ListInsert(s, v)[1..] == ListInsert(s[1..], v);
      }
    } else {
      assert [v][1..] == [];
    }
  }

  // ---------------------------------------------------------------- unmapping

  /** The part of v from address e on, with its position in the file. */
  function Above(v: Vma, e: int): Vma { v.(start := e, offset := (v.offset + (e - v.start)) % WORD64) }

  /** The tree after one overlapping region was taken out and its remaining pieces were put back. */
  function CutRegion(t: Tree, v: Vma, start: int, end: int): Tree {
    var u := Delete(t, v.start);
    if start > v.start && end < v.end then PutIn(PutIn(u, v.(end := start)), Above(v, end))
    else if start <= v.start && end > v.start && end < v.end then PutIn(u, Above(v, end))
    else if end >= v.end && start > v.start && start < v.end then PutIn(u, v.(end := start))
    else u
  }

  /** A region taken out; a and b are the regions below and above it. */
  lemma TakenOut(t: Tree, v: Vma) returns (a: seq<Vma>, b: seq<Vma>)
    requires Good(t) && v in InOrder(t)
    ensures Good(Delete(t, v.start)) && InOrder(t) == a + [v] + b && InOrder(Delete(t, v.start)) == a + b
    ensures 0 <= v.start < v.end <= WORD64 && Sorted(a) && Sorted(b)
    ensures forall x :: x in a ==> x.start < x.end <= v.start
    ensures forall x :: x in b ==> v.end <= x.start < x.end
  {
    hide Sound, Ordered, InOrder, Delete, ListDelete, Sorted;
    TreeSorted(t, 0, WORD64);
    a, b := Around(InOrder(t), v);
    OrderedBounds(t, 0, WORD64, v);
    DeleteSound(t, v.start);
    DeleteOrder(t, v.start, 0, WORD64);
    DeleteBetween(a, v, b);
  }

  /** Putting one region between those below and those above it. */
  lemma PutBetween(t: Tree, a: seq<Vma>, b: seq<Vma>, v: Vma)
    requires Good(t) && InOrder(t) == a + b && 0 <= v.start < v.end <= WORD64
    requires forall x :: x in a ==> x.start < x.end <= v.start
    requires forall x :: x in b ==> v.end <= x.start < x.end
    ensures Good(PutIn(t, v)) && InOrder(PutIn(t, v)) == a + [v] + b
  {
    hide Good, InOrder, ListInsert, PutIn;
    PutInOrder(t, v);
    InsertBetween(a, b, v);
  }

  /** A request that overlaps a region is refused. */
  lemma PutRefused(t: Tree, v: Vma, x: Vma)
    requires Good(t) && x in InOrder(t) && Overlaps(x, v.start, v.end)
    ensures PutIn(t, v) == t
  {
    hide Sound, Ordered, InOrder, Insert, Overlaps;
    FindOverlapScan(t, v.start, v.end);
  }

  lemma CutRegionOrder(t: Tree, v: Vma, start: int, end: int) returns (a: seq<Vma>, b: seq<Vma>)
    requires Good(t) && 0 <= start && end <= WORD64 && v in InOrder(t) && Overlaps(v, start, end)
    ensures Good(CutRegion(t, v, start, end))
    ensures InOrder(t) == a + [v] + b && InOrder(CutRegion(t, v, start, end)) == a + Pieces(v, start, end) + b
  {
    hide Good, InOrder, PutIn, Delete, Sorted, Pieces;
    a, b := TakenOut(t, v);
    var u := Delete(t, v.start);
    PiecesAre(v, start, end);
    if start > v.start && end < v.end {
      CutMiddle(u, a, v, b, start, end);
    } else if start <= v.start && end > v.start && end < v.end {
      PutBetween(u, a, b, Above(v, end));
    } else if end >= v.end && start > v.start && start < v.end {
      PutBetween(u, a, b, v.(end := start));
    } else {
      assert a + [] + b == a + b;
    }
  }

  /** The pieces in each of the four cases; of a reversed range inside the region the upper one is refused. */
  lemma PiecesAre(v: Vma, start: int, end: int)
    requires Overlaps(v, start, end)
    ensures start > v.start && end < v.end ==> Pieces(v, start, end) == if start <= end then [v.(end := start), Above(v, end)] else [v.(end := start)]
    ensures start <= v.start && end < v.end ==> Pieces(v, start, end) == [Above(v, end)]
    ensures end >= v.end && start > v.start ==> Pieces(v, start, end) == [v.(end := start)]
    ensures end >= v.end && start <= v.start ==> Pieces(v, start, end) == []
  {
  }

  lemma CutMiddle(u: Tree, a: seq<Vma>, v: Vma, b: seq<Vma>, start: int, end: int)
    requires Good(u) && InOrder(u) == a + b && 0 <= v.start < start && end < v.end <= WORD64 && start < v.end && end > v.start
    requires forall x :: x in a ==> x.start < x.end <= v.start
    requires forall x :: x in b ==> v.end <= x.start < x.end
    ensures var l, r := v.(end := start), Above(v, end);
      var w := PutIn(PutIn(u, l), r);
      Good(w) && InOrder(w) == a + (if start <= end then [l, r] else [l]) + b
  {
    hide Good, InOrder, PutIn;
    var l, r := v.(end := start), Above(v, end);
    PutBetween(u, a, b, l);
    if start <= end {
      PutBetween(PutIn(u, l), a + [l], b, r);
      assert a + [l] + [r] + b == a + [l, r] + b;
    } else {
      assert l in a + [l] + b;
      PutRefused(PutIn(u, l), r, l);
    }
  }

  /** The tree after regions that overlap the range were cut one after the other. */
  function CutOut(t: Tree, start: int, end: int): Tree
    requires Good(t) && 0 <= start && end <= WORD64
    decreases CountOverlaps(InOrder(t), start, end)
  {
    match FindOverlap(t, start, end)
    case None => t
    case Some(v) =>
      CutRegionFewer(t, start, end);
      CutOut(CutRegion(t, v, start, end), start, end)
  }

  lemma CutRegionFewer(t: Tree, start: int, end: int)
    requires Good(t) && 0 <= start && end <= WORD64 && FindOverlap(t, start, end).Some?
    ensures var u := CutRegion(t, FindOverlap(t, start, end).value, start, end);
      && Good(u) && CountOverlaps(InOrder(u), start, end) < CountOverlaps(InOrder(t), start, end)
      && CutList(InOrder(u), start, end) == CutList(InOrder(t), start, end)
  {
    hide Sound, Ordered, InOrder, CutRegion, CountOverlaps, Pieces, CutList, FindOverlap, Overlaps;
    FindOverlapScan(t, start, end);
    var v := FindOverlap(t, start, end).value;
    var a, b := CutRegionOrder(t, v, start, end);
    CutStep(a, v, b, start, end);
    FewerOverlaps(a, v, b, start, end);
  }

  /** Unmapping cuts every region of the list. */
  lemma {:induction false} CutOutOrder(t: Tree, start: int, end: int)
    requires Good(t) && 0 <= start && end <= WORD64
    ensures Good(CutOut(t, start, end)) && InOrder(CutOut(t, start, end)) == CutList(InOrder(t), start, end)
    decreases CountOverlaps(InOrder(t), start, end)
  {
    hide Good, InOrder, CutRegion, CountOverlaps, CutList, FindOverlap, Overlaps;
    FindOverlapIs(t, start, end);
    if FindOverlap(t, start, end).Some? {
      CutRegionFewer(t, start, end);
      CutOutOrder(CutRegion(t, FindOverlap(t, start, end).value, start, end), start, end);
    } else {
      CutNothing(InOrder(t), start, end);
    }
  }

  lemma FindOverlapIs(t: Tree, start: int, end: int)
    requires Good(t)
    ensures FindOverlap(t, start, end).None? <==> forall v :: v in InOrder(t) ==> !Overlaps(v, start, end)
    ensures FindOverlap(t, start, end).Some? ==> FindOverlap(t, start, end).value in InOrder(t) && Overlaps(FindOverlap(t, start, end).value, start, end)
  {
    hide Overlaps, FindOverlap, Ordered, Sound, InOrder;
    FindOverlapScan(t, start, end);
  }

  // ---------------------------------------------------------------- termination of unmapping

  function CountOverlaps(s: seq<Vma>, start: int, end: int): (n: nat) {
    if s == [] then 0 else (if Overlaps(s[0], start, end) then 1 else 0) + CountOverlaps(s[1..], start, end)
  }

  lemma {:induction false} CountAppend(a: seq<Vma>, b: seq<Vma>, start: int, end: int)
    ensures CountOverlaps(a + b, start, end) == CountOverlaps(a, start, end) + CountOverlaps(b, start, end)
  {
    if a == [] {
      assert a + b == b;
    } else {
      assert (a + b)[1..] == a[1..] + b;
      CountAppend(a[1..], b, start, end);
    }
  }

  lemma {:induction false} CountNone(s: seq<Vma>, start: int, end: int)
    requires forall v :: v in s ==> !Overlaps(v, start, end)
    ensures CountOverlaps(s, start, end) == 0
  {
    if s != [] {
      assert s[0] in s;
      CountNone(s[1..], start, end);
    }
  }

  lemma FewerOverlaps(a: seq<Vma>, v: Vma, b: seq<Vma>, start: int, end: int)
    requires Overlaps(v, start, end)
    ensures CountOverlaps(a + Pieces(v, start, end) + b, start, end) < CountOverlaps(a + [v] + b, start, end)
  {
    var p := Pieces(v, start, end);
    CountAppend(a + p, b, start, end);
    CountAppend(a, p, start, end);
    CountAppend(a + [v], b, start, end);
    CountAppend(a, [v], start, end);
    CountNone(p, start, end);
    assert [v][1..] == [];
  }

  // ---------------------------------------------------------------- re-protecting

  /** The part [lo, hi) of v under a new protection. */
  function Segment(v: Vma, lo: int, hi: int, prot: int): Vma {
    Vma(lo, hi, prot, v.flags, v.fd, (v.offset + (lo - v.start)) % WORD64)
  }

  function Change(t: Tree, v: Vma, lo: int, hi: int, prot: int): Tree
    requires Good(t) && 0 <= lo && hi <= WORD64
  {
    PutIn(CutOut(t, lo, hi), Segment(v, lo, hi, prot))
  }

  /** What is left of v below lo and above hi. */
  function Below(v: Vma, lo: int): seq<Vma> { if v.start < lo then [v.(end := lo)] else [] }

  function Beyond(v: Vma, hi: int): seq<Vma> { if hi < v.end then [Above(v, hi)] else [] }

  /** The list after part of a region was re-protected. */
  lemma ChangeOrder(t: Tree, v: Vma, lo: int, hi: int, prot: int) returns (a: seq<Vma>, b: seq<Vma>)
    requires Good(t) && v in InOrder(t) && v.start <= lo < hi <= v.end && 0 <= lo && hi <= WORD64
    ensures Good(Change(t, v, lo, hi, prot))
    ensures InOrder(t) == a + [v] + b
    ensures InOrder(Change(t, v, lo, hi, prot)) == a + Below(v, lo) + [Segment(v, lo, hi, prot)] + (Beyond(v, hi) + b)
    ensures forall x :: x in a ==> x.start < x.end <= v.start
    ensures forall x :: x in b ==> v.end <= x.start < x.end
  {
    hide Good, InOrder, PutIn, CutOut, CutList, Delete, Sorted;
    a, b := TakenOut(t, v);
    CutOutOrder(t, lo, hi);
    CutAround(a, v, b, lo, hi);
    PutBetween(CutOut(t, lo, hi), a + Below(v, lo), Beyond(v, hi) + b, Segment(v, lo, hi, prot));
  }

  lemma CutAround(a: seq<Vma>, v: Vma, b: seq<Vma>, lo: int, hi: int)
    requires v.start <= lo < hi <= v.end
    requires forall x :: x in a ==> x.start < x.end <= v.start
    requires forall x :: x in b ==> v.end <= x.start < x.end
    ensures CutList(a + [v] + b, lo, hi) == a + Below(v, lo) + (Beyond(v, hi) + b)
  {
    hide CutList;
    CutAppend(a + [v], b, lo, hi);
    CutAppend(a, [v], lo, hi);
    CutOne(v, lo, hi);
    CutNothing(a, lo, hi);
    CutNothing(b, lo, hi);
  }

  /** The address map after part of a region was re-protected. */
  lemma ChangeAt(t: Tree, v: Vma, lo: int, hi: int, prot: int, x: int)
    requires Good(t) && v in InOrder(t) && v.start <= lo < hi <= v.end && 0 <= lo && hi <= WORD64
    ensures Good(Change(t, v, lo, hi, prot))
    ensures At(InOrder(Change(t, v, lo, hi, prot)), x)
      == if lo <= x < hi then Some(PageOf(v, x).(prot := prot)) else At(InOrder(t), x)
    ensures lo <= x < hi ==> At(InOrder(t), x) == Some(PageOf(v, x))
  {
    hide Good, InOrder, At, Change, PageOf;
    var a, b := ChangeOrder(t, v, lo, hi, prot);
    AtSplit(a + [v], b, x);
    AtSplit(a, [v], x);
    AtSplit(a + Below(v, lo) + [Segment(v, lo, hi, prot)], Beyond(v, hi) + b, x);
    AtSplit(a + Below(v, lo), [Segment(v, lo, hi, prot)], x);
    AtSplit(a, Below(v, lo), x);
    AtSplit(Beyond(v, hi), b, x);
    AtNone(a, x);
    AtParts(v, lo, hi, prot, x);
  }

  /** The three parts of a region cover what it covered, with the same positions. */
  lemma AtParts(v: Vma, lo: int, hi: int, prot: int, x: int)
    requires v.start <= lo < hi <= v.end
    ensures At([v], x) == if Covers(v, x) then Some(PageOf(v, x)) else None
    ensures At(Below(v, lo), x) == if v.start <= x < lo then Some(PageOf(v, x)) else None
    ensures At([Segment(v, lo, hi, prot)], x) == if lo <= x < hi then Some(PageOf(v, x).(prot := prot)) else None
    ensures At(Beyond(v, hi), x) == if hi <= x < v.end then Some(PageOf(v, x)) else None
  {
    SamePosition(v.offset, lo - v.start, x - lo);
    SamePosition(v.offset, hi - v.start, x - hi);
  }
}
