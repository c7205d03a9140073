/**
 The protection change of a range, as a function of the tree of regions: which pages it reaches, and exactly
 when it reaches all of them.
 */
module Protection {
  import opened AvlTree
  import opened Basics
  import opened Regions
  import opened RegionTree

  /** What the loop does at an address: stop, go on at another region, or re-protect part of one. */
  datatype Move = Stop | Jump(region: Vma) | Set(region: Vma, lo: int, hi: int)

  function NextMove(t: Tree, start: int, curr: int, end: int): Move {
    if curr >= end then Stop
    else match Find(t, curr)
      case Some(v) => Set(v, Max(v.start, start), if v.end < end then v.end else end)
      case None =>
        match FindOverlap(t, curr, end)
        case None => Stop
        case Some(w) => Jump(w)
  }

  lemma MoveIs(t: Tree, start: int, curr: int, end: int)
    requires Good(t) && 0 <= start <= curr && end <= WORD64
    ensures match NextMove(t, start, curr, end)
      case Stop => curr >= end || forall x :: x in InOrder(t) ==> !Overlaps(x, curr, end)
      case Jump(w) => w in InOrder(t) && curr < w.start < w.end && w.start < end && At(InOrder(t), curr).None?
      case Set(v, lo, hi) => v in InOrder(t) && v.start <= lo <= curr < hi <= v.end && hi <= end && start <= lo && (hi < end ==> hi == v.end)
  {
    hide InOrder, Sound, Ordered, Find, FindOverlap, At;
    FindScan(t, curr);
    FindOverlapScan(t, curr, end);
    FindAt(t, 0, WORD64, curr);
    var f := FindOverlap(t, curr, end);
    if f.Some? { OrderedBounds(t, 0, WORD64, f.value); }
  }

  /** The tree after the loop went on from `curr`. */
  function Mprotected(t: Tree, start: int, curr: int, end: int, prot: int): Tree
    requires Good(t) && 0 <= start <= curr && end <= WORD64
    decreases end - curr
  {
    MoveIs(t, start, curr, end);
    match NextMove(t, start, curr, end)
    case Stop => t
    case Jump(w) => Mprotected(t, start, w.start, end, prot)
    case Set(v, lo, hi) =>
      ChangeAt(t, v, lo, hi, prot, 0);
      Mprotected(Change(t, v, lo, hi, prot), start, hi, end, prot)
  }

  /** Every jump passes over regions only that have the new protection already. */
  ghost predicate SkipsNothing(t: Tree, start: int, curr: int, end: int, prot: int)
    requires Good(t) && 0 <= start <= curr && end <= WORD64
    decreases end - curr
  {
    MoveIs(t, start, curr, end);
    match NextMove(t, start, curr, end)
    case Stop => true
    case Jump(w) =>
      && AllHave(InOrder(t), curr, w.start, prot)
      && SkipsNothing(t, start, w.start, end, prot)
    case Set(v, lo, hi) =>
      ChangeAt(t, v, lo, hi, prot, 0);
      SkipsNothing(Change(t, v, lo, hi, prot), start, hi, end, prot)
  }

  function Under(p: Option<Page>, prot: int): Option<Page> {
    if p.None? then None else Some(p.value.(prot := prot))
  }

  /** Only protections change and only inside the range; nothing is mapped or unmapped. */
  lemma {:induction false} MprotectSafe(t: Tree, start: int, curr: int, end: int, prot: int, a: int)
    requires Good(t) && 0 <= start <= curr && end <= WORD64
    ensures var r := Mprotected(t, start, curr, end, prot);
      Good(r) && (At(InOrder(r), a) == At(InOrder(t), a) || (start <= a < end && At(InOrder(r), a) == Under(At(InOrder(t), a), prot)))
    decreases end - curr
  {
    hide Good, InOrder, At, Change, NextMove, PageOf;
    MoveIs(t, start, curr, end);
    match NextMove(t, start, curr, end) {
      case Stop =>
      case Jump(w) => MprotectSafe(t, start, w.start, end, prot, a);
      case Set(v, lo, hi) =>
        ChangeAt(t, v, lo, hi, prot, a);
        MprotectSafe(Change(t, v, lo, hi, prot), start, hi, end, prot, a);
    }
  }

  /** Every mapped address from `curr` on ends with the new protection. */
  ghost predicate Reached(s: seq<Vma>, s': seq<Vma>, curr: int, end: int, prot: int) {
    forall a :: curr <= a < end ==> At(s', a) == Under(At(s, a), prot)
  }

  /** The law of the whole range: every mapped address ends with the new protection if and only if no jump skips one without it. */
  lemma {:induction false} ReachedIff(t: Tree, start: int, curr: int, end: int, prot: int)
    requires Good(t) && 0 <= start <= curr && end <= WORD64
    ensures Reached(InOrder(t), InOrder(Mprotected(t, start, curr, end, prot)), curr, end, prot) <==> SkipsNothing(t, start, curr, end, prot)
    decreases end - curr
  {
    hide Good, InOrder, At, Change, NextMove, PageOf, Overlaps, Reached;
    MoveIs(t, start, curr, end);
    match NextMove(t, start, curr, end) {
      case Stop => StopReaches(t, curr, end, prot);
      case Jump(w) =>
        ReachedIff(t, start, w.start, end, prot);
        JumpReaches(t, start, curr, w, end, prot);
      case Set(v, lo, hi) =>
        ChangeAt(t, v, lo, hi, prot, 0);
        ReachedIff(Change(t, v, lo, hi, prot), start, hi, end, prot);
        SetReaches(t, v, start, curr, lo, hi, end, prot);
    }
  }

  lemma StopReaches(t: Tree, curr: int, end: int, prot: int)
    requires curr >= end || forall x :: x in InOrder(t) ==> !Overlaps(x, curr, end)
    ensures Reached(InOrder(t), InOrder(t), curr, end, prot)
  {
    hide At, InOrder;
    forall a | curr <= a < end ensures At(InOrder(t), a).None? { AtNone(InOrder(t), a); }
  }

  /** No region begins before `curr` and goes on past it, unless nothing was done yet or everything is. */
  ghost predicate Edge(t: Tree, start: int, curr: int, end: int) {
    curr == start || curr >= end || forall x :: x in InOrder(t) ==> x.end <= curr || curr <= x.start
  }

  lemma JumpEdge(t: Tree, start: int, w: Vma, end: int)
    requires Good(t) && w in InOrder(t)
    ensures Edge(t, start, w.start, end)
  {
    hide InOrder, Sound, Ordered, Sorted;
    TreeSorted(t, 0, WORD64);
    OrderedBounds(t, 0, WORD64, w);
    var a, b := Around(InOrder(t), w);
    assert forall x :: x in InOrder(t) ==> x in a || x == w || x in b;
  }

  lemma SetEdge(t: Tree, start: int, v: Vma, lo: int, hi: int, end: int, prot: int)
    requires Good(t) && v in InOrder(t) && v.start <= lo < hi <= v.end && 0 <= lo && hi <= WORD64 && (hi < end ==> hi == v.end)
    ensures Edge(Change(t, v, lo, hi, prot), start, hi, end)
  {
    hide InOrder, Good, Change;
    var a, b := ChangeOrder(t, v, lo, hi, prot);
  }

  /** What lies before the current address is left alone from now on. */
  lemma {:induction false} Untouched(t: Tree, start: int, curr: int, end: int, prot: int, a: int)
    requires Good(t) && 0 <= start <= curr && end <= WORD64 && Edge(t, start, curr, end) && a < curr
    ensures At(InOrder(Mprotected(t, start, curr, end, prot)), a) == At(InOrder(t), a)
    decreases end - curr
  {
    hide Good, InOrder, At, Change, NextMove, PageOf;
    MoveIs(t, start, curr, end);
    match NextMove(t, start, curr, end) {
      case Stop =>
      case Jump(w) =>
        JumpEdge(t, start, w, end);
        Untouched(t, start, w.start, end, prot, a);
      case Set(v, lo, hi) =>
        ChangeAt(t, v, lo, hi, prot, a);
        SetEdge(t, start, v, lo, hi, end, prot);
        Untouched(Change(t, v, lo, hi, prot), start, hi, end, prot, a);
        assert lo >= curr;
    }
  }

  lemma JumpReaches(t: Tree, start: int, curr: int, w: Vma, end: int, prot: int)
    requires Good(t) && w in InOrder(t) && 0 <= start <= curr < w.start < end <= WORD64
    ensures var s, s' := InOrder(t), InOrder(Mprotected(t, start, w.start, end, prot));
      Reached(s, s', curr, end, prot) <==> Reached(s, s', w.start, end, prot) && AllHave(s, curr, w.start, prot)
  {
    hide At, InOrder, Good, Mprotected, AllHave;
    var s, s' := InOrder(t), InOrder(Mprotected(t, start, w.start, end, prot));
    JumpEdge(t, start, w, end);
    forall a | curr <= a < w.start ensures At(s', a) == At(s, a) { Untouched(t, start, w.start, end, prot, a); }
    AllHaveIff(t, curr, w.start, prot);
    if Reached(s, s', curr, end, prot) {
      forall a | curr <= a < w.start ensures At(s, a) == Under(At(s, a), prot) { assert At(s', a) == At(s, a); }
    } else if Reached(s, s', w.start, end, prot) {
      var a :| curr <= a < end && At(s', a) != Under(At(s, a), prot);
      assert At(s, a) == At(s', a) != Under(At(s, a), prot);
    }
  }

  ghost predicate AllHave(s: seq<Vma>, lo: int, hi: int, prot: int) {
    forall x :: x in s && Overlaps(x, lo, hi) ==> x.prot == prot
  }

  lemma AllHaveIff(t: Tree, lo: int, hi: int, prot: int)
    requires Good(t) && lo < hi
    ensures AllHave(InOrder(t), lo, hi, prot) <==> forall a :: lo <= a < hi ==> At(InOrder(t), a) == Under(At(InOrder(t), a), prot)
  {
    hide At, InOrder, Sound, Ordered, Sorted, Find;
    var s := InOrder(t);
    TreeSorted(t, 0, WORD64);
    if x :| x in s && Overlaps(x, lo, hi) && x.prot != prot {
      OrderedBounds(t, 0, WORD64, x);
      var a := Max(x.start, lo);
      AtMember(s, x, a);
      assert At(s, a) != Under(At(s, a), prot);
    } else {
      forall a | lo <= a < hi ensures At(s, a) == Under(At(s, a), prot) {
        FindAt(t, 0, WORD64, a);
        FindScan(t, a);
      }
    }
  }

  lemma SetReaches(t: Tree, v: Vma, start: int, curr: int, lo: int, hi: int, end: int, prot: int)
    requires Good(t) && v in InOrder(t) && 0 <= start <= lo && v.start <= lo <= curr < hi <= v.end && hi <= end <= WORD64
    requires Good(Change(t, v, lo, hi, prot))
    ensures var u := Change(t, v, lo, hi, prot);
      var s' := InOrder(Mprotected(u, start, hi, end, prot));
      Reached(InOrder(t), s', curr, end, prot) <==> Reached(InOrder(u), s', hi, end, prot)
  {
    hide At, InOrder, Good, Mprotected, Change, PageOf;
    var u := Change(t, v, lo, hi, prot);
    var s, s' := InOrder(t), InOrder(Mprotected(u, start, hi, end, prot));
    forall a | curr <= a < end
      ensures a >= hi ==> At(InOrder(u), a) == At(s, a)
      ensures a < hi ==> At(s', a) == Under(At(s, a), prot)
    {
      ChangeAt(t, v, lo, hi, prot, a);
      MprotectSafe(u, start, hi, end, prot, a);
    }
  }

  /** Up to the first gap every address ends with the new protection. */
  lemma {:induction false} ReachedToGap(t: Tree, start: int, curr: int, end: int, prot: int, a: int)
    requires Good(t) && 0 <= start <= curr <= a < end <= WORD64
    requires forall h :: curr <= h <= a ==> At(InOrder(t), h).Some?
    ensures At(InOrder(Mprotected(t, start, curr, end, prot)), a) == Under(At(InOrder(t), a), prot)
    decreases end - curr
  {
    hide Good, InOrder, At, Change, NextMove, PageOf;
    MoveIs(t, start, curr, end);
    AtNone(InOrder(t), curr);
    match NextMove(t, start, curr, end) {
      case Stop =>
      case Jump(w) =>
      case Set(v, lo, hi) =>
        var u := Change(t, v, lo, hi, prot);
        forall h | hi <= h <= a ensures At(InOrder(u), h) == At(InOrder(t), h) { ChangeAt(t, v, lo, hi, prot, h); }
        ChangeAt(t, v, lo, hi, prot, a);
        if a < hi { MprotectSafe(u, start, hi, end, prot, a); } else { ReachedToGap(u, start, hi, end, prot, a); }
    }
  }

  // ---------------------------------------------------------------- what a caller can tell from the list

  /** Region x of the range has an unmapped address of the range below it. */
  ghost predicate PastGap(s: seq<Vma>, curr: int, end: int, x: Vma) {
    x in s && Overlaps(x, curr, end) && exists g :: curr <= g < x.start && At(s, g).None?
  }

  /** At most one region of the range lies past its first gap. */
  ghost predicate OnePastGap(s: seq<Vma>, curr: int, end: int) {
    forall x, y :: PastGap(s, curr, end, x) && PastGap(s, curr, end, y) ==> x == y
  }

  /** With at most one region past the first gap the whole range is reached, whatever the shape of the tree. */
  lemma {:induction false} OnePastGapSuffices(t: Tree, start: int, curr: int, end: int, prot: int)
    requires Good(t) && 0 <= start <= curr && end <= WORD64 && OnePastGap(InOrder(t), curr, end)
    ensures SkipsNothing(t, start, curr, end, prot)
    decreases end - curr
  {
    hide Good, InOrder, At, Change, NextMove, PageOf, OnePastGap;
    MoveIs(t, start, curr, end);
    match NextMove(t, start, curr, end) {
      case Stop =>
      case Jump(w) =>
        JumpLonely(InOrder(t), curr, w, end);
        OnePastGapSuffices(t, start, w.start, end, prot);
      case Set(v, lo, hi) =>
        ChangeAt(t, v, lo, hi, prot, 0);
        SetLonely(t, v, lo, curr, hi, end, prot);
        OnePastGapSuffices(Change(t, v, lo, hi, prot), start, hi, end, prot);
    }
  }

  lemma JumpLonely(s: seq<Vma>, curr: int, w: Vma, end: int)
    requires OnePastGap(s, curr, end) && w in s && curr < w.start < w.end && w.start < end && At(s, curr).None?
    ensures OnePastGap(s, w.start, end) && forall x :: x in s ==> !Overlaps(x, curr, w.start)
  {
    hide At;
    AtNone(s, curr);
    assert PastGap(s, curr, end, w);
    forall x | x in s && Overlaps(x, curr, end) ensures x == w { assert PastGap(s, curr, end, x); }
    forall x | PastGap(s, w.start, end, x) ensures PastGap(s, curr, end, x) { }
  }

  lemma SetLonely(t: Tree, v: Vma, lo: int, curr: int, hi: int, end: int, prot: int)
    requires Good(t) && v in InOrder(t) && v.start <= lo <= curr < hi <= v.end && 0 <= lo && hi <= end <= WORD64 && (hi < end ==> hi == v.end)
    requires OnePastGap(InOrder(t), curr, end)
    ensures OnePastGap(InOrder(Change(t, v, lo, hi, prot)), hi, end)
  {
    hide At, InOrder, Good, Change, PageOf, Below, Segment;
    var s, u := InOrder(t), InOrder(Change(t, v, lo, hi, prot));
    var a, b := ChangeOrder(t, v, lo, hi, prot);
    forall x | PastGap(u, hi, end, x) ensures PastGap(s, curr, end, x) {
      var g :| hi <= g < x.start && At(u, g).None?;
      ChangeAt(t, v, lo, hi, prot, g);
      PartEnds(v, lo, hi, prot);
      assert x in b;
    }
  }

  lemma PartEnds(v: Vma, lo: int, hi: int, prot: int)
    ensures forall x :: x in Below(v, lo) ==> x.end == lo
    ensures Segment(v, lo, hi, prot).end == hi && Segment(v, lo, hi, prot).start == lo
  {
  }

  // ---------------------------------------------------------------- where the code departs from the promise

  /** Past a gap the protection change goes on at the root of the tree, and a lower region of the range is left as it was. */
  lemma MprotectSkips()
    ensures var x, y := Vma(10, 20, 1, 2, -1, 0), Vma(30, 40, 1, 2, -1, 0);
      var t := Make(Make(Leaf, x, Leaf), y, Leaf);
      && Good(t) && At(InOrder(t), 10) == Some(Page(1, 2, -1, 0))
      && At(InOrder(Mprotected(t, 0, 0, 50, 3)), 10) == Some(Page(1, 2, -1, 0))
      && At(InOrder(Mprotected(t, 0, 0, 50, 3)), 30) == Some(Page(3, 2, -1, 0))
  {
    var x, y := Vma(10, 20, 1, 2, -1, 0), Vma(30, 40, 1, 2, -1, 0);
    var l := Make(Leaf, x, Leaf);
    var t := Make(l, y, Leaf);
    assert Sound(l) && Ordered(l, 0, 30) && InOrder(l) == [x] && Find(l, 0).None?;
    assert InOrder(t) == [x, y];
    assert NextMove(t, 0, 0, 50) == Jump(y);
    assert NextMove(t, 0, 30, 50) == Set(y, 30, 40);
    hide NextMove, Change, InOrder, Good, At, Mprotected;
  }
}
