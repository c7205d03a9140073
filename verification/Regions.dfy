/**
 Lists of regions in address order, their meaning as a map from address to attributes, and what
 cutting a range out of them does to that map.
 */
module Regions {
  import opened AvlTree
  import opened Basics

  const WORD64: int := 0x1_0000_0000_0000_0000

  /** What a process sees at an address: protection, flags, file and position in the file. */
  datatype Page = Page(prot: int, flags: int, fd: int, pos: int)

  predicate Covers(v: Vma, a: int) { v.start <= a < v.end }

  function PageOf(v: Vma, a: int): Page { Page(v.prot, v.flags, v.fd, (v.offset + (a - v.start)) % WORD64) }

  /** The attributes at address a, by linear scan. */
  function At(s: seq<Vma>, a: int): Option<Page> {
    if s == [] then None else if Covers(s[0], a) then Some(PageOf(s[0], a)) else At(s[1..], a)
  }

  /** Nonempty, disjoint, in address order. */
  ghost predicate Sorted(s: seq<Vma>) {
    && (forall i :: 0 <= i < |s| ==> s[i].start < s[i].end)
    && (forall i, j :: 0 <= i < j < |s| ==> s[i].end <= s[j].start)
  }

  lemma SortedJoin(a: seq<Vma>, v: Vma, b: seq<Vma>)
    requires Sorted(a) && Sorted(b) && v.start < v.end
    requires forall i :: 0 <= i < |a| ==> a[i].end <= v.start
    requires forall i :: 0 <= i < |b| ==> v.end <= b[i].start
    ensures Sorted(a + [v] + b)
  {
    var s := a + [v] + b;
    forall i | 0 <= i < |s| ensures s[i] == (if i < |a| then a[i] else if i == |a| then v else b[i - |a| - 1]) {
    }
    forall i, j | 0 <= i < j < |s| ensures s[i].end <= s[j].start {
      if i < |a| && |a| < j { assert a[i].end <= v.start && v.end <= b[j - |a| - 1].start; }
    }
  }

  lemma {:induction false} TreeSorted(t: Tree, lo: int, hi: int)
    requires Ordered(t, lo, hi)
    ensures Sorted(InOrder(t))
  {
    hide Sorted;
    if t.Leaf? {
      EmptySorted();
    } else {
      TreeSorted(t.left, lo, t.vma.start);
      TreeSorted(t.right, t.vma.end, hi);
      var a, b := InOrder(t.left), InOrder(t.right);
      forall i | 0 <= i < |a| ensures a[i].end <= t.vma.start { OrderedBounds(t.left, lo, t.vma.start, a[i]); }
      forall i | 0 <= i < |b| ensures t.vma.end <= b[i].start { OrderedBounds(t.right, t.vma.end, hi, b[i]); }
      SortedJoin(a, t.vma, b);
    }
  }

  lemma EmptySorted()
    ensures Sorted([])
  {
  }

  lemma {:induction false} AtMember(s: seq<Vma>, v: Vma, a: int)
    requires Sorted(s) && v in s && Covers(v, a)
    ensures At(s, a) == Some(PageOf(v, a))
  {
    if s[0] != v {
      var i :| 0 <= i < |s| && s[i] == v;
      AtMember(s[1..], v, a);
    }
  }

  lemma {:induction false} AtNone(s: seq<Vma>, a: int)
    ensures At(s, a).None? <==> forall v :: v in s ==> !Covers(v, a)
  {
    if s != [] {
      AtNone(s[1..], a);
      assert forall v :: v in s <==> v == s[0] || v in s[1..];
    }
  }

  /** The pruned tree search and the linear scan see the same thing. */
  lemma FindAt(t: Tree, lo: int, hi: int, a: int)
    requires Sound(t) && Ordered(t, lo, hi)
    ensures At(InOrder(t), a) == match Find(t, a) case None => None case Some(v) => Some(PageOf(v, a))
  {
    FindScan(t, a);
    TreeSorted(t, lo, hi);
    if Find(t, a).Some? { AtMember(InOrder(t), Find(t, a).value, a); } else { AtNone(InOrder(t), a); }
  }

  // ---------------------------------------------------------------- insertion and deletion by position

  lemma {:induction false} InsertBetween(a: seq<Vma>, b: seq<Vma>, v: Vma)
    requires forall x :: x in a ==> x.start < v.start
    requires forall x :: x in b ==> x.start > v.start
    ensures ListInsert(a + b, v) == a + [v] + b
  {
    if a == [] {
      assert a + b == b;
      if b != [] { assert b[0] in b; }
    } else {
      assert a[0] in a;
      assert (a + b)[1..] == a[1..] + b;
      InsertBetween(a[1..], b, v);
    }
  }

  lemma {:induction false} DeleteBetween(a: seq<Vma>, v: Vma, b: seq<Vma>)
    requires forall x :: x in a ==> x.start != v.start
    ensures ListDelete(a + [v] + b, v.start) == a + b
  {
    if a == [] {
      assert a + [v] + b == [v] + b && ([v] + b)[1..] == b && a + b == b;
    } else {
      assert a[0] in a;
      assert (a + [v] + b)[1..] == a[1..] + [v] + b;
      DeleteBetween(a[1..], v, b);
    }
  }

  /** A member of a sorted list, with what lies before and after it. */
  lemma Around(s: seq<Vma>, v: Vma) returns (a: seq<Vma>, b: seq<Vma>)
    requires Sorted(s) && v in s
    ensures s == a + [v] + b && Sorted(a) && Sorted(b)
    ensures forall x :: x in a ==> x.start < x.end <= v.start
    ensures forall x :: x in b ==> v.end <= x.start < x.end
  {
    var i :| 0 <= i < |s| && s[i] == v;
    a, b := s[..i], s[i + 1..];
  }

  lemma {:induction false} AtSplit(a: seq<Vma>, b: seq<Vma>, x: int)
    ensures At(a + b, x) == if At(a, x).Some? then At(a, x) else At(b, x)
  {
    if a == [] {
      assert a + b == b;
    } else {
      assert (a + b)[1..] == a[1..] + b;
      AtSplit(a[1..], b, x);
    }
  }

  // ---------------------------------------------------------------- cutting a range

  /** What is left of a region when [start, end) is unmapped. */
  function Pieces(v: Vma, start: int, end: int): seq<Vma> {
    if !Overlaps(v, start, end) then [v]
    else
      (if v.start < start then [v.(end := start)] else [])
      + (if end < v.end && start <= end then [v.(start := end, offset := (v.offset + (end - v.start)) % WORD64)] else [])
  }

  function CutList(s: seq<Vma>, start: int, end: int): seq<Vma> {
    if s == [] then [] else Pieces(s[0], start, end) + CutList(s[1..], start, end)
  }

  lemma {:induction false} CutAppend(a: seq<Vma>, b: seq<Vma>, start: int, end: int)
    ensures CutList(a + b, start, end) == CutList(a, start, end) + CutList(b, start, end)
  {
    if a == [] {
      assert a + b == b;
    } else {
      assert (a + b)[1..] == a[1..] + b;
      CutAppend(a[1..], b, start, end);
    }
  }

  lemma {:induction false} CutNothing(s: seq<Vma>, start: int, end: int)
    requires forall v :: v in s ==> !Overlaps(v, start, end)
    ensures CutList(s, start, end) == s
  {
    if s != [] {
      assert s[0] in s;
      CutNothing(s[1..], start, end);
    }
  }

  /** The pieces of a region no longer overlap the range, so cutting them again changes nothing. */
  lemma PiecesStay(v: Vma, start: int, end: int)
    ensures CutList(Pieces(v, start, end), start, end) == Pieces(v, start, end)
  {
    var p := Pieces(v, start, end);
    forall x | x in p ensures Overlaps(v, start, end) ==> !Overlaps(x, start, end) {
    }
    if Overlaps(v, start, end) {
      CutNothing(p, start, end);
    } else {
      assert [v][1..] == [];
      assert CutList([v], start, end) == [v] + CutList([], start, end);
    }
  }

  /** Replacing one region by its pieces leaves the outcome of the cut as it was. */
  lemma CutStep(a: seq<Vma>, v: Vma, b: seq<Vma>, start: int, end: int)
    ensures CutList(a + Pieces(v, start, end) + b, start, end) == CutList(a + [v] + b, start, end)
  {
    hide CutList, Pieces;
    var p := Pieces(v, start, end);
    PiecesStay(v, start, end);
    CutOne(v, start, end);
    CutAppend(a + p, b, start, end);
    CutAppend(a, p, start, end);
    CutAppend(a + [v], b, start, end);
    CutAppend(a, [v], start, end);
  }

  lemma CutOne(v: Vma, start: int, end: int)
    ensures CutList([v], start, end) == Pieces(v, start, end)
  {
    assert [v][1..] == [];
  }

  /** Unmapped by the cut: inside the range, or past a reversed range that a region straddled. */
  ghost predicate Gone(s: seq<Vma>, start: int, end: int, a: int) {
    start <= a && (a < end || (end < start && exists v :: v in s && Covers(v, a) && v.start < end))
  }

  /** One region: the part outside the range keeps its attributes and its position in the file. */
  lemma PiecesAt(v: Vma, start: int, end: int, a: int)
    requires v.start < v.end
    ensures At(Pieces(v, start, end), a) ==
      if Covers(v, a) && !(Overlaps(v, start, end) && start <= a && (a < end || end < start)) then Some(PageOf(v, a)) else None
  {
    if Overlaps(v, start, end) {
      var l := if v.start < start then [v.(end := start)] else [];
      var w := v.(start := end, offset := (v.offset + (end - v.start)) % WORD64);
      var r := if end < v.end && start <= end then [w] else [];
      AtSplit(l, r, a);
      SamePosition(v.offset, end - v.start, a - end);
    }
  }

  lemma SamePosition(offset: int, d: int, k: int)
    ensures ((offset + d) % WORD64 + k) % WORD64 == (offset + (d + k)) % WORD64
  {
    var q := (offset + d) / WORD64;
    assert (offset + d) % WORD64 + k == offset + (d + k) - q * WORD64;
  }

  /** The cut removes exactly the addresses of the range and keeps every other page's attributes. */
  lemma {:induction false} CutAt(s: seq<Vma>, start: int, end: int, a: int)
    requires Sorted(s)
    ensures At(CutList(s, start, end), a) == if Gone(s, start, end, a) then None else At(s, a)
  {
    if s != [] {
      CutAt(s[1..], start, end, a);
      AtSplit(Pieces(s[0], start, end), CutList(s[1..], start, end), a);
      PiecesAt(s[0], start, end, a);
      assert forall v :: v in s <==> v == s[0] || v in s[1..];
      if Covers(s[0], a) {
        forall v | v in s[1..] ensures !Covers(v, a) {
          var i :| 0 <= i < |s[1..]| && s[1..][i] == v;
          assert s[0].end <= s[i + 1].start;
        }
        AtNone(s[1..], a);
      }
    }
  }
}
