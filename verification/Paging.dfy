/**
 The page-table code itself: entries written in place, four levels spelled out one by one.
 */
module Paging {
  import opened Basics
  import opened PageTable

  class PageTables {
    var tables: map<int, seq<Entry>>
    var free: seq<int>

    constructor (tables: map<int, seq<Entry>>, free: seq<int>)
      ensures this.tables == tables && this.free == free
    {
      this.tables, this.free := tables, free;
    }

    ghost function Now(): Mem
      reads this
    {
      Mem(tables, free)
    }

    method ReadTable(t: int) returns (s: seq<Entry>)
      ensures s == Table(Now(), t) && |s| == ENTRIES
    {
      if t in tables && |tables[t]| == ENTRIES { s := tables[t]; } else { s := Blank(); }
    }

    method PutEntry(t: int, i: int, e: Entry)
      requires 0 <= i < ENTRIES
      modifies this
      ensures Now() == Put(old(Now()), t, i, e)
    {
      var s := ReadTable(t);
      tables := tables[t := s[i := e]];
    }

    /** The next table down and its entry's rights; 0 when one is needed and no frame is left. */
    method GetNextLevel(t: int, i: int, rw: bool, user: bool) returns (c: int)
      requires 0 <= i < ENTRIES
      modifies this
      ensures (Now(), c) == NextLevel(old(Now()), t, i, rw, user)
    {
      var s := ReadTable(t);
      if s[i].present {
        c := s[i].frame;
        PutEntry(t, i, s[i].(rw := s[i].rw || rw, user := s[i].user || user));
        return;
      }
      if free == [] { return 0; }
      c := free[0];
      free := free[1..];
      tables := tables[c := Blank()];
      PutEntry(t, i, Entry(true, true, true, false, c, 0));
    }

    /** Maps one page, creating the tables on the way down. */
    method MapPage(root: int, page: int, leaf: Entry) returns (ok: bool)
      modifies this
      ensures (Now(), ok) == MapFrom(old(Now()), root, PathOf(page), leaf)
    {
      hide NextLevel, Put;
      var p := PathOf(page);
      Unroll(p);
      var pdpt := GetNextLevel(root, p[0], leaf.rw, leaf.user);
      if pdpt == 0 { return false; }
      assert MapFrom(old(Now()), root, p, leaf) == MapFrom(Now(), pdpt, p[1..], leaf);
      var pd := GetNextLevel(pdpt, p[1], leaf.rw, leaf.user);
      if pd == 0 { return false; }
      assert MapFrom(old(Now()), root, p, leaf) == MapFrom(Now(), pd, p[1..][1..], leaf);
      var pt := GetNextLevel(pd, p[2], leaf.rw, leaf.user);
      if pt == 0 { return false; }
      assert MapFrom(old(Now()), root, p, leaf) == MapFrom(Now(), pt, p[1..][1..][1..], leaf);
      PutEntry(pt, p[3], leaf);
      ok := true;
    }

    /** Scans a table for a present entry. */
    method IsEmpty(t: int) returns (empty: bool)
      ensures empty <==> Empty(Table(Now(), t))
    {
      var s := ReadTable(t);
      for i := 0 to ENTRIES
        invariant forall j :: 0 <= j < i ==> !s[j].present
      {
        if s[i].present { return false; }
      }
      empty := true;
    }

    /** Unlinks table c from entry i of t if it is empty, then frees it. */
    method DropIfEmpty(t: int, i: int, c: int) returns (dropped: bool)
      requires 0 <= i < ENTRIES
      modifies this
      ensures dropped <==> Empty(Table(old(Now()), c))
      ensures Now() == if dropped then Release(Put(old(Now()), t, i, ZERO), c) else old(Now())
    {
      dropped := IsEmpty(c);
      if dropped {
        PutEntry(t, i, ZERO);
        tables := tables - {c};
        free := free + [c];
      }
    }

    /** As long as each became empty, frees the last-level table and those above it. */
    method FreeEmptyTables(root: int, p: Path, pdpt: int, pd: int, pt: int)
      requires |p| == 4 && ValidPath(p)
      modifies this
      ensures Now() == FreeChain(old(Now()), root, p, pdpt, pd, pt)
    {
      hide Put, Empty, Release, Table;
      var dropped := DropIfEmpty(pd, p[2], pt);
      if dropped {
        dropped := DropIfEmpty(pdpt, p[1], pd);
        if dropped {
          dropped := DropIfEmpty(root, p[0], pdpt);
        }
      }
    }

    /** Unmaps one page and frees the tables that became empty. */
    method UnmapPage(root: int, page: int)
      modifies this
      ensures Now() == Unmap(old(Now()), root, PathOf(page))
    {
      hide Put, FreeChain, Table, UnmapFrom, Reaches;
      var p := PathOf(page);
      Unroll(p);
      ReachOnce(Now(), root, p);
      var pml4 := ReadTable(root);
      if !pml4[p[0]].present { return; }
      var pdptAt := pml4[p[0]].frame;
      ReachOnce(Now(), pdptAt, p[1..]);
      var pdpt := ReadTable(pdptAt);
      if !pdpt[p[1]].present || pdpt[p[1]].ps { return; }
      var pdAt := pdpt[p[1]].frame;
      ReachOnce(Now(), pdAt, p[1..][1..]);
      var pd := ReadTable(pdAt);
      if !pd[p[2]].present || pd[p[2]].ps { return; }
      var ptAt := pd[p[2]].frame;
      ReachOnce(Now(), ptAt, p[1..][1..][1..]);
      UnmapChain(Now(), root, p);
      PutEntry(ptAt, p[3], ZERO);
      FreeEmptyTables(root, p, pdptAt, pdAt, ptAt);
    }

    /** The entry that translates a page, and its level; not found when some level is missing. */
    method Translate(root: int, page: int) returns (found: bool, level: int, e: Entry)
      ensures found <==> Walk(Now(), root, PathOf(page)).Mapped?
      ensures found ==> Walk(Now(), root, PathOf(page)).level == level && Walk(Now(), root, PathOf(page)).entry == e && 1 <= level <= 3
    {
      hide Table;
      var p := PathOf(page);
      Unroll(p);
      var s := ReadTable(root);
      e, level := s[p[0]], 4;
      if !e.present { return false, 4, e; }
      WalkOnce(Now(), root, p);
      WalkOnce(Now(), e.frame, p[1..]);
      s := ReadTable(e.frame);
      e, level := s[p[1]], 3;
      if !e.present { return false, 3, e; }
      if e.ps { return true, 3, e; }
      WalkOnce(Now(), e.frame, p[1..][1..]);
      s := ReadTable(e.frame);
      e, level := s[p[2]], 2;
      if !e.present { return false, 2, e; }
      if e.ps { return true, 2, e; }
      WalkOnce(Now(), e.frame, p[1..][1..][1..]);
      s := ReadTable(e.frame);
      e, level := s[p[3]], 1;
      found := e.present;
    }

    /** The physical address behind a virtual one, 0 when there is none. */
    method VirtToPhys(root: int, addr: int) returns (phys: int)
      requires 0 <= addr < 0x1_0000_0000_0000_0000
      ensures phys == Physical(Walk(Now(), root, PathOf(addr / PAGE_BYTES)), addr)
    {
      hide Walk;
      var found, level, e := Translate(root, addr / PAGE_BYTES);
      if !found { return 0; }
      if level == 3 { return e.frame * PAGE_BYTES / 0x4000_0000 * 0x4000_0000 + addr % 0x4000_0000; }
      if level == 2 { return e.frame * PAGE_BYTES / 0x20_0000 * 0x20_0000 + addr % 0x20_0000; }
      phys := e.frame * PAGE_BYTES + addr % PAGE_BYTES;
    }
  }

  const PAGE_BYTES: int := 4096

  /** The bytes translated by one entry of a level. */
  function Reach(level: int): int {
    if level == 3 then 0x4000_0000 else if level == 2 then 0x20_0000 else PAGE_BYTES
  }

  /** The address of the page found, aligned to what its entry translates, plus the offset in it. */
  function Physical(f: Found, addr: int): int {
    if f.Unmapped? then 0
    else f.entry.frame * PAGE_BYTES / Reach(f.level) * Reach(f.level) + addr % Reach(f.level)
  }

  /** Addresses behind one entry keep their distance, whatever the size of the page. */
  lemma PhysicalLinear(f: Found, a: int, b: int)
    requires f.Mapped? && a / Reach(f.level) == b / Reach(f.level)
    ensures Physical(f, b) - Physical(f, a) == b - a
    ensures Physical(f, a) % Reach(f.level) == a % Reach(f.level)
  {
    var n := Reach(f.level);
    SameQuotient(a, b, n);
    OffsetKept(f.entry.frame * PAGE_BYTES / n, a % n, n);
  }

  /** The physical page is the one the entry names; of a huge page, the aligned one that holds it, at the address's offset. */
  lemma PhysicalPage(f: Found, a: int)
    requires f.Mapped?
    ensures var n := Reach(f.level); Physical(f, a) / n == f.entry.frame * PAGE_BYTES / n && Physical(f, a) % n == a % n
    ensures f.level == 1 ==> Physical(f, a) / PAGE_BYTES == f.entry.frame
  {
    var n := Reach(f.level);
    OffsetKept(f.entry.frame * PAGE_BYTES / n, a % n, n);
  }

  /**
   Translation is linear over what one entry covers: every address in the same page, two megabytes or gigabyte
   as one that is mapped there is mapped by the same entry, at the same distance.
   */
  lemma HugePageLinear(m: Mem, root: int, a: int, b: int)
    requires 0 <= a < 0x1_0000_0000_0000 && 0 <= b < 0x1_0000_0000_0000 && Walk(m, root, PathOf(a / PAGE_BYTES)).Mapped?
    requires var n := Reach(Walk(m, root, PathOf(a / PAGE_BYTES)).level); a / n == b / n
    ensures var f, g := Walk(m, root, PathOf(a / PAGE_BYTES)), Walk(m, root, PathOf(b / PAGE_BYTES));
      g == f && Physical(g, b) - Physical(f, a) == b - a
  {
    hide Walk;
    var x, y := a / PAGE_BYTES, b / PAGE_BYTES;
    var f := Walk(m, root, PathOf(x));
    LevelBelow(m, root, PathOf(x));
    SharedPrefix(x, y);
    assert a / 0x20_0000 == x / 0x200 && b / 0x20_0000 == y / 0x200 && a / 0x4000_0000 == x / 0x4_0000 && b / 0x4000_0000 == y / 0x4_0000;
    assert PathOf(x)[..5 - f.level] == PathOf(y)[..5 - f.level];
    WalkPrefix(m, root, PathOf(x), PathOf(y));
    PhysicalLinear(f, a, b);
  }

  lemma SameQuotient(a: int, b: int, n: int)
    requires n >= 1 && a / n == b / n
    ensures b % n - a % n == b - a
  {
    assert a == a / n * n + a % n && b == b / n * n + b % n;
  }

  lemma OffsetKept(k: int, r: int, n: int)
    requires n >= 1 && 0 <= r < n
    ensures (k * n + r) % n == r && (k * n + r) / n == k
  {
    Quotient(k * n + r, k, n);
  }

  lemma Unroll(p: Path)
    requires |p| == 4
    ensures p[1..] == [p[1], p[2], p[3]] && p[1..][1..] == [p[2], p[3]] && p[1..][1..][1..] == [p[3]]
  {
  }

  /** One level of a walk. */
  lemma WalkOnce(m: Mem, t: int, p: Path)
    requires p != [] && ValidPath(p)
    ensures var e := Table(m, t)[p[0]];
      Walk(m, t, p) == if !e.present then Unmapped else if Ends(e, |p|) then Mapped(|p|, e, e.rw, e.user) else Restrict(e, Walk(m, e.frame, p[1..]))
  {
  }

  /** One level of unmapping. */
  lemma UnmapOnce(m: Mem, t: int, p: Path)
    requires p != [] && ValidPath(p)
    ensures |p| == 1 ==> UnmapFrom(m, t, p) == (Put(m, t, p[0], ZERO), true)
    ensures |p| > 1 ==>
      var c := Table(m, t)[p[0]].frame; var (m1, freed) := UnmapFrom(m, c, p[1..]);
      UnmapFrom(m, t, p) == if freed && Empty(Table(m1, c)) then (Release(Put(m1, t, p[0], ZERO), c), true) else (m1, false)
  {
  }

  lemma ReachOnce(m: Mem, t: int, p: Path)
    requires p != [] && ValidPath(p)
    ensures Reaches(m, t, p) <==> |p| == 1 || (var e := Table(m, t)[p[0]]; e.present && !Ends(e, |p|) && Reaches(m, e.frame, p[1..]))
  {
  }

  /** Table c unlinked from entry i of t and freed. */
  function Drop(m: Mem, t: int, i: int, c: int): Mem
    requires 0 <= i < ENTRIES
  {
    Release(Put(m, t, i, ZERO), c)
  }

  /** The release of empty tables, level by level, stopping at the first that is not empty. */
  function FreeChain(m: Mem, root: int, p: Path, pdpt: int, pd: int, pt: int): Mem
    requires |p| == 4 && forall i :: 0 <= i < 4 ==> 0 <= p[i] < ENTRIES
  {
    if !Empty(Table(m, pt)) then m
    else
      var m1 := Drop(m, pd, p[2], pt);
      if !Empty(Table(m1, pd)) then m1
      else
        var m2 := Drop(m1, pdpt, p[1], pd);
        if !Empty(Table(m2, pdpt)) then m2 else Drop(m2, root, p[0], pdpt)
  }

  /** The recursive and the spelled-out form of unmapping agree. */
  lemma UnmapChain(m: Mem, root: int, p: Path)
    requires |p| == 4 && ValidPath(p)
    ensures var pdpt := Table(m, root)[p[0]].frame; var pd := Table(m, pdpt)[p[1]].frame; var pt := Table(m, pd)[p[2]].frame;
      UnmapFrom(m, root, p).0 == FreeChain(Put(m, pt, p[3], ZERO), root, p, pdpt, pd, pt)
  {
    hide Table, Put, Empty, Release, UnmapFrom;
    Unroll(p);
    var pdpt := Table(m, root)[p[0]].frame;
    var pd := Table(m, pdpt)[p[1]].frame;
    var pt := Table(m, pd)[p[2]].frame;
    UnmapOnce(m, root, p);
    UnmapOnce(m, pdpt, p[1..]);
    UnmapOnce(m, pd, p[1..][1..]);
    UnmapOnce(m, pt, p[1..][1..][1..]);
  }
}
