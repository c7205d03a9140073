/**
 A cache of equal-sized kernel objects in one-page slabs: each slab's bitmap and free count, the three
 lists a slab moves between, and the statistics.
 */
module Slab {
  import opened Basics

  const PAGE: int := 4096
  const HEADER: int := 64
  const MAX_OBJECTS: int := 128
  const ADDRESSES: int := 0x1_0000_0000_0000_0000
  const INDEXES: int := 0x1_0000_0000

  /** A slab page: the number of free objects and which objects are in use. */
  datatype Slab = Slab(free: int, bits: seq<bool>)

  /** The number of set bits. */
  function SetBits(s: seq<bool>): (n: nat)
    ensures n <= |s|
  {
    if s == [] then 0 else SetBits(s[..|s| - 1]) + if s[|s| - 1] then 1 else 0
  }

  lemma {:induction false} SetBitsFlip(s: seq<bool>, i: int, v: bool)
    requires 0 <= i < |s| && s[i] != v
    ensures SetBits(s[i := v]) == SetBits(s) + if v then 1 else -1
  {
    var n := |s| - 1;
    if i < n {
      SetBitsFlip(s[..n], i, v);
      assert s[i := v][..n] == s[..n][i := v];
    } else {
      assert s[i := v][..n] == s[..n];
    }
  }

  lemma {:induction false} SetBitsNone(n: int)
    requires n >= 0
    ensures SetBits(seq(n, _ => false)) == 0
  {
    if n > 0 {
      SetBitsNone(n - 1);
      assert seq(n, _ => false)[..n - 1] == seq(n - 1, _ => false);
    }
  }

  /** With a free object left, some bit is clear. */
  lemma {:induction false} SomeClear(s: seq<bool>)
    requires forall i :: 0 <= i < |s| ==> s[i]
    ensures SetBits(s) == |s|
  {
    if s != [] { SomeClear(s[..|s| - 1]); }
  }

  // ---------------------------------------------------------------- objects in use

  ghost predicate AllIn(slabs: map<int, Slab>, pages: seq<int>) {
    forall i :: 0 <= i < |pages| ==> pages[i] in slabs
  }

  /** Set bits over all slabs of a list of pages. */
  ghost function Active(slabs: map<int, Slab>, pages: seq<int>): (n: nat)
    requires AllIn(slabs, pages)
  {
    if pages == [] then 0 else SetBits(slabs[pages[0]].bits) + Active(slabs, pages[1..])
  }

  lemma {:induction false} ActiveSame(slabs: map<int, Slab>, slabs': map<int, Slab>, pages: seq<int>)
    requires AllIn(slabs, pages) && AllIn(slabs', pages)
    requires forall i :: 0 <= i < |pages| ==> slabs[pages[i]].bits == slabs'[pages[i]].bits
    ensures Active(slabs', pages) == Active(slabs, pages)
  {
    if pages != [] { ActiveSame(slabs, slabs', pages[1..]); }
  }

  lemma {:induction false} ActiveUpdate(slabs: map<int, Slab>, pages: seq<int>, p: int, s: Slab)
    requires Distinct(pages) && p in pages && AllIn(slabs, pages)
    ensures AllIn(slabs[p := s], pages) && Active(slabs[p := s], pages) == Active(slabs, pages) - SetBits(slabs[p].bits) + SetBits(s.bits)
  {
    assert pages[0] !in pages[1..];
    if pages[0] == p { ActiveSame(slabs, slabs[p := s], pages[1..]); } else { ActiveUpdate(slabs, pages[1..], p, s); }
  }

  lemma {:induction false} ActiveWithout(slabs: map<int, Slab>, pages: seq<int>, p: int)
    requires Distinct(pages) && p in pages && AllIn(slabs, pages)
    ensures AllIn(slabs, Without(pages, p))
    ensures Active(slabs, Without(pages, p)) == Active(slabs, pages) - SetBits(slabs[p].bits)
  {
    WithoutDistinct(pages, p);
    if pages[0] != p {
      ActiveWithout(slabs, pages[1..], p);
      assert Without(pages, p)[1..] == Without(pages[1..], p);
    }
  }

  // ---------------------------------------------------------------- places of objects

  /** Where object i of the slab at page p lies. */
  function Address(p: int, aligned: int, i: int): int { p + HEADER + i * aligned }

  lemma InPage(p: int, aligned: int, n: int, i: int)
    requires aligned >= 1 && 0 <= i < n && n * aligned <= PAGE - HEADER
    ensures p + HEADER <= Address(p, aligned, i) && Address(p, aligned, i) + aligned <= p + PAGE
  {
    Scale(i + 1, n, aligned);
    Scale(0, i, aligned);
  }

  /** Two different objects never overlap, in one slab or in two. */
  lemma ObjectsApart(p: int, i: int, q: int, j: int, aligned: int, n: int)
    requires aligned >= 1 && 0 <= i < n && 0 <= j < n && n * aligned <= PAGE - HEADER && (p, i) != (q, j)
    requires p == q || p + PAGE <= q || q + PAGE <= p
    ensures Address(p, aligned, i) + aligned <= Address(q, aligned, j) || Address(q, aligned, j) + aligned <= Address(p, aligned, i)
  {
    InPage(p, aligned, n, i);
    InPage(q, aligned, n, j);
    if p == q {
      if i < j { Scale(i + 1, j, aligned); } else { Scale(j + 1, i, aligned); }
    }
  }

  /** A page of the kernel's address space other than the first. */
  predicate PageAddress(p: int) { p % PAGE == 0 && 0 < p <= ADDRESSES - PAGE }

  /** The address lies in object i of the slab at p. */
  predicate Inside(p: int, aligned: int, i: int, addr: int) {
    Address(p, aligned, i) <= addr < Address(p, aligned, i) + aligned
  }

  /** The index computed for a pointer into page p: a 64-bit difference, divided and cut to 32 bits. */
  function IndexOf(p: int, aligned: int, addr: int): int
    requires aligned >= 1
  {
    (addr - p - HEADER) % ADDRESSES / aligned % INDEXES
  }

  /** Past the header the index is that of the object hit. */
  lemma IndexPast(p: int, aligned: int, n: int, i: int, addr: int)
    requires aligned >= 1 && 0 <= i < n <= MAX_OBJECTS && n * aligned <= PAGE - HEADER && p + HEADER <= addr < p + PAGE
    ensures IndexOf(p, aligned, addr) == i <==> Inside(p, aligned, i, addr)
  {
    var d := addr - p - HEADER;
    assert d % ADDRESSES == d;
    var q := d / aligned;
    assert d == q * aligned + d % aligned;
    assert 0 <= q < INDEXES by {
      if q < 0 { Scale(q, -1, aligned); }
      if q >= INDEXES { Scale(INDEXES, q, aligned); Scale(1, aligned, INDEXES); }
    }
    assert q % INDEXES == q;
    if Inside(p, aligned, i, addr) { Quotient(d, i, aligned); }
  }

  /** A quotient put together again from its high and low parts. */
  lemma Reassemble(w: int, n: int)
    requires n >= 1
    ensures var q := w / n; w == q / INDEXES * n * INDEXES + q % INDEXES * n + w % n
  {
    var q := w / n;
    Spread(q / INDEXES, q % INDEXES, n);
  }

  lemma Spread(h: int, j: int, n: int)
    ensures (h * INDEXES + j) * n == h * n * INDEXES + j * n
  {
  }

  lemma NotSmall(x: int, r: int)
    requires x * INDEXES + r == ADDRESSES
    ensures r <= 0 || r >= INDEXES
  {
  }

  /** Inside the header the difference is negative, and what it wraps to is the index of no object. */
  lemma IndexOfHeader(p: int, aligned: int, n: int, addr: int)
    requires aligned >= 1 && n * aligned <= PAGE - HEADER && p <= addr < p + HEADER
    ensures IndexOf(p, aligned, addr) >= n
  {
    var d := addr - p - HEADER;
    assert d % ADDRESSES == d + ADDRESSES;
    var w := d + ADDRESSES;
    var x, j := w / aligned / INDEXES * aligned, w / aligned % INDEXES;
    Reassemble(w, aligned);
    NotSmall(x, j * aligned + w % aligned - d);
    Scale(0, j, aligned);
    if j < n {
      assert j * aligned + aligned <= n * aligned by { Scale(j + 1, n, aligned); }
    }
  }

  /** A pointer into a page is resolved to the object it lies in, and to no index of an object if it lies in none. */
  lemma ResolveBack(p: int, aligned: int, n: int, i: int, addr: int)
    requires aligned >= 1 && 0 <= i < n <= MAX_OBJECTS && n * aligned <= PAGE - HEADER && p % PAGE == 0
    ensures Inside(p, aligned, i, addr) <==> addr - addr % PAGE == p && IndexOf(p, aligned, addr) == i
  {
    InPage(p, aligned, n, i);
    if addr - addr % PAGE == p {
      if addr < p + HEADER { IndexOfHeader(p, aligned, n, addr); } else { IndexPast(p, aligned, n, i, addr); }
    }
  }

  // ---------------------------------------------------------------- the cache

  lemma IndexPositive(p: int, aligned: int, addr: int)
    requires aligned >= 1
    ensures IndexOf(p, aligned, addr) >= 0
  {
  }

  lemma {:induction false} WithoutAbsent(s: seq<int>, p: int)
    requires p !in s
    ensures Without(s, p) == s && Without([p] + s, p) == s
  {
    if s != [] { WithoutAbsent(s[1..], p); }
  }

  /** The slabs after object i of the slab at p was cleared. */
  function Cleared(slabs: map<int, Slab>, p: int, i: int): map<int, Slab>
    requires InUse(slabs, p, i)
  {
    slabs[p := Slab(slabs[p].free + 1, slabs[p].bits[i := false])]
  }

  /** Object i of the slab at p is in use. */
  predicate InUse(slabs: map<int, Slab>, p: int, i: int) {
    p in slabs && 0 <= i < |slabs[p].bits| && slabs[p].bits[i]
  }

  class Cache {
    const aligned: int
    const total: int
    var slabs: map<int, Slab>
    var partial: seq<int>
    var full: seq<int>
    var empty: seq<int>
    var allocs: int
    var frees: int
    var active: int
    var totalSlabs: int
    ghost var pages: seq<int>

    /** A slab's free count is the number of its clear bits. */
    ghost predicate SlabOk(p: int)
      requires p in slabs
      reads `slabs
    {
      PageAddress(p) && |slabs[p].bits| == total && slabs[p].free == total - SetBits(slabs[p].bits)
    }

    /** A slab is on exactly the list its free count names. */
    ghost predicate Placed(p: int)
      requires p in slabs
      reads this
    {
      && (p in partial <==> 0 < slabs[p].free < total)
      && (p in full <==> slabs[p].free == 0)
      && (p in empty <==> slabs[p].free == total)
    }

    ghost predicate Counted()
      reads `slabs, `pages, `active, `allocs, `frees, `totalSlabs
    {
      && Distinct(pages) && (forall p :: p in pages <==> p in slabs) && AllIn(slabs, pages)
      && active == Active(slabs, pages) && active == allocs - frees && totalSlabs == |pages|
    }

    ghost predicate Listed()
      reads this
    {
      && Distinct(partial) && Distinct(full) && Distinct(empty)
      && (forall p :: p in partial || p in full || p in empty ==> p in slabs)
      && (forall p :: p in slabs ==> SlabOk(p))
    }

    ghost predicate Shape() {
      aligned >= 1 && 1 <= total <= MAX_OBJECTS && total * aligned <= PAGE - HEADER
    }

    ghost predicate Valid()
      reads this
    {
      Shape() && Listed() && Counted() && forall p :: p in slabs ==> Placed(p)
    }

    constructor (aligned: int, total: int)
      requires aligned >= 1 && 1 <= total <= MAX_OBJECTS && total * aligned <= PAGE - HEADER
      ensures Valid() && slabs == map[] && this.aligned == aligned && this.total == total
    {
      this.aligned, this.total := aligned, total;
      slabs, partial, full, empty, pages := map[], [], [], [], [];
      allocs, frees, active, totalSlabs := 0, 0, 0, 0;
    }

    /** A slab with a free object, put on the partial list if it was not there. */
    method PickSlab(spare: Option<int>) returns (r: Option<int>)
      requires Valid() && (spare.Some? ==> spare.value !in slabs && PageAddress(spare.value))
      modifies this
      ensures Shape() && Listed() && Counted() && allocs == old(allocs) && frees == old(frees)
      ensures r.None? <==> spare.None? && old(partial) == [] && old(empty) == []
      ensures r.None? ==> Valid() && slabs == old(slabs)
      ensures r.Some? ==> r.value in slabs && r.value in partial && r.value !in full && r.value !in empty && slabs[r.value].free > 0
      ensures r.Some? ==> forall p :: p in slabs && p != r.value ==> Placed(p)
      ensures r.Some? ==> r.value == if old(partial) != [] then old(partial)[0] else if old(empty) != [] then old(empty)[0] else spare.value
      ensures forall p, i :: InUse(slabs, p, i) <==> InUse(old(slabs), p, i)
    {
      hide SetBits, Active;
      if partial != [] {
        assert partial[0] in partial;
        assert Placed(partial[0]);
        return Some(partial[0]);
      }
      if empty != [] {
        var p := empty[0];
        assert p in empty;
        assert Placed(p);
        WithoutDistinct(empty, p);
        empty := Without(empty, p);
        partial := [p] + partial;
        assert forall q :: q in slabs && q != p ==> old(Placed(q));
        return Some(p);
      }
      if spare.None? { return None; }
      r := spare;
      AddSlab(spare.value);
    }

    /** A new page, all objects free, at the front of the partial list. */
    method AddSlab(p: int)
      requires Valid() && p !in slabs && PageAddress(p)
      modifies this
      ensures Shape() && Listed() && Counted() && allocs == old(allocs) && frees == old(frees)
      ensures p in slabs && p in partial && p !in full && p !in empty && slabs[p].free > 0
      ensures forall q :: q in slabs && q != p ==> Placed(q)
      ensures forall q, i :: InUse(slabs, q, i) <==> InUse(old(slabs), q, i)
    {
      hide SetBits, Active;
      SetBitsNone(total);
      ghost var before := slabs;
      assert p !in partial && p !in full && p !in empty;
      slabs := slabs[p := Slab(total, seq(total, _ => false))];
      partial := [p] + partial;
      totalSlabs := totalSlabs + 1;
      MoreActive(before, pages, p, slabs[p]);
      pages := [p] + pages;
      assert forall q :: q in slabs && q != p ==> old(Placed(q)) && old(SlabOk(q));
    }

    /** The lowest free object of a slab. */
    method FirstFree(p: int) returns (i: int)
      requires p in slabs && SlabOk(p) && slabs[p].free > 0
      ensures 0 <= i < |slabs[p].bits| && !slabs[p].bits[i] && forall j :: 0 <= j < i ==> slabs[p].bits[j]
    {
      i := 0;
      while i < |slabs[p].bits|
        invariant 0 <= i <= |slabs[p].bits| && forall j :: 0 <= j < i ==> slabs[p].bits[j]
      {
        if !slabs[p].bits[i] { return; }
        i := i + 1;
      }
      SomeClear(slabs[p].bits);
      assert false;
    }

    /** Sets or clears a bit and keeps the counts; the slab may now be on the wrong list. */
    method Flip(p: int, i: int, v: bool)
      requires Shape() && Listed() && Counted() && p in slabs && 0 <= i < total && slabs[p].bits[i] != v
      modifies `slabs, `active, `allocs, `frees
      ensures Shape() && Listed() && Counted()
      ensures slabs == old(slabs)[p := Slab(old(slabs)[p].free + if v then -1 else 1, old(slabs)[p].bits[i := v])]
      ensures frees == (if v then old(frees) else old(frees) + 1) && allocs == if v then old(allocs) + 1 else old(allocs)
    {
      hide SetBits, Active;
      SetBitsFlip(slabs[p].bits, i, v);
      var s := Slab(slabs[p].free + if v then -1 else 1, slabs[p].bits[i := v]);
      ActiveUpdate(slabs, pages, p, s);
      slabs := slabs[p := s];
      if v {
        allocs, active := allocs + 1, active + 1;
      } else {
        frees, active := frees + 1, active - 1;
      }
      assert forall q :: q in slabs && q != p ==> old(SlabOk(q));
    }

    /**
     Allocation: an object that was free, from a partial slab, else an empty one, else a new one; null only
     when there is none of the three.
     */
    method Alloc(spare: Option<int>) returns (r: Option<(int, int)>)
      requires Valid() && (spare.Some? ==> spare.value !in slabs && PageAddress(spare.value))
      modifies this
      ensures Valid()
      ensures r.None? <==> spare.None? && old(partial) == [] && old(empty) == []
      ensures r.None? ==> forall p, i :: InUse(slabs, p, i) <==> InUse(old(slabs), p, i)
      ensures r.Some? ==> r.value.0 == if old(partial) != [] then old(partial)[0] else if old(empty) != [] then old(empty)[0] else spare.value
      ensures r.Some? ==> !InUse(old(slabs), r.value.0, r.value.1) && forall p, i :: InUse(slabs, p, i) <==> InUse(old(slabs), p, i) || (p, i) == r.value
      ensures r.Some? ==> forall j :: 0 <= j < r.value.1 ==> InUse(old(slabs), r.value.0, j)
      ensures frees == old(frees) && allocs == old(allocs) + if r.Some? then 1 else 0
    {
      hide SetBits, Active, Counted;
      var picked := PickSlab(spare);
      if picked.None? { return None; }
      var p := picked.value;
      assert SlabOk(p);
      var i := FirstFree(p);
      assert !InUse(slabs, p, i);
      assert forall j :: 0 <= j < i ==> InUse(slabs, p, j);
      ghost var before := slabs;
      Flip(p, i, true);
      assert SlabOk(p);
      assert forall q :: q in before && q != p ==> slabs[q] == before[q];
      Demote(p);
      r := Some((p, i));
    }

    /** The object of this cache that a pointer lies in, if there is one. */
    method Resolve(addr: int) returns (r: Option<(int, int)>)
      requires Valid() && 0 <= addr < ADDRESSES
      ensures forall p, i :: r == Some((p, i)) <==> p in slabs && 0 <= i < total && Inside(p, aligned, i, addr)
    {
      hide SetBits, Active, Counted, Inside, IndexOf;
      var page := addr - addr % PAGE;
      var idx := IndexOf(page, aligned, addr);
      forall p, i | p in slabs && 0 <= i < total
        ensures Inside(p, aligned, i, addr) <==> page == p && idx == i
      {
        assert SlabOk(p);
        ResolveBack(p, aligned, total, i, addr);
      }
      if addr == 0 || page !in slabs || idx >= total {
        r := None;
        assert addr == 0 ==> forall p :: p in slabs ==> SlabOk(p) && p != page;
      } else {
        IndexPositive(page, aligned, addr);
        r := Some((page, idx));
      }
    }

    /**
     Release: the object in use that the pointer lies in is free afterwards and nothing else changed; a pointer
     to no object of this cache, or to one already free, changes nothing at all.
     */
    method Free(addr: int) returns (ghost freed: Option<(int, int)>)
      requires Valid() && 0 <= addr < ADDRESSES
      modifies this
      ensures Valid() && allocs == old(allocs) && totalSlabs == old(totalSlabs)
      ensures forall p, i :: freed == Some((p, i)) <==> InUse(old(slabs), p, i) && Inside(p, aligned, i, addr)
      ensures freed.None? ==> slabs == old(slabs) && partial == old(partial) && full == old(full) && empty == old(empty)
      ensures freed.None? ==> active == old(active) && frees == old(frees)
      ensures freed.Some? ==> slabs == Cleared(old(slabs), freed.value.0, freed.value.1) && frees == old(frees) + 1
    {
      hide SetBits, Active, Counted, Inside;
      var r := Resolve(addr);
      assert forall p, i :: InUse(slabs, p, i) ==> SlabOk(p) && 0 <= i < total;
      if r.None? { return None; }
      assert r == Some((r.value.0, r.value.1));
      var p, i := r.value.0, r.value.1;
      assert SlabOk(p) && Placed(p);
      if !slabs[p].bits[i] {
        freed := None;
        assert !InUse(slabs, p, i);
      } else {
        freed := r;
        ReleaseBit(p, i);
      }
    }

    /** Clears the bit and moves the slab from full to partial and from partial to empty as its count says. */
    method ReleaseBit(p: int, i: int)
      requires Valid() && p in slabs && 0 <= i < total && InUse(slabs, p, i)
      modifies this
      ensures Valid() && frees == old(frees) + 1 && allocs == old(allocs) && totalSlabs == old(totalSlabs)
      ensures slabs == Cleared(old(slabs), p, i)
    {
      hide SetBits, Active, Counted, Distinct;
      assert SlabOk(p) && Placed(p);
      Flip(p, i, false);
      assert SlabOk(p);
      assert forall q :: q in slabs && q != p ==> old(Placed(q));
      Promote(p);
    }

    /** After a release: from full to partial with the first free object, from partial to empty with the last. */
    method Promote(p: int)
      requires Shape() && Listed() && Counted() && p in slabs && 1 <= slabs[p].free <= total
      requires (p in full <==> slabs[p].free == 1) && (p in partial <==> 1 < slabs[p].free) && p !in empty
      requires forall q :: q in slabs && q != p ==> Placed(q)
      modifies `partial, `full, `empty
      ensures Valid()
      ensures full == if slabs[p].free == 1 then Without(old(full), p) else old(full)
      ensures empty == if slabs[p].free == total then [p] + old(empty) else old(empty)
      ensures partial == if slabs[p].free == total then Without(old(partial), p) else if slabs[p].free == 1 then [p] + old(partial) else old(partial)
    {
      hide SetBits, Active, Counted, SlabOk, Without;
      if slabs[p].free == 1 {
        WithoutDistinct(full, p);
        full := Without(full, p);
        WithoutAbsent(partial, p);
        partial := [p] + partial;
      }
      if slabs[p].free == total {
        WithoutDistinct(partial, p);
        partial := Without(partial, p);
        empty := [p] + empty;
      }
      assert forall q :: q in slabs && q != p ==> old(Placed(q));
    }

    /** After an allocation: from partial to full with the last free object. */
    method Demote(p: int)
      requires Shape() && Listed() && Counted() && p in slabs && 0 <= slabs[p].free < total
      requires p in partial && p !in full && p !in empty
      requires forall q :: q in slabs && q != p ==> Placed(q)
      modifies `partial, `full
      ensures Valid()
    {
      hide SetBits, Active, Counted, SlabOk;
      if slabs[p].free == 0 {
        WithoutDistinct(partial, p);
        partial := Without(partial, p);
        full := [p] + full;
      }
      assert forall q :: q in slabs && q != p ==> old(Placed(q));
    }

    /** Gives all empty slabs back; no object in use is touched. */
    method Shrink()
      requires Valid()
      modifies this
      ensures Valid() && empty == [] && active == old(active)
      ensures forall p, i :: InUse(slabs, p, i) <==> InUse(old(slabs), p, i)
    {
      while empty != []
        invariant Valid() && active == old(active)
        invariant forall p, i :: InUse(slabs, p, i) <==> InUse(old(slabs), p, i)
        decreases |empty|
      {
        DropEmpty();
      }
    }

    /** Gives the first empty slab back. */
    method DropEmpty()
      requires Valid() && empty != []
      modifies this
      ensures Valid() && empty == old(empty)[1..] && active == old(active)
      ensures forall p, i :: InUse(slabs, p, i) <==> InUse(old(slabs), p, i)
    {
      hide SetBits, Active, Without;
      var p := empty[0];
      assert p in empty;
      assert Placed(p) && SlabOk(p);
      WithoutDistinct(empty, p);
      WithoutHead(empty);
      WithoutDistinct(pages, p);
      WithoutLength(pages, p);
      NoneSet(slabs[p].bits);
      LessActive(slabs, pages, p);
      slabs := slabs - {p};
      empty := Without(empty, p);
      pages := Without(pages, p);
      totalSlabs := totalSlabs - 1;
      assert forall q :: q in slabs ==> old(Placed(q)) && old(SlabOk(q));
    }
  }

  lemma WithoutHead(s: seq<int>)
    requires s != []
    ensures Without(s, s[0]) == s[1..]
  {
  }

  lemma LessActive(slabs: map<int, Slab>, pages: seq<int>, p: int)
    requires Distinct(pages) && p in pages && AllIn(slabs, pages)
    ensures AllIn(slabs - {p}, Without(pages, p))
    ensures Active(slabs - {p}, Without(pages, p)) == Active(slabs, pages) - SetBits(slabs[p].bits)
  {
    hide Active;
    WithoutDistinct(pages, p);
    ActiveWithout(slabs, pages, p);
    var left := Without(pages, p);
    forall i | 0 <= i < |left| ensures left[i] in slabs - {p} { assert left[i] in left; }
    ActiveSame(slabs, slabs - {p}, left);
  }

  lemma {:induction false} WithoutLength(s: seq<int>, p: int)
    requires p in s
    ensures |Without(s, p)| == |s| - 1
  {
    if s[0] != p { WithoutLength(s[1..], p); }
  }

  lemma {:induction false} NoneSet(s: seq<bool>)
    ensures SetBits(s) == 0 ==> forall i :: 0 <= i < |s| ==> !s[i]
  {
    if s != [] { NoneSet(s[..|s| - 1]); }
  }

  lemma MoreActive(slabs: map<int, Slab>, pages: seq<int>, p: int, s: Slab)
    requires p !in slabs && AllIn(slabs, pages) && SetBits(s.bits) == 0
    ensures AllIn(slabs[p := s], [p] + pages) && Active(slabs[p := s], [p] + pages) == Active(slabs, pages)
  {
    ActiveSame(slabs, slabs[p := s], pages);
    assert ([p] + pages)[1..] == pages;
  }
}
