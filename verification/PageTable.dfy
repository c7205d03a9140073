/**
 Four-level page tables: mapping, unmapping with release of empty tables, and translation, over tables
 of 512 entries kept in page frames. `own` records, for the proofs, at which place of which address
 space a table is linked; the tables themselves store no such thing.
 */
module PageTable {
  const ENTRIES: int := 512

  /** A page-table entry: the flag bits that matter here, the frame, and all other bits. */
  datatype Entry = Entry(present: bool, rw: bool, user: bool, ps: bool, frame: int, bits: int)

  const ZERO: Entry := Entry(false, false, false, false, 0, 0)

  /** The table frames and the frames the page allocator has left. */
  datatype Mem = Mem(tables: map<int, seq<Entry>>, free: seq<int>)

  /** The table indices of a virtual page from the level at hand down to the last. */
  type Path = seq<int>

  ghost predicate ValidPath(p: Path) {
    forall i :: 0 <= i < |p| ==> 0 <= p[i] < ENTRIES
  }

  function Blank(): (r: seq<Entry>)
    ensures |r| == ENTRIES && forall i :: 0 <= i < ENTRIES ==> r[i] == ZERO
  {
    seq(ENTRIES, _ => ZERO)
  }

  function Table(m: Mem, t: int): (r: seq<Entry>)
    ensures |r| == ENTRIES
  {
    if t in m.tables && |m.tables[t]| == ENTRIES then m.tables[t] else Blank()
  }

  function Put(m: Mem, t: int, i: int, e: Entry): Mem
    requires 0 <= i < ENTRIES
  {
    m.(tables := m.tables[t := Table(m, t)[i := e]])
  }

  // ---------------------------------------------------------------- translation

  /** What the hardware finds for a page: the entry, the level it sits at, and the rights along the way. */
  datatype Found = Unmapped | Mapped(level: int, entry: Entry, rw: bool, user: bool)

  /** Rights of an upper-level entry restrict what lies below it. */
  function Restrict(e: Entry, f: Found): Found {
    if f.Unmapped? then f else f.(rw := e.rw && f.rw, user := e.user && f.user)
  }

  /** An entry that ends the walk: the last level, or a huge page below the top level. */
  predicate Ends(e: Entry, k: int) { k == 1 || (e.ps && k < 4) }

  function Walk(m: Mem, t: int, p: Path): Found
    requires p != [] && forall i :: 0 <= i < |p| ==> 0 <= p[i] < ENTRIES
    decreases |p|
  {
    var e := Table(m, t)[p[0]];
    if !e.present then Unmapped
    else if Ends(e, |p|) then Mapped(|p|, e, e.rw, e.user)
    else Restrict(e, Walk(m, e.frame, p[1..]))
  }

  // ---------------------------------------------------------------- mapping

  /** The next table down, allocated and zeroed if missing, with the wanted rights added to its entry. */
  function NextLevel(m: Mem, t: int, i: int, rw: bool, user: bool): (r: (Mem, int))
    requires 0 <= i < ENTRIES
  {
    var e := Table(m, t)[i];
    if e.present then (Put(m, t, i, e.(rw := e.rw || rw, user := e.user || user)), e.frame)
    else if m.free == [] then (m, 0)
    else
      var f := m.free[0];
      var m1 := m.(free := m.free[1..], tables := m.tables[f := Blank()]);
      (Put(m1, t, i, Entry(true, true, true, false, f, 0)), f)
  }

  /** Maps the page at path p below table t; false when no frame is left for a table. */
  function MapFrom(m: Mem, t: int, p: Path, leaf: Entry): (Mem, bool)
    requires p != [] && forall i :: 0 <= i < |p| ==> 0 <= p[i] < ENTRIES
    decreases |p|
  {
    if |p| == 1 then (Put(m, t, p[0], leaf), true)
    else
      var (m1, c) := NextLevel(m, t, p[0], leaf.rw, leaf.user);
      if c == 0 then (m1, false) else MapFrom(m1, c, p[1..], leaf)
  }

  // ---------------------------------------------------------------- unmapping

  predicate Empty(s: seq<Entry>) {
    forall i :: 0 <= i < |s| ==> !s[i].present
  }

  /** The whole way down is there and no huge page ends it early. */
  predicate Reaches(m: Mem, t: int, p: Path)
    requires p != [] && forall i :: 0 <= i < |p| ==> 0 <= p[i] < ENTRIES
    decreases |p|
  {
    |p| == 1 || (var e := Table(m, t)[p[0]]; e.present && !Ends(e, |p|) && Reaches(m, e.frame, p[1..]))
  }

  /** Clears the last entry and, from the bottom up as long as tables become empty, unlinks and frees them. */
  function UnmapFrom(m: Mem, t: int, p: Path): (Mem, bool)
    requires p != [] && forall i :: 0 <= i < |p| ==> 0 <= p[i] < ENTRIES
    decreases |p|
  {
    if |p| == 1 then (Put(m, t, p[0], ZERO), true)
    else
      var c := Table(m, t)[p[0]].frame;
      var (m1, freed) := UnmapFrom(m, c, p[1..]);
      if freed && Empty(Table(m1, c)) then (Release(Put(m1, t, p[0], ZERO), c), true) else (m1, false)
  }

  /** Gives a table's frame back to the page allocator. */
  function Release(m: Mem, c: int): Mem {
    m.(free := m.free + [c], tables := m.tables - {c})
  }

  function Unmap(m: Mem, t: int, p: Path): Mem
    requires p != [] && forall i :: 0 <= i < |p| ==> 0 <= p[i] < ENTRIES
  {
    if Reaches(m, t, p) then UnmapFrom(m, t, p).0 else m
  }

  // ---------------------------------------------------------------- ownership

  /** Where a table is linked: address space, and the indices that lead to it. */
  datatype Owner = Owner(root: int, prefix: Path)

  type Owners = map<int, Owner>

  /** Entry j of an owned table links a table owned one step further on, open to reading, writing and user mode. */
  ghost predicate LinkOk(m: Mem, own: Owners, t: int, j: int)
    requires t in own && 0 <= j < ENTRIES
  {
    var e := Table(m, t)[j];
    var k := 4 - |own[t].prefix|;
    k >= 2 && (k == 4 ==> j < 256) && e.present && !Ends(e, k) ==>
      e.frame in own && own[e.frame] == Owner(own[t].root, own[t].prefix + [j]) && e.rw && e.user
  }

  ghost predicate Frames(m: Mem, own: Owners) {
    && (forall t :: t in own ==> t != 0 && t in m.tables && |m.tables[t]| == ENTRIES && |own[t].prefix| <= 3)
    && (forall t :: t in own ==> t !in m.free)
    && (forall i :: 0 <= i < |m.free| ==> m.free[i] != 0)
    && (forall i, j :: 0 <= i < j < |m.free| ==> m.free[i] != m.free[j])
  }

  /** Table u links table t, at the place t is owned at. */
  ghost predicate ParentOf(m: Mem, own: Owners, u: int, t: int)
    requires u in own && t in own
  {
    own[t].prefix != [] &&
    var j := own[t].prefix[|own[t].prefix| - 1];
    && own[u] == Owner(own[t].root, own[t].prefix[..|own[t].prefix| - 1]) && 0 <= j < ENTRIES
    && Table(m, u)[j].present && !Ends(Table(m, u)[j], 4 - |own[u].prefix|) && Table(m, u)[j].frame == t
  }

  ghost predicate HasParent(m: Mem, own: Owners, t: int)
    requires t in own
  {
    own[t].prefix == [] || exists u :: u in own && ParentOf(m, own, u, t)
  }

  /** Every table has one place, every place one table, and every table is linked from its parent. */
  ghost predicate Linked(m: Mem, own: Owners) {
    && Frames(m, own)
    && (forall t, j :: t in own && 0 <= j < ENTRIES ==> LinkOk(m, own, t, j))
    && (forall t, u :: t in own && u in own && own[t] == own[u] ==> t == u)
    && (forall t :: t in own ==> HasParent(m, own, t))
  }

  ghost predicate Extends(own: Owners, own': Owners) {
    forall t :: t in own ==> t in own' && own'[t] == own[t]
  }

  /** A table on the way of address space r to the page at `full`. */
  ghost predicate OnPath(o: Owner, r: int, full: Path) {
    o.root == r && o.prefix <= full
  }

  /** Tables off the way, and those above the first n steps of it, are untouched. */
  ghost predicate Framed(m: Mem, w: Mem, own: Owners, r: int, full: Path, n: int) {
    forall t :: t in own && !(OnPath(own[t], r, full) && |own[t].prefix| >= n) ==> Table(w, t) == Table(m, t)
  }

  /** Paths of the user half: the top-level index is below 256. */
  ghost predicate UserPath(o: Owner, p: Path) {
    |o.prefix| + |p| == 4 && p != [] && ValidPath(p) && (|p| == 4 ==> p[0] < 256)
  }

  lemma {:induction false} OffPathWalk(m: Mem, w: Mem, own: Owners, r: int, full: Path, n: int, t: int, p: Path)
    requires Linked(m, own) && Framed(m, w, own, r, full, n)
    requires t in own && !OnPath(own[t], r, full) && UserPath(own[t], p)
    ensures Walk(w, t, p) == Walk(m, t, p)
    decreases |p|
  {
    hide HasParent, Table;
    var e := Table(m, t)[p[0]];
    assert LinkOk(m, own, t, p[0]);
    if e.present && !Ends(e, |p|) {
      assert own[e.frame].prefix == own[t].prefix + [p[0]];
      assert !OnPath(own[e.frame], r, full) by { Shorter(own[t].prefix, p[0], full); }
      OffPathWalk(m, w, own, r, full, n, e.frame, p[1..]);
    }
  }

  lemma Shorter(q: Path, j: int, full: Path)
    ensures q + [j] <= full ==> q <= full
  {
    if q + [j] <= full { assert forall i :: 0 <= i < |q| ==> q[i] == (q + [j])[i]; }
  }

  lemma NextStep(q: Path, j: int, full: Path)
    requires q <= full && |q| < |full|
    ensures q + [j] <= full <==> full[|q|] == j
  {
  }

  // ---------------------------------------------------------------- what mapping changes

  /** No huge page lies on the way; mapping does not look for one. */
  predicate NoHuge(m: Mem, t: int, p: Path)
    requires p != [] && forall i :: 0 <= i < |p| ==> 0 <= p[i] < ENTRIES
    decreases |p|
  {
    |p| == 1 || (var e := Table(m, t)[p[0]]; !e.present || (!Ends(e, |p|) && NoHuge(m, e.frame, p[1..])))
  }

  /** How many tables are missing on the way. */
  function Missing(m: Mem, t: int, p: Path): (n: nat)
    requires p != [] && forall i :: 0 <= i < |p| ==> 0 <= p[i] < ENTRIES
    ensures n < |p|
    decreases |p|
  {
    if |p| == 1 then 0
    else
      var e := Table(m, t)[p[0]];
      if e.present then Missing(m, e.frame, p[1..]) else |p| - 1
  }

  /** Below table t, exactly the page at p changed, to f, if ok; no other page did. */
  ghost predicate Sets(m: Mem, w: Mem, o: Owner, t: int, p: Path, f: Found, ok: bool) {
    forall q :: UserPath(o, q) ==> Walk(w, t, q) == if ok && q == p then f else Walk(m, t, q)
  }

  /** No frame is lost or made up. */
  ghost predicate Conserved(m: Mem, own: Owners, w: Mem, own': Owners) {
    forall t :: t in own || t in m.free <==> t in own' || t in w.free
  }

  /** No table on the way from step n on is empty. */
  ghost predicate Filled(m: Mem, own: Owners, r: int, full: Path, n: int) {
    forall t :: t in own && OnPath(own[t], r, full) && |own[t].prefix| >= n ==> !Empty(Table(m, t))
  }

  /** Tables that were added lie on the way, below step n. */
  ghost predicate Added(own: Owners, own': Owners, r: int, full: Path, n: int) {
    forall t :: t in own' && t !in own ==> OnPath(own'[t], r, full) && |own'[t].prefix| > n
  }

  /** What a mapping that ran out of frames leaves behind: nothing, or a fresh table that stayed empty. */
  ghost predicate Stuck(m: Mem, own: Owners, w: Mem, own': Owners) {
    if own' == own then forall t :: t in own ==> (Empty(Table(w, t)) <==> Empty(Table(m, t)))
    else exists t :: t in own' && t !in own && Empty(Table(w, t))
  }

  ghost predicate MapDone(m: Mem, own: Owners, own': Owners, t: int, p: Path, leaf: Entry)
    requires t in own && UserPath(own[t], p)
  {
    var (w, ok) := MapFrom(m, t, p, leaf);
    && Extends(own, own') && Linked(w, own')
    && Framed(m, w, own, own[t].root, own[t].prefix + p, |own[t].prefix|)
    && Sets(m, w, own[t], t, p, Mapped(1, leaf, leaf.rw, leaf.user), ok)
    && Conserved(m, own, w, own') && Added(own, own', own[t].root, own[t].prefix + p, |own[t].prefix|)
    && (ok ==> Filled(w, own', own[t].root, own[t].prefix + p, |own[t].prefix|))
    && (!ok ==> Stuck(m, own, w, own'))
    && (ok <==> |m.free| >= Missing(m, t, p)) && (own' == own <==> m.free == [] || Missing(m, t, p) == 0)
  }

  /** Only the table at a place is on the way at that step. */
  lemma OnlyOnPath(own: Owners, t: int, p: Path, x: int)
    requires t in own && x in own && |own[x].prefix| == |own[t].prefix| && OnPath(own[x], own[t].root, own[t].prefix + p)
    requires forall t, u :: t in own && u in own && own[t] == own[u] ==> t == u
    ensures x == t
  {
    assert own[x].prefix == (own[t].prefix + p)[..|own[t].prefix|];
    assert own[t].prefix == (own[t].prefix + p)[..|own[t].prefix|];
  }

  /** One level up: what holds below the child on the way holds below the table that links it. */
  lemma WalkAbove(m: Mem, w: Mem, own: Owners, t: int, p: Path, f: Found, ok: bool, q: Path)
    requires Linked(m, own) && t in own && UserPath(own[t], p) && UserPath(own[t], q) && |p| >= 2
    requires Framed(m, w, own, own[t].root, own[t].prefix + p, |own[t].prefix| + 1)
    requires var e := Table(m, t)[p[0]];
      && e.present && !Ends(e, |p|) && Sets(m, w, Owner(own[t].root, own[t].prefix + [p[0]]), e.frame, p[1..], f, ok)
    ensures Walk(w, t, q) == if ok && q == p then f else Walk(m, t, q)
  {
    hide HasParent, Table;
    var e := Table(m, t)[q[0]];
    assert Table(w, t) == Table(m, t);
    assert LinkOk(m, own, t, q[0]) && LinkOk(m, own, t, p[0]);
    if q[0] == p[0] {
      assert UserPath(Owner(own[t].root, own[t].prefix + [p[0]]), q[1..]);
      assert q == [q[0]] + q[1..] && p == [p[0]] + p[1..];
      assert q == p <==> q[1..] == p[1..];
    } else if e.present && !Ends(e, |q|) {
      var full := own[t].prefix + p;
      NextStep(own[t].prefix, q[0], full);
      OffPathWalk(m, w, own, own[t].root, full, |own[t].prefix| + 1, e.frame, q[1..]);
    }
  }

  /** Entries of a last-level table link no table. */
  lemma LeafParent(m: Mem, own: Owners, t: int, i: int, e: Entry, x: int)
    requires Linked(m, own) && t in own && |own[t].prefix| == 3 && 0 <= i < ENTRIES && x in own
    ensures HasParent(Put(m, t, i, e), own, x)
  {
    assert HasParent(m, own, x);
    if own[x].prefix != [] {
      var u :| u in own && ParentOf(m, own, u, x);
      assert ParentOf(Put(m, t, i, e), own, u, x);
    }
  }

  /** The last level. */
  lemma MapLeaf(m: Mem, own: Owners, t: int, p: Path, leaf: Entry)
    requires Linked(m, own) && t in own && UserPath(own[t], p) && |p| == 1 && leaf.present
    ensures MapDone(m, own, own, t, p, leaf)
  {
    hide HasParent;
    var w := Put(m, t, p[0], leaf);
    forall x, j | x in own && 0 <= j < ENTRIES ensures LinkOk(w, own, x, j) {
      assert LinkOk(m, own, x, j);
    }
    forall x | x in own ensures HasParent(w, own, x) { LeafParent(m, own, t, p[0], leaf, x); }
    assert own[t].prefix <= own[t].prefix + p;
    assert Table(w, t)[p[0]].present;
    forall x | x in own && OnPath(own[x], own[t].root, own[t].prefix + p) && |own[x].prefix| >= 3 ensures x == t {
      OnlyOnPath(own, t, p, x);
    }
    forall q | UserPath(own[t], q) ensures Walk(w, t, q) == if q == p then Mapped(1, leaf, leaf.rw, leaf.user) else Walk(m, t, q) {
      assert q == [q[0]] && p == [p[0]];
    }
  }

  /** The next table is there: nothing changes at this level. */
  lemma PresentStep(m: Mem, own: Owners, t: int, p: Path, leaf: Entry)
    requires Linked(m, own) && t in own && UserPath(own[t], p) && |p| >= 2
    requires Table(m, t)[p[0]].present && !Ends(Table(m, t)[p[0]], |p|)
    ensures var c := Table(m, t)[p[0]].frame;
      && c in own && own[c] == Owner(own[t].root, own[t].prefix + [p[0]]) && UserPath(own[c], p[1..])
      && own[c].prefix + p[1..] == own[t].prefix + p
      && MapFrom(m, t, p, leaf) == MapFrom(m, c, p[1..], leaf) && Missing(m, t, p) == Missing(m, c, p[1..])
  {
    hide HasParent;
    var e := Table(m, t)[p[0]];
    assert LinkOk(m, own, t, p[0]);
    var m1 := Put(m, t, p[0], e);
    assert Table(m, t)[p[0] := e] == m.tables[t];
    assert m1.tables == m.tables;
    assert NextLevel(m, t, p[0], leaf.rw, leaf.user) == (m, e.frame);
  }

  lemma {:induction false} MapExisting(m: Mem, own: Owners, t: int, p: Path, leaf: Entry) returns (own': Owners)
    requires Linked(m, own) && t in own && UserPath(own[t], p) && |p| >= 2 && NoHuge(m, t, p) && leaf.present
    requires Table(m, t)[p[0]].present
    ensures MapDone(m, own, own', t, p, leaf)
    decreases |p|, 0
  {
    hide HasParent, Table, LinkOk, MapFrom, Frames, Walk, Missing;
    PresentStep(m, own, t, p, leaf);
    var c := Table(m, t)[p[0]].frame;
    own' := MapTree(m, own, c, p[1..], leaf);
    var (w, ok) := MapFrom(m, t, p, leaf);
    forall q | UserPath(own[t], q) ensures Walk(w, t, q) == if ok && q == p then Mapped(1, leaf, leaf.rw, leaf.user) else Walk(m, t, q) {
      WalkAbove(m, w, own, t, p, Mapped(1, leaf, leaf.rw, leaf.user), ok, q);
    }
    if ok {
      var n := |own[t].prefix|;
      assert Table(w, t)[p[0]].present;
      forall x | x in own' && OnPath(own'[x], own[t].root, own[t].prefix + p) && |own'[x].prefix| >= n ensures !Empty(Table(w, x)) {
        if |own'[x].prefix| == n { OnlyOnPath(own', t, p, x); }
      }
    }
  }

  // ---------------------------------------------------------------- a fresh table

  /** m with its first free frame, zeroed, linked as entry i of table t. */
  function Grow(m: Mem, t: int, i: int): Mem
    requires 0 <= i < ENTRIES && m.free != []
  {
    var f := m.free[0];
    Put(m.(free := m.free[1..], tables := m.tables[f := Blank()]), t, i, Entry(true, true, true, false, f, 0))
  }

  lemma GrowTable(m: Mem, t: int, i: int, c: int)
    requires 0 <= i < ENTRIES && m.free != [] && t != m.free[0]
    ensures Table(Grow(m, t, i), c) ==
      if c == t then Table(m, t)[i := Entry(true, true, true, false, m.free[0], 0)] else if c == m.free[0] then Blank() else Table(m, c)
  {
  }

  lemma GrowLinked(m: Mem, own: Owners, t: int, i: int)
    requires Linked(m, own) && t in own && |own[t].prefix| <= 2 && 0 <= i < ENTRIES && m.free != [] && !Table(m, t)[i].present
    ensures Linked(Grow(m, t, i), own[m.free[0] := Owner(own[t].root, own[t].prefix + [i])])
    ensures m.free[0] != 0 && m.free[0] !in own
  {
    hide HasParent, Table;
    var f := m.free[0];
    var w, own' := Grow(m, t, i), own[f := Owner(own[t].root, own[t].prefix + [i])];
    assert f in m.free;
    GrowFrames(m, own, t, i);
    forall x, j | x in own' && 0 <= j < ENTRIES ensures LinkOk(w, own', x, j) {
      GrowTable(m, t, i, x);
      if x != f { assert LinkOk(m, own, x, j); }
    }
    forall x | x in own ensures own[x] != own'[f] && HasParent(w, own', x) { GrowParent(m, own, t, i, x); }
    GrowTable(m, t, i, t);
    assert (own[t].prefix + [i])[..|own[t].prefix|] == own[t].prefix;
    ParentGives(w, own', t, f);
  }

  lemma ParentGives(m: Mem, own: Owners, u: int, t: int)
    requires u in own && t in own && ParentOf(m, own, u, t)
    ensures HasParent(m, own, t)
  {
  }

  lemma GrowParent(m: Mem, own: Owners, t: int, i: int, x: int)
    requires Linked(m, own) && t in own && |own[t].prefix| <= 2 && 0 <= i < ENTRIES && m.free != [] && !Table(m, t)[i].present
    requires m.free[0] !in own && x in own
    ensures var f := m.free[0]; var own' := own[f := Owner(own[t].root, own[t].prefix + [i])];
      own[x] != own'[f] && HasParent(Grow(m, t, i), own', x)
  {
    hide Table;
    var f := m.free[0];
    var own' := own[f := Owner(own[t].root, own[t].prefix + [i])];
    assert HasParent(m, own, x);
    assert (own[t].prefix + [i])[..|own[t].prefix|] == own[t].prefix;
    if own[x].prefix != [] {
      var u :| u in own && ParentOf(m, own, u, x);
      GrowTable(m, t, i, u);
      assert ParentOf(Grow(m, t, i), own', u, x);
    }
  }

  lemma GrowFrames(m: Mem, own: Owners, t: int, i: int)
    requires Frames(m, own) && t in own && |own[t].prefix| <= 2 && 0 <= i < ENTRIES && m.free != []
    ensures m.free[0] in m.free && m.free[0] !in own
    ensures Frames(Grow(m, t, i), own[m.free[0] := Owner(own[t].root, own[t].prefix + [i])])
  {
  }

  /** Linking a zeroed table changes no translation. */
  lemma GrowWalk(m: Mem, own: Owners, t: int, i: int, q: Path)
    requires Linked(m, own) && t in own && UserPath(own[t], q) && |q| >= 2
    requires 0 <= i < ENTRIES && m.free != [] && !Table(m, t)[i].present && m.free[0] !in own
    ensures Walk(Grow(m, t, i), t, q) == Walk(m, t, q)
  {
    hide HasParent, Table;
    var w := Grow(m, t, i);
    GrowTable(m, t, i, t);
    GrowTable(m, t, i, m.free[0]);
    var e := Table(m, t)[q[0]];
    if q[0] == i {
      assert Walk(w, m.free[0], q[1..]) == Unmapped;
    } else if e.present && !Ends(e, |q|) {
      assert LinkOk(m, own, t, q[0]);
      forall x | x in own && x != t ensures Table(w, x) == Table(m, x) { GrowTable(m, t, i, x); }
      OffPathWalk(m, w, own, own[t].root, own[t].prefix, |own[t].prefix|, e.frame, q[1..]);
    }
  }

  /** The next table is missing: the same mapping, once a fresh one is linked. */
  lemma {:induction false} MapFresh(m: Mem, own: Owners, t: int, p: Path, leaf: Entry) returns (own': Owners)
    requires Linked(m, own) && t in own && UserPath(own[t], p) && |p| >= 2 && NoHuge(m, t, p) && leaf.present
    requires !Table(m, t)[p[0]].present && m.free != []
    ensures MapDone(m, own, own', t, p, leaf)
    decreases |p|, 1
  {
    hide HasParent, Table, LinkOk, MapFrom, Walk, NoHuge, Stuck, Frames, Empty, Missing;
    var i, f := p[0], m.free[0];
    GrowLinked(m, own, t, i);
    var w1, own1 := Grow(m, t, i), own[f := Owner(own[t].root, own[t].prefix + [i])];
    GrowTable(m, t, i, t);
    GrowMap(m, t, p, leaf);
    GrowNoHuge(m, t, p);
    GrowMissing(m, t, p);
    own' := MapExisting(w1, own1, t, p, leaf);
    var (w, ok) := MapFrom(m, t, p, leaf);
    forall q | UserPath(own[t], q) ensures Walk(w, t, q) == if ok && q == p then Mapped(1, leaf, leaf.rw, leaf.user) else Walk(m, t, q) {
      GrowWalk(m, own, t, i, q);
    }
    forall x | x in own && !(OnPath(own[x], own[t].root, own[t].prefix + p) && |own[x].prefix| >= |own[t].prefix|)
      ensures Table(w, x) == Table(m, x)
    {
      GrowTable(m, t, i, x);
      assert own[t].prefix <= own[t].prefix + p;
    }
    GrowTable(m, t, i, f);
    if !ok { GrowStuck(m, own, w1, own1, w, own', f); }
  }

  lemma GrowStuck(m: Mem, own: Owners, m1: Mem, own1: Owners, w: Mem, own': Owners, f: int)
    requires Stuck(m1, own1, w, own') && Extends(own1, own') && f in own1 && f !in own && own1 == own[f := own1[f]] && Table(m1, f) == Blank()
    ensures Stuck(m, own, w, own')
  {
    assert f in own' && f !in own;
    if own' == own1 { assert Empty(Table(w, f)); }
  }

  lemma GrowMap(m: Mem, t: int, p: Path, leaf: Entry)
    requires p != [] && |p| >= 2 && ValidPath(p) && m.free != [] && m.free[0] != 0 && t != m.free[0] && !Table(m, t)[p[0]].present
    ensures MapFrom(m, t, p, leaf) == MapFrom(Grow(m, t, p[0]), t, p, leaf)
  {
    hide Table;
    var w := Grow(m, t, p[0]);
    GrowTable(m, t, p[0], t);
    var e := Table(w, t)[p[0]];
    assert NextLevel(m, t, p[0], leaf.rw, leaf.user) == (w, m.free[0]);
    assert NextLevel(w, t, p[0], leaf.rw, leaf.user) == (Put(w, t, p[0], e), m.free[0]);
    PutSame(w, t, p[0]);
  }

  lemma PutSame(m: Mem, t: int, i: int)
    requires 0 <= i < ENTRIES && t in m.tables && |m.tables[t]| == ENTRIES
    ensures Put(m, t, i, Table(m, t)[i]) == m
  {
    assert Table(m, t)[i := Table(m, t)[i]] == m.tables[t];
    assert m.tables[t := Table(m, t)[i := Table(m, t)[i]]] == m.tables;
  }

  /** A fresh table is one missing table less, and one free frame less. */
  lemma GrowMissing(m: Mem, t: int, p: Path)
    requires p != [] && 2 <= |p| <= 4 && ValidPath(p) && m.free != [] && t != m.free[0] && !Table(m, t)[p[0]].present
    ensures Missing(m, t, p) == |p| - 1 && Missing(Grow(m, t, p[0]), t, p) == |p| - 2 && |Grow(m, t, p[0]).free| == |m.free| - 1
  {
    hide Table;
    GrowTable(m, t, p[0], t);
    GrowTable(m, t, p[0], m.free[0]);
  }

  lemma GrowNoHuge(m: Mem, t: int, p: Path)
    requires p != [] && 2 <= |p| <= 4 && ValidPath(p) && m.free != [] && t != m.free[0] && !Table(m, t)[p[0]].present
    ensures NoHuge(Grow(m, t, p[0]), t, p)
  {
    hide Table;
    GrowTable(m, t, p[0], t);
    GrowTable(m, t, p[0], m.free[0]);
  }

  /**
   Mapping a page: the page's own translation becomes the new entry with exactly its rights, no other page of
   any address space changes, and a mapping that runs out of frames changes no translation at all.
   */
  lemma {:induction false} MapTree(m: Mem, own: Owners, t: int, p: Path, leaf: Entry) returns (own': Owners)
    requires Linked(m, own) && t in own && UserPath(own[t], p) && NoHuge(m, t, p) && leaf.present
    ensures MapDone(m, own, own', t, p, leaf)
    decreases |p|, 2
  {
    hide HasParent, Table, LinkOk, Walk, Frames;
    if |p| == 1 {
      MapLeaf(m, own, t, p, leaf);
      own' := own;
    } else if Table(m, t)[p[0]].present {
      own' := MapExisting(m, own, t, p, leaf);
    } else if m.free != [] {
      own' := MapFresh(m, own, t, p, leaf);
    } else {
      own' := own;
    }
  }

  // ---------------------------------------------------------------- what unmapping changes

  /** Tables freed by unmapping lie on the way, strictly below the first n steps; all others keep their place. */
  ghost predicate Shrinks(own: Owners, own': Owners, r: int, full: Path, n: int) {
    && (forall t :: t in own' ==> t in own && own'[t] == own[t])
    && (forall t :: t in own && t !in own' ==> OnPath(own[t], r, full) && |own[t].prefix| > n)
  }

  ghost predicate UnmapDone(m: Mem, own: Owners, own': Owners, t: int, p: Path)
    requires t in own && UserPath(own[t], p)
  {
    var (w, freed) := UnmapFrom(m, t, p);
    && Shrinks(own, own', own[t].root, own[t].prefix + p, |own[t].prefix|) && Linked(w, own') && Conserved(m, own, w, own')
    && Framed(m, w, own, own[t].root, own[t].prefix + p, |own[t].prefix|)
    && Sets(m, w, own[t], t, p, Unmapped, true)
    && Filled(w, own', own[t].root, own[t].prefix + p, |own[t].prefix| + 1)
    && (freed || !Empty(Table(w, t)))
  }

  lemma UnmapLeaf(m: Mem, own: Owners, t: int, p: Path)
    requires Linked(m, own) && t in own && UserPath(own[t], p) && |p| == 1
    ensures UnmapDone(m, own, own, t, p)
  {
    hide HasParent;
    var w := Put(m, t, p[0], ZERO);
    forall x, j | x in own && 0 <= j < ENTRIES ensures LinkOk(w, own, x, j) {
      assert LinkOk(m, own, x, j);
    }
    forall x | x in own ensures HasParent(w, own, x) { LeafParent(m, own, t, p[0], ZERO, x); }
    assert own[t].prefix <= own[t].prefix + p;
    forall q | UserPath(own[t], q) ensures Walk(w, t, q) == if q == p then Unmapped else Walk(m, t, q) {
      assert q == [q[0]] && p == [p[0]];
    }
  }

  /** Entry i of table t, which linked the empty table c, is cleared, and c goes back to the allocator. */
  function Prune(m: Mem, t: int, i: int, c: int): Mem
    requires 0 <= i < ENTRIES
  {
    Release(Put(m, t, i, ZERO), c)
  }

  lemma PruneTable(m: Mem, t: int, i: int, c: int, x: int)
    requires 0 <= i < ENTRIES && t != c && x != c
    ensures Table(Prune(m, t, i, c), x) == if x == t then Table(m, t)[i := ZERO] else Table(m, x)
  {
  }

  ghost predicate Prunable(m: Mem, own: Owners, t: int, i: int, c: int) {
    && Linked(m, own) && t in own && c in own && |own[t].prefix| <= 2 && 0 <= i < ENTRIES
    && own[c] == Owner(own[t].root, own[t].prefix + [i]) && Empty(Table(m, c))
    && Table(m, t)[i].present && Table(m, t)[i].frame == c && !Ends(Table(m, t)[i], 4 - |own[t].prefix|)
  }

  lemma PruneLink(m: Mem, own: Owners, t: int, i: int, c: int, x: int, j: int)
    requires Prunable(m, own, t, i, c) && x in own && x != c && 0 <= j < ENTRIES
    ensures LinkOk(Prune(m, t, i, c), own - {c}, x, j)
  {
    hide Table, HasParent, Frames;
    assert own[t].prefix != own[c].prefix;
    PruneTable(m, t, i, c, x);
    assert LinkOk(m, own, x, j);
    var e := Table(m, x)[j];
    if e.frame == c && own[x] == own[t] { assert x == t; }
    if own[x].prefix + [j] == own[t].prefix + [i] { LastSame(own[x].prefix, j, own[t].prefix, i); }
  }

  lemma LastSame(p: Path, j: int, q: Path, i: int)
    requires p + [j] == q + [i]
    ensures p == q && j == i
  {
    assert |p| == |q|;
    assert p == (p + [j])[..|p|] && q == (q + [i])[..|q|];
    assert (p + [j])[|p|] == j && (q + [i])[|q|] == i;
  }

  lemma PruneParent(m: Mem, own: Owners, t: int, i: int, c: int, x: int)
    requires Prunable(m, own, t, i, c) && x in own && x != c
    ensures HasParent(Prune(m, t, i, c), own - {c}, x)
  {
    hide Table, Frames, LinkOk;
    assert own[t].prefix != own[c].prefix;
    assert HasParent(m, own, x);
    if own[x].prefix != [] {
      var u :| u in own && ParentOf(m, own, u, x);
      var j := own[x].prefix[|own[x].prefix| - 1];
      assert u != c;
      PruneTable(m, t, i, c, u);
      assert ParentOf(Prune(m, t, i, c), own - {c}, u, x);
    }
  }

  lemma PruneFrames(m: Mem, own: Owners, t: int, i: int, c: int)
    requires Frames(m, own) && t in own && c in own && t != c && 0 <= i < ENTRIES
    ensures Frames(Prune(m, t, i, c), own - {c}) && Conserved(m, own, Prune(m, t, i, c), own - {c})
  {
  }

  lemma PruneLinked(m: Mem, own: Owners, t: int, i: int, c: int)
    requires Prunable(m, own, t, i, c)
    ensures Linked(Prune(m, t, i, c), own - {c}) && Conserved(m, own, Prune(m, t, i, c), own - {c})
  {
    hide Table, HasParent, Frames, LinkOk;
    var w, own' := Prune(m, t, i, c), own - {c};
    assert own[t].prefix != own[c].prefix;
    PruneFrames(m, own, t, i, c);
    forall x, j | x in own' && 0 <= j < ENTRIES ensures LinkOk(w, own', x, j) { PruneLink(m, own, t, i, c, x, j); }
    forall x | x in own' ensures HasParent(w, own', x) { PruneParent(m, own, t, i, c, x); }
  }

  /** Unlinking an empty table changes no translation. */
  lemma PruneWalk(m: Mem, own: Owners, t: int, i: int, c: int, q: Path)
    requires Prunable(m, own, t, i, c) && UserPath(own[t], q)
    ensures Walk(Prune(m, t, i, c), t, q) == Walk(m, t, q)
  {
    hide Table, HasParent;
    var w := Prune(m, t, i, c);
    assert own[t].prefix != own[c].prefix;
    PruneTable(m, t, i, c, t);
    var e := Table(m, t)[q[0]];
    if q[0] == i {
      assert Walk(m, c, q[1..]) == Unmapped;
    } else if e.present && !Ends(e, |q|) {
      assert LinkOk(m, own, t, q[0]);
      var full := own[t].prefix + [i];
      assert own[t].prefix <= full;
      NextStep(own[t].prefix, q[0], full);
      forall x | x in own && !(OnPath(own[x], own[t].root, full) && |own[x].prefix| >= |own[t].prefix|)
        ensures Table(w, x) == Table(m, x)
      {
        PruneTable(m, t, i, c, x);
      }
      OffPathWalk(m, w, own, own[t].root, full, |own[t].prefix|, e.frame, q[1..]);
    }
  }

  /** Unmapping below a table, after the tables below it have been dealt with. */
  lemma UnmapAbove(m: Mem, own: Owners, own1: Owners, t: int, p: Path) returns (own': Owners)
    requires Linked(m, own) && t in own && UserPath(own[t], p) && |p| >= 2
    requires Table(m, t)[p[0]].present && !Ends(Table(m, t)[p[0]], |p|)
    requires var c := Table(m, t)[p[0]].frame;
      && c in own && own[c] == Owner(own[t].root, own[t].prefix + [p[0]]) && UserPath(own[c], p[1..])
      && own[c].prefix + p[1..] == own[t].prefix + p && UnmapDone(m, own, own1, c, p[1..])
    ensures UnmapDone(m, own, own', t, p)
  {
    hide Table, HasParent, Frames, LinkOk, Walk, UnmapFrom;
    var c := Table(m, t)[p[0]].frame;
    var (m1, freed) := UnmapFrom(m, c, p[1..]);
    assert UnmapFrom(m, t, p) == if freed && Empty(Table(m1, c)) then (Prune(m1, t, p[0], c), true) else (m1, false) by { UnmapStep(m, t, p); }
    var w := UnmapFrom(m, t, p).0;
    assert t in own1 && c in own1 && Table(m1, t) == Table(m, t);
    forall q | UserPath(own[t], q) ensures Walk(m1, t, q) == if q == p then Unmapped else Walk(m, t, q) {
      WalkAbove(m, m1, own, t, p, Unmapped, true, q);
    }
    if Empty(Table(m1, c)) {
      own' := own1 - {c};
      assert own[t].prefix != own[c].prefix;
      PruneLinked(m1, own1, t, p[0], c);
      forall q | UserPath(own[t], q) ensures Walk(w, t, q) == if q == p then Unmapped else Walk(m, t, q) {
        PruneWalk(m1, own1, t, p[0], c, q);
      }
      forall x | x in own && !(OnPath(own[x], own[t].root, own[t].prefix + p) && |own[x].prefix| >= |own[t].prefix|)
        ensures Table(w, x) == Table(m, x)
      {
        assert own[t].prefix <= own[t].prefix + p && own[c].prefix <= own[t].prefix + p;
        PruneTable(m1, t, p[0], c, x);
      }
      assert own[c].prefix <= own[t].prefix + p;
    } else {
      own' := own1;
    }
    forall x | x in own' && OnPath(own'[x], own[t].root, own[t].prefix + p) && |own'[x].prefix| >= |own[t].prefix| + 1
      ensures !Empty(Table(w, x))
    {
      if |own'[x].prefix| == |own[c].prefix| { OnlyOnPath(own1, c, p[1..], x); }
      if c !in own' { PruneTable(m1, t, p[0], c, x); }
    }
  }

  lemma UnmapStep(m: Mem, t: int, p: Path)
    requires |p| >= 2 && ValidPath(p)
    ensures var c := Table(m, t)[p[0]].frame; var (m1, freed) := UnmapFrom(m, c, p[1..]);
      UnmapFrom(m, t, p) == if freed && Empty(Table(m1, c)) then (Prune(m1, t, p[0], c), true) else (m1, false)
  {
  }

  /**
   Unmapping a page: exactly its translation goes, no other page of any address space changes, every table
   that became empty is back with the allocator, and no frame is lost.
   */
  lemma {:induction false} UnmapTree(m: Mem, own: Owners, t: int, p: Path) returns (own': Owners)
    requires Linked(m, own) && t in own && UserPath(own[t], p) && Reaches(m, t, p)
    ensures UnmapDone(m, own, own', t, p)
    decreases |p|
  {
    hide Table, HasParent, Frames, Walk, UnmapFrom, UnmapDone;
    if |p| == 1 {
      UnmapLeaf(m, own, t, p);
      own' := own;
    } else {
      var e := Table(m, t)[p[0]];
      assert LinkOk(m, own, t, p[0]);
      assert own[e.frame].prefix + p[1..] == own[t].prefix + p;
      var own1 := UnmapTree(m, own, e.frame, p[1..]);
      own' := UnmapAbove(m, own, own1, t, p);
    }
  }

  // ---------------------------------------------------------------- address spaces

  ghost predicate Roots(own: Owners, roots: set<int>) {
    forall r :: r in roots ==> r in own && own[r] == Owner(r, [])
  }

  ghost predicate UserPage(p: Path) {
    |p| == 4 && ValidPath(p) && p[0] < 256
  }

  /** Of all pages of all address spaces, exactly the one at (r, p) changed, to f, if ok. */
  ghost predicate OnlyPage(m: Mem, w: Mem, roots: set<int>, r: int, p: Path, f: Found, ok: bool) {
    forall x, q :: x in roots && UserPage(q) ==> Walk(w, x, q) == if ok && x == r && q == p then f else Walk(m, x, q)
  }

  /** Every table below a root is in use. */
  ghost predicate Tight(m: Mem, own: Owners) {
    forall t :: t in own && own[t].prefix != [] ==> !Empty(Table(m, t))
  }

  /**
   The page map law for mapping. It succeeds exactly when there are frames for all missing tables, and from a tight
   state leaves no empty table exactly when there are, or when there is no frame at all.
   */
  lemma MapPage(m: Mem, own: Owners, roots: set<int>, r: int, p: Path, leaf: Entry) returns (own': Owners)
    requires Linked(m, own) && Roots(own, roots) && r in roots && UserPage(p) && NoHuge(m, r, p) && leaf.present
    ensures var (w, ok) := MapFrom(m, r, p, leaf);
      && Linked(w, own') && Roots(own', roots) && Conserved(m, own, w, own')
      && (ok <==> |m.free| >= Missing(m, r, p))
      && (Tight(m, own) ==> (Tight(w, own') <==> |m.free| >= Missing(m, r, p) || m.free == []))
      && OnlyPage(m, w, roots, r, p, Mapped(1, leaf, leaf.rw, leaf.user), ok)
  {
    hide Table, HasParent, Frames, Walk, MapFrom, NoHuge, LinkOk, Missing;
    own' := MapTree(m, own, r, p, leaf);
    var (w, ok) := MapFrom(m, r, p, leaf);
    assert [] + p == p;
    forall x, q | x in roots && UserPage(q)
      ensures Walk(w, x, q) == if ok && x == r && q == p then Mapped(1, leaf, leaf.rw, leaf.user) else Walk(m, x, q)
    {
      if x == r { assert UserPath(own[r], q); } else { OffPathWalk(m, w, own, r, p, 0, x, q); }
    }
    if !ok && own' != own {
      var x :| x in own' && x !in own && Empty(Table(w, x));
      assert !Tight(w, own');
    }
  }

  /** Without a frame for the second of three missing tables, the first stays linked and empty. */
  lemma FailedMapLeavesTable()
    ensures var m, p := Mem(map[1 := Blank()], [2]), [0, 0, 0, 0];
      var leaf := Entry(true, true, true, false, 7, 0);
      var (w, ok) := MapFrom(m, 1, p, leaf);
      !ok && Table(w, 1)[0].present && Table(w, 1)[0].frame == 2 && Empty(Table(w, 2))
  {
    var m, p := Mem(map[1 := Blank()], [2]), [0, 0, 0, 0];
    var leaf := Entry(true, true, true, false, 7, 0);
    var (m1, c) := NextLevel(m, 1, 0, true, true);
    assert c == 2 && m1.free == [] && Table(m1, 2) == Blank();
    assert NextLevel(m1, 2, 0, true, true) == (m1, 0);
    assert p[1..] == [0, 0, 0];
    assert MapFrom(m1, 2, [0, 0, 0], leaf) == (m1, false);
  }

  /** The page map law for unmapping, with all empty tables freed and none lost. */
  lemma UnmapPage(m: Mem, own: Owners, roots: set<int>, r: int, p: Path) returns (own': Owners)
    requires Linked(m, own) && Roots(own, roots) && r in roots && UserPage(p)
    ensures var w := Unmap(m, r, p);
      && Linked(w, own') && Roots(own', roots) && Conserved(m, own, w, own') && (Tight(m, own) ==> Tight(w, own'))
      && OnlyPage(m, w, roots, r, p, Unmapped, Reaches(m, r, p))
  {
    hide Table, HasParent, Frames, Walk, UnmapFrom, Reaches, LinkOk;
    own' := own;
    if Reaches(m, r, p) {
      own' := UnmapTree(m, own, r, p);
      var w := UnmapFrom(m, r, p).0;
      assert [] + p == p;
      forall x, q | x in roots && UserPage(q) ensures Walk(w, x, q) == if x == r && q == p then Unmapped else Walk(m, x, q) {
        if x == r { assert UserPath(own[r], q); } else { OffPathWalk(m, w, own, r, p, 0, x, q); }
      }
    }
  }

  /** Unmapping has nothing to do only where nothing is mapped or a huge page is. */
  lemma {:induction false} NotReached(m: Mem, t: int, p: Path)
    requires p != [] && ValidPath(p) && !Reaches(m, t, p)
    ensures Walk(m, t, p).Unmapped? || Walk(m, t, p).level > 1
    decreases |p|
  {
    var e := Table(m, t)[p[0]];
    if e.present && !Ends(e, |p|) { NotReached(m, e.frame, p[1..]); }
  }

  /** After unmapping, the page is unmapped exactly when it was not part of a huge page. */
  lemma UnmapEffect(m: Mem, own: Owners, roots: set<int>, r: int, p: Path)
    requires Linked(m, own) && Roots(own, roots) && r in roots && UserPage(p)
    ensures Walk(Unmap(m, r, p), r, p).Unmapped? <==> Walk(m, r, p).Unmapped? || Walk(m, r, p).level == 1
  {
    hide Linked;
    var own' := UnmapPage(m, own, roots, r, p);
    if Reaches(m, r, p) {
      WalkLevel(m, r, p);
    } else {
      NotReached(m, r, p);
    }
  }

  lemma {:induction false} WalkLevel(m: Mem, t: int, p: Path)
    requires p != [] && ValidPath(p) && Reaches(m, t, p)
    ensures Walk(m, t, p).Unmapped? || Walk(m, t, p).level == 1
    decreases |p|
  {
    if |p| > 1 { WalkLevel(m, Table(m, t)[p[0]].frame, p[1..]); }
  }

  /** Mapping an unmapped page and unmapping it again restores every translation of every address space. */
  lemma MapUnmap(m: Mem, own: Owners, roots: set<int>, r: int, p: Path, leaf: Entry) returns (own': Owners)
    requires Linked(m, own) && Roots(own, roots) && r in roots && UserPage(p) && NoHuge(m, r, p) && leaf.present
    requires Walk(m, r, p).Unmapped? && |m.free| >= Missing(m, r, p)
    ensures var w := Unmap(MapFrom(m, r, p, leaf).0, r, p);
      && Linked(w, own') && Roots(own', roots) && Conserved(m, own, w, own') && (Tight(m, own) ==> Tight(w, own'))
      && forall x, q :: x in roots && UserPage(q) ==> Walk(w, x, q) == Walk(m, x, q)
  {
    hide Linked, Walk, MapFrom, Unmap, Reaches;
    var own1 := MapPage(m, own, roots, r, p, leaf);
    var m1 := MapFrom(m, r, p, leaf).0;
    own' := UnmapPage(m1, own1, roots, r, p);
    UnmapEffect(m1, own1, roots, r, p);
  }

  /** The walk looks at no index below the level it ends at. */
  lemma {:induction false} WalkPrefix(m: Mem, t: int, p: Path, q: Path)
    requires p != [] && ValidPath(p) && |q| == |p| && ValidPath(q) && Walk(m, t, p).Mapped?
    requires 1 <= Walk(m, t, p).level <= |p| && p[..|p| + 1 - Walk(m, t, p).level] == q[..|p| + 1 - Walk(m, t, p).level]
    ensures Walk(m, t, q) == Walk(m, t, p)
    decreases |p|
  {
    var n := |p| + 1 - Walk(m, t, p).level;
    assert p[..n][0] == p[0] && q[..n][0] == q[0];
    var e := Table(m, t)[p[0]];
    if !Ends(e, |p|) {
      LevelBelow(m, e.frame, p[1..]);
      assert p[1..][..n - 1] == p[..n][1..] && q[1..][..n - 1] == q[..n][1..];
      WalkPrefix(m, e.frame, p[1..], q[1..]);
    }
  }

  lemma {:induction false} LevelBelow(m: Mem, t: int, p: Path)
    requires p != [] && ValidPath(p)
    ensures Walk(m, t, p).Mapped? ==> 1 <= Walk(m, t, p).level <= |p|
    ensures Walk(m, t, p).Mapped? && |p| == 4 ==> Walk(m, t, p).level <= 3
    decreases |p|
  {
    if |p| > 1 { LevelBelow(m, Table(m, t)[p[0]].frame, p[1..]); }
  }

  // ---------------------------------------------------------------- page numbers

  /** The four table indices of a virtual page number. */
  function PathOf(page: int): (p: Path)
    ensures |p| == 4 && forall i :: 0 <= i < 4 ==> 0 <= p[i] < ENTRIES
  {
    [page / 0x800_0000 % ENTRIES, page / 0x4_0000 % ENTRIES, page / 0x200 % ENTRIES, page % ENTRIES]
  }

  /** The page number a path spells in base 512, the index of the top-level table first. */
  function PageAt(p: Path): int
    requires |p| == 4
  {
    ((p[0] * ENTRIES + p[1]) * ENTRIES + p[2]) * ENTRIES + p[3]
  }

  /** The indices of a page of the 48-bit address space are the digits of its number. */
  lemma PathSpells(a: int)
    requires 0 <= a < 0x10_0000_0000
    ensures PageAt(PathOf(a)) == a
  {
    assert a / 0x4_0000 == a / 0x200 / 0x200 && a / 0x800_0000 == a / 0x200 / 0x200 / 0x200;
  }

  /** Every path is that of the page whose number it spells. */
  lemma SpelledPath(p: Path)
    requires |p| == 4 && ValidPath(p)
    ensures 0 <= PageAt(p) < 0x10_0000_0000 && PathOf(PageAt(p)) == p
  {
    var a, b, c := p[0], p[0] * ENTRIES + p[1], (p[0] * ENTRIES + p[1]) * ENTRIES + p[2];
    var page := PageAt(p);
    assert page / 0x200 == c && c / 0x200 == b && b / 0x200 == a;
    assert page / 0x4_0000 == page / 0x200 / 0x200 && page / 0x800_0000 == page / 0x200 / 0x200 / 0x200;
  }

  /** Different pages of the 48-bit address space have different indices. */
  lemma PathInjective(a: int, b: int)
    requires 0 <= a < 0x10_0000_0000 && 0 <= b < 0x10_0000_0000 && PathOf(a) == PathOf(b)
    ensures a == b
  {
    PathSpells(a);
    PathSpells(b);
  }

  /** Pages share their first three, or two, indices exactly when they lie in one aligned two megabytes, or gigabyte. */
  lemma SharedPrefix(a: int, b: int)
    requires 0 <= a < 0x10_0000_0000 && 0 <= b < 0x10_0000_0000
    ensures PathOf(a)[..3] == PathOf(b)[..3] <==> a / 0x200 == b / 0x200
    ensures PathOf(a)[..2] == PathOf(b)[..2] <==> a / 0x4_0000 == b / 0x4_0000
  {
    var p, q := PathOf(a), PathOf(b);
    PathSpells(a);
    PathSpells(b);
    assert p[..3] == [p[0], p[1], p[2]] && q[..3] == [q[0], q[1], q[2]] && p[..2] == [p[0], p[1]] && q[..2] == [q[0], q[1]];
    assert a / 0x4_0000 == a / 0x200 / 0x200 && b / 0x4_0000 == b / 0x200 / 0x200;
  }
}
