/**
 The block map of a whole volume: every file's fifteen pointers over the shared indirect trees.
 Its meaning is a partial map from (file, logical block) to disk block.
 */
module BlockMap {
  import opened Basics
  import opened BlockTree

  /** The fifteen pointers of each inode. */
  type Files = map<int, seq<int>>

  const SLOTS: int := 15

  datatype Slot = Slot(index: int, depth: int, idx: int)

  function Depth(s: int): int { if s < DIRECT then 0 else s - DIRECT + 1 }

  /** The first logical block under pointer s of an inode. */
  function Start(n: int, s: int): int
    requires n >= 1
  {
    if s <= DIRECT then s else if s == DIRECT + 1 then DIRECT + n else DIRECT + n + n * n
  }

  /** The pointer and the place under it that hold a logical block; None beyond the triple indirect range. */
  function SlotOf(n: int, l: int): (r: Option<Slot>)
    requires n >= 1 && l >= 0
  {
    if l < DIRECT then Some(Slot(l, 0, 0))
    else if l - DIRECT < n then Some(Slot(12, 1, l - DIRECT))
    else if l - DIRECT - n < n * n then Some(Slot(13, 2, l - DIRECT - n))
    else if l - DIRECT - n - n * n < n * n * n then Some(Slot(14, 3, l - DIRECT - n - n * n))
    else None
  }

  lemma SlotSpan(n: int, l: int)
    requires n >= 1 && l >= 0
    ensures SlotOf(n, l).Some? ==> var r := SlotOf(n, l).value;
      0 <= r.index < SLOTS && r.depth == Depth(r.index) && 0 <= r.idx < Pow(n, r.depth) && Start(n, r.index) + r.idx == l
  {
    Powers(n);
  }

  lemma Powers(n: int)
    requires n >= 1
    ensures Pow(n, 0) == 1 && Pow(n, 1) == n && Pow(n, 2) == n * n && Pow(n, 3) == n * n * n
  {
    assert n * (n * n) == n * n * n;
  }

  /** Different pointers of an inode cover different logical blocks. */
  lemma SlotsApart(n: int, ino: int, s: int, l: int)
    requires n >= 1 && l >= 0 && 0 <= s < SLOTS && Spans(n, Owner(ino, Depth(s), Start(n, s)), l)
    ensures SlotOf(n, l).Some? && SlotOf(n, l).value.index == s
  {
    Powers(n);
  }

  /** The disk block of logical block l, or 0. */
  function Get(v: Volume, ptrs: seq<int>, l: int): int
    requires v.n >= 1 && |ptrs| == SLOTS && l >= 0
  {
    SlotSpan(v.n, l);
    match SlotOf(v.n, l)
    case None => 0
    case Some(r) => GetFrom(v, ptrs[r.index], r.depth, r.idx)
  }

  /** Entry i of an indirect block, 0 when there is no such block. */
  function Entry(v: Volume, b: int, i: int): int
    requires 0 <= i < v.n
  {
    if b == 0 then 0 else Ptr(Read(v, b), i)
  }

  lemma HoleBelow(v: Volume, d: int, idx: int)
    requires v.n >= 1 && d >= 0 && 0 <= idx < Pow(v.n, d)
    ensures GetFrom(v, 0, d, idx) == 0
  {
  }

  lemma Digit(n: int, p: int, i: int, rest: int)
    requires p >= 1 && 0 <= i < n && 0 <= rest < p
    ensures 0 <= i * p + rest < n * p && (i * p + rest) / p == i && (i * p + rest) % p == rest
  {
    Scale(0, i, p);
    Scale(i + 1, n, p);
    Quotient(i * p + rest, i, p);
    assert i * p + rest == (i * p + rest) / p * p + (i * p + rest) % p;
  }

  lemma GetDigit(v: Volume, b: int, d: int, idx: int, i: int, rest: int)
    requires v.n >= 1 && d >= 1 && 0 <= i < v.n && 0 <= rest < Pow(v.n, d - 1)
    requires 0 <= idx < Pow(v.n, d) && idx / Pow(v.n, d - 1) == i && idx % Pow(v.n, d - 1) == rest
    ensures GetFrom(v, b, d, idx) == GetFrom(v, Entry(v, b, i), d - 1, rest)
  {
    hide Ptr, Read, Pow;
    if b == 0 { HoleBelow(v, d - 1, rest); }
  }

  lemma GetStep(v: Volume, b: int, d: int, i: int, rest: int)
    requires v.n >= 1 && d >= 1 && 0 <= i < v.n && 0 <= rest < Pow(v.n, d - 1)
    ensures 0 <= i * Pow(v.n, d - 1) + rest < Pow(v.n, d)
    ensures GetFrom(v, b, d, i * Pow(v.n, d - 1) + rest) == GetFrom(v, Entry(v, b, i), d - 1, rest)
  {
    Digit(v.n, Pow(v.n, d - 1), i, rest);
    GetDigit(v, b, d, i * Pow(v.n, d - 1) + rest, i, rest);
  }

  /**
   Where an inode keeps its blocks: twelve pointers to blocks, then one each to a block of pointers, to a block of
   those, and to a block of those again.
   */
  lemma GetLayout(v: Volume, ptrs: seq<int>, i: int, j: int, k: int, l: int)
    requires v.n >= 1 && |ptrs| == SLOTS && 0 <= i < v.n && 0 <= j < v.n && 0 <= k < v.n && l >= 0
    ensures l < 12 ==> Get(v, ptrs, l) == ptrs[l]
    ensures l == 12 + i ==> Get(v, ptrs, l) == Entry(v, ptrs[12], i)
    ensures l == 12 + v.n + (i * v.n + j) ==> Get(v, ptrs, l) == Entry(v, Entry(v, ptrs[13], i), j)
    ensures l == 12 + v.n + v.n * v.n + ((i * v.n + j) * v.n + k) ==> Get(v, ptrs, l) == Entry(v, Entry(v, Entry(v, ptrs[14], i), j), k)
    ensures l >= 12 + v.n + v.n * v.n + v.n * v.n * v.n ==> Get(v, ptrs, l) == 0
  {
    var n := v.n;
    SingleLayout(v, ptrs, i);
    DoubleLayout(v, ptrs, i, j);
    TripleLayout(v, ptrs, i, j, k);
    Nested(n, i, j, k);
    hide Pow, GetFrom, Ptr, Entry;
    if l < 12 { GetEnd(v, ptrs[l]); }
  }

  lemma SingleLayout(v: Volume, ptrs: seq<int>, i: int)
    requires v.n >= 1 && |ptrs| == SLOTS && 0 <= i < v.n
    ensures Get(v, ptrs, 12 + i) == Entry(v, ptrs[12], i)
  {
    Powers(v.n);
    GetStep(v, ptrs[12], 1, i, 0);
  }

  lemma DoubleLayout(v: Volume, ptrs: seq<int>, i: int, j: int)
    requires v.n >= 1 && |ptrs| == SLOTS && 0 <= i < v.n && 0 <= j < v.n
    ensures i * v.n >= 0 && Get(v, ptrs, 12 + v.n + (i * v.n + j)) == Entry(v, Entry(v, ptrs[13], i), j)
  {
    Powers(v.n);
    GetStep(v, ptrs[13], 2, i, j);
    GetStep(v, Entry(v, ptrs[13], i), 1, j, 0);
  }

  lemma Nested(n: int, i: int, j: int, k: int)
    requires 0 <= i < n && 0 <= j < n && 0 <= k < n
    ensures i * (n * n) + (j * n + k) == (i * n + j) * n + k && 0 <= (i * n + j) * n && 0 <= (i * n + j) * n + k < n * n * n && n * n >= 0
  {
    assert i * (n * n) == i * n * n && (i * n + j) * n == i * n * n + j * n;
    Scale(0, i, n);
    Scale(0, i * n + j, n);
    Scale(i + 1, n, n);
    Scale(i * n + j + 1, n * n, n);
    Scale(0, n, n);
  }

  lemma GetEnd(v: Volume, b: int)
    requires v.n >= 1
    ensures Pow(v.n, 0) == 1 && GetFrom(v, b, 0, 0) == b
  {
  }

  lemma TripleLayout(v: Volume, ptrs: seq<int>, i: int, j: int, k: int)
    requires v.n >= 1 && |ptrs| == SLOTS && 0 <= i < v.n && 0 <= j < v.n && 0 <= k < v.n
    ensures (i * v.n + j) * v.n >= 0 && v.n * v.n >= 0
      && Get(v, ptrs, 12 + v.n + v.n * v.n + ((i * v.n + j) * v.n + k)) == Entry(v, Entry(v, Entry(v, ptrs[14], i), j), k)
  {
    var n := v.n;
    Powers(n);
    hide GetFrom, Pow, Entry;
    GetStep(v, Entry(v, Entry(v, ptrs[14], i), j), 1, k, 0);
    GetStep(v, Entry(v, ptrs[14], i), 2, j, k);
    GetStep(v, ptrs[14], 3, i, j * n + k);
    var q := (i * n + j) * n + k;
    Nested(n, i, j, k);
    assert SlotOf(n, 12 + n + n * n + q) == Some(Slot(14, 3, q));
    GetEnd(v, Entry(v, Entry(v, Entry(v, ptrs[14], i), j), k));
  }

  /** Points logical block l to x; false beyond the addressable range or when the volume fills up. */
  function Set(v: Volume, ptrs: seq<int>, l: int, x: int): (r: (Volume, seq<int>, bool))
    requires v.n >= 1 && |ptrs| == SLOTS && l >= 0
    ensures |r.1| == SLOTS
  {
    SlotSpan(v.n, l);
    match SlotOf(v.n, l)
    case None => (v, ptrs, false)
    case Some(r) =>
      if r.depth == 0 then (v, ptrs[r.index := x], true)
      else if ptrs[r.index] != 0 then
        var (w, ok) := SetFrom(v, ptrs[r.index], r.depth, r.idx, x);
        (w, ptrs, ok)
      else
        match Alloc(v)
        case None => (v, ptrs, false)
        case Some((v1, m)) =>
          var (w, ok) := SetFrom(Write(v1, m, Zeros(4 * v.n)), m, r.depth, r.idx, x);
          (w, ptrs[r.index := m], ok)
  }

  // ---------------------------------------------------------------- the invariant

  ghost predicate RootOk(n: int, own: Owners, ino: int, ptrs: seq<int>, s: int)
    requires n >= 1 && |ptrs| == SLOTS && 0 <= s < SLOTS
  {
    ptrs[s] == 0 || (ptrs[s] in own && own[ptrs[s]] == Owner(ino, Depth(s), Start(n, s)))
  }

  ghost predicate FilesOk(v: Volume, files: Files, own: Owners) {
    && TreesOk(v, own)
    && (forall ino :: ino in files ==> |files[ino]| == SLOTS)
    && (forall ino, s :: ino in files && 0 <= s < SLOTS ==> RootOk(v.n, own, ino, files[ino], s))
  }

  /** A mapped block is owned at exactly the place that maps it. */
  lemma GetOwner(v: Volume, files: Files, own: Owners, ino: int, l: int)
    requires FilesOk(v, files, own) && ino in files && l >= 0
    ensures var b := Get(v, files[ino], l); b != 0 ==> b in own && own[b] == Owner(ino, 0, l)
  {
    SlotSpan(v.n, l);
    if SlotOf(v.n, l).Some? {
      var r := SlotOf(v.n, l).value;
      assert RootOk(v.n, own, ino, files[ino], r.index);
      if files[ino][r.index] != 0 {
        EntryOwner(v, own, files[ino][r.index], r.idx);
      }
    }
  }

  lemma {:induction false} EntryOwner(v: Volume, own: Owners, b: int, idx: int)
    requires TreesOk(v, own) && b in own && 0 <= idx < Pow(v.n, own[b].depth)
    ensures var x := GetFrom(v, b, own[b].depth, idx); x != 0 ==> x in own && own[x] == Owner(own[b].ino, 0, own[b].lo + idx)
    decreases own[b].depth
  {
    hide Ptr, Pow, Read;
    var d := own[b].depth;
    if d == 0 {
      assert Pow(v.n, 0) == 1 by { Powers(v.n); }
    } else {
      Split(v.n, d, idx);
      var j := idx / Pow(v.n, d - 1);
      assert ChildOk(v, own, b, j);
      var c := Ptr(Read(v, b), j);
      if c != 0 { EntryOwner(v, own, c, idx % Pow(v.n, d - 1)); } else { ZeroRoot(v, d - 1, idx % Pow(v.n, d - 1)); }
    }
  }

  /** No disk block is mapped twice, within a file or across files. */
  lemma NoSharing(v: Volume, files: Files, own: Owners, ino: int, l: int, ino': int, l': int)
    requires FilesOk(v, files, own) && ino in files && ino' in files && l >= 0 && l' >= 0
    requires Get(v, files[ino], l) == Get(v, files[ino'], l') != 0
    ensures ino == ino' && l == l'
  {
    GetOwner(v, files, own, ino, l);
    GetOwner(v, files, own, ino', l');
  }

  /** The block reached from b by following pointer numbers. */
  function Follow(v: Volume, b: int, path: seq<int>): int
    requires v.n >= 1 && forall i :: 0 <= i < |path| ==> 0 <= path[i] < v.n
    decreases |path|
  {
    if path == [] then b else if b == 0 then 0 else Follow(v, Ptr(Read(v, b), path[0]), path[1..])
  }

  function PathOwner(n: int, o: Owner, path: seq<int>): Owner
    requires n >= 1 && o.depth >= |path|
    decreases |path|
  {
    if path == [] then o else PathOwner(n, ChildOwner(n, o, path[0]), path[1..])
  }

  lemma {:induction false} FollowOwner(v: Volume, own: Owners, b: int, path: seq<int>)
    requires TreesOk(v, own) && b in own && |path| <= own[b].depth && forall i :: 0 <= i < |path| ==> 0 <= path[i] < v.n
    ensures var x := Follow(v, b, path); x != 0 ==> x in own && own[x] == PathOwner(v.n, own[b], path)
    decreases |path|
  {
    hide Ptr, Pow, Read;
    if path != [] {
      assert ChildOk(v, own, b, path[0]);
      var c := Ptr(Read(v, b), path[0]);
      if c != 0 { FollowOwner(v, own, c, path[1..]); }
    }
  }

  lemma {:induction false} PathSpan(n: int, o: Owner, path: seq<int>)
    requires n >= 1 && o.depth >= |path| && forall i :: 0 <= i < |path| ==> 0 <= path[i] < n
    ensures var e := PathOwner(n, o, path); e.ino == o.ino && e.depth == o.depth - |path| && Spans(n, o, e.lo)
    decreases |path|
  {
    if path != [] {
      PathSpan(n, ChildOwner(n, o, path[0]), path[1..]);
      ChildSpan(n, o, path[0], PathOwner(n, o, path).lo);
    }
  }

  lemma {:induction false} PathsDiffer(n: int, o: Owner, p: seq<int>, q: seq<int>)
    requires n >= 1 && o.depth >= |p| == |q|
    requires forall i :: 0 <= i < |p| ==> 0 <= p[i] < n && 0 <= q[i] < n
    requires PathOwner(n, o, p) == PathOwner(n, o, q)
    ensures p == q
    decreases |p|
  {
    if p != [] {
      PathSpan(n, ChildOwner(n, o, p[0]), p[1..]);
      PathSpan(n, ChildOwner(n, o, q[0]), q[1..]);
      ChildSpan(n, o, p[0], PathOwner(n, o, p).lo);
      ChildSpan(n, o, q[0], PathOwner(n, o, q).lo);
      PathsDiffer(n, ChildOwner(n, o, p[0]), p[1..], q[1..]);
    }
  }

  /** Indirect blocks too: no disk block, data or indirect, is reachable by two paths. */
  lemma OnePath(v: Volume, files: Files, own: Owners, ino: int, s: int, p: seq<int>, ino': int, s': int, q: seq<int>)
    requires FilesOk(v, files, own) && ino in files && ino' in files && 0 <= s < SLOTS && 0 <= s' < SLOTS
    requires |p| <= Depth(s) && |q| <= Depth(s')
    requires forall i :: 0 <= i < |p| ==> 0 <= p[i] < v.n
    requires forall i :: 0 <= i < |q| ==> 0 <= q[i] < v.n
    requires Follow(v, files[ino][s], p) == Follow(v, files[ino'][s'], q) != 0
    ensures ino == ino' && s == s' && p == q
  {
    hide Ptr, Pow, Read, ChildOk, Follow, PathOwner;
    PathPlace(v, files, own, ino, s, p);
    PathPlace(v, files, own, ino', s', q);
    PathsDiffer(v.n, Owner(ino, Depth(s), Start(v.n, s)), p, q);
  }

  /** The block at the end of a path is owned at the place the path leads to, which lies under its own slot. */
  lemma PathPlace(v: Volume, files: Files, own: Owners, ino: int, s: int, p: seq<int>)
    requires FilesOk(v, files, own) && ino in files && 0 <= s < SLOTS && |p| <= Depth(s)
    requires forall i :: 0 <= i < |p| ==> 0 <= p[i] < v.n
    requires Follow(v, files[ino][s], p) != 0
    ensures var e := PathOwner(v.n, Owner(ino, Depth(s), Start(v.n, s)), p); var b := Follow(v, files[ino][s], p);
      && b in own && own[b] == e && e.ino == ino && e.depth == Depth(s) - |p| && e.lo >= 0
      && SlotOf(v.n, e.lo).Some? && SlotOf(v.n, e.lo).value.index == s
  {
    hide Ptr, Pow, Read, ChildOk;
    assert RootOk(v.n, own, ino, files[ino], s);
    FollowOwner(v, own, files[ino][s], p);
    var o := Owner(ino, Depth(s), Start(v.n, s));
    PathSpan(v.n, o, p);
    SlotsApart(v.n, ino, s, PathOwner(v.n, o, p).lo);
  }

  // ---------------------------------------------------------------- set, then get

  /** The map after a set: x at (ino, l) if it succeeded, everything else in every file as before. */
  ghost predicate MapSet(v: Volume, files: Files, w: Volume, files': Files, ino: int, l: int, x: int, ok: bool)
    requires v.n >= 1 && w.n >= 1
    requires forall i :: i in files ==> |files[i]| == SLOTS
    requires forall i :: i in files' ==> |files'[i]| == SLOTS
  {
    && files'.Keys == files.Keys
    && forall i, k :: i in files && k >= 0 ==> Get(w, files'[i], k) == if ok && i == ino && k == l then x else Get(v, files[i], k)
  }

  ghost predicate SetsMap(v: Volume, files: Files, own: Owners, own': Owners, ino: int, l: int, x: int)
    requires FilesOk(v, files, own) && ino in files && l >= 0
  {
    var (w, ptrs, ok) := Set(v, files[ino], l, x);
    && w.n == v.n && w.first == v.first && (forall b :: Used(v, b) ==> Used(w, b))
    && Extends(own, own') && FilesOk(w, files[ino := ptrs], own')
    && MapSet(v, files, w, files[ino := ptrs], ino, l, x, ok)
    && (forall c :: c in own && own[c].depth == 0 && own[c] != Owner(ino, 0, l) ==> Read(w, c) == Read(v, c))
    && (if ok then x in own' && own'[x] == Owner(ino, 0, l) else x !in own')
  }

  /** Direct blocks. */
  lemma SetDirect(v: Volume, files: Files, own: Owners, ino: int, l: int, x: int) returns (own': Owners)
    requires FilesOk(v, files, own) && ino in files && 0 <= l < DIRECT
    requires x != 0 && Used(v, x) && x !in own
    ensures SetsMap(v, files, own, own', ino, l, x)
  {
    hide Ptr, Pow, Read;
    own' := own[x := Owner(ino, 0, l)];
    var files' := files[ino := files[ino][l := x]];
    forall c, j | c in own' && own'[c].depth >= 1 && 0 <= j < v.n ensures ChildOk(v, own', c, j) {
      assert ChildOk(v, own, c, j);
    }
    forall i, s | i in files' && 0 <= s < SLOTS ensures RootOk(v.n, own', i, files'[i], s) {
      assert RootOk(v.n, own, i, files[i], s);
    }
    forall i, k | i in files && k >= 0
      ensures Get(v, files'[i], k) == if i == ino && k == l then x else Get(v, files[i], k)
    {
      SlotSpan(v.n, k);
    }
  }

  /** An entry of a file whose tree is not the one that was set. */
  lemma OtherEntry(v: Volume, w: Volume, files: Files, own: Owners, ino: int, l: int, d: int, i: int, k: int)
    requires FilesOk(v, files, own) && Framed(v, w, own, ino, l, d) && i in files && k >= 0 && l >= 0
    requires SlotOf(v.n, k).Some? && (i != ino || SlotOf(v.n, l).None? || SlotOf(v.n, l).value.index != SlotOf(v.n, k).value.index)
    ensures Get(w, files[i], k) == Get(v, files[i], k)
  {
    hide Ptr, Pow, Read;
    SlotSpan(v.n, k);
    var r := SlotOf(v.n, k).value;
    assert RootOk(v.n, own, i, files[i], r.index);
    var b := files[i][r.index];
    if b == 0 {
      ZeroRoot(v, r.depth, r.idx);
      ZeroRoot(w, r.depth, r.idx);
    } else {
      if i == ino && Spans(v.n, own[b], l) { SlotsApart(v.n, ino, r.index, l); }
      OffPathGets(v, w, own, ino, l, d, b, r.idx);
    }
  }

  /** A set leaves the contents of all data blocks alone. */
  lemma DataKept(v: Volume, w: Volume, own: Owners, ino: int, l: int, d: int)
    requires TreesOk(v, own) && Framed(v, w, own, ino, l, d)
    ensures forall c :: c in own && own[c].depth == 0 && own[c] != Owner(ino, 0, l) ==> Read(w, c) == Read(v, c)
  {
    hide Read, ChildOk;
    forall c | c in own && own[c].depth == 0 && own[c] != Owner(ino, 0, l) ensures Read(w, c) == Read(v, c) {
      assert Pow(v.n, 0) == 1;
      assert !OnPath(v.n, own[c], ino, l, d);
    }
  }

  /** Indirect blocks under a pointer that is there. */
  lemma SetUnder(v: Volume, files: Files, own: Owners, ino: int, l: int, x: int) returns (own': Owners)
    requires FilesOk(v, files, own) && ino in files && l >= DIRECT && SlotOf(v.n, l).Some?
    requires 0 <= SlotOf(v.n, l).value.index < SLOTS && files[ino][SlotOf(v.n, l).value.index] != 0
    requires x != 0 && Used(v, x) && x !in own
    ensures SetsMap(v, files, own, own', ino, l, x)
  {
    hide Ptr, Pow, Read, SetFrom, GetFrom, ChildOk;
    SlotSpan(v.n, l);
    var r := SlotOf(v.n, l).value;
    var b := files[ino][r.index];
    assert RootOk(v.n, own, ino, files[ino], r.index);
    own' := SetTree(v, own, b, r.idx, x);
    var (w, ok) := SetFrom(v, b, r.depth, r.idx, x);
    assert files[ino := files[ino]] == files;
    forall i, s | i in files && 0 <= s < SLOTS ensures RootOk(v.n, own', i, files[i], s) {
      assert RootOk(v.n, own, i, files[i], s);
    }
    DataKept(v, w, own, ino, l, r.depth);
    forall i, k | i in files && k >= 0
      ensures Get(w, files[i], k) == if ok && i == ino && k == l then x else Get(v, files[i], k)
    {
      SlotSpan(v.n, k);
      if SlotOf(v.n, k).Some? {
        var t := SlotOf(v.n, k).value;
        if i == ino && t.index == r.index {
          assert GetFrom(w, b, r.depth, t.idx) == if ok && t.idx == r.idx then x else GetFrom(v, b, r.depth, t.idx);
        } else {
          OtherEntry(v, w, files, own, ino, l, r.depth, i, k);
        }
      }
    }
  }

  /** Blocks that read the same have the same entries below them. */
  lemma {:induction false} SameReadsGets(v: Volume, w: Volume, own: Owners, c: int, idx: int)
    requires TreesOk(v, own) && w.n == v.n && c in own && 0 <= idx < Pow(v.n, own[c].depth)
    requires forall b :: b in own ==> Read(w, b) == Read(v, b)
    ensures GetFrom(w, c, own[c].depth, idx) == GetFrom(v, c, own[c].depth, idx)
    decreases own[c].depth
  {
    hide Ptr, Pow, Read;
    var d := own[c].depth;
    if d > 0 {
      Split(v.n, d, idx);
      var j, rest := idx / Pow(v.n, d - 1), idx % Pow(v.n, d - 1);
      assert ChildOk(v, own, c, j);
      var x := Ptr(Read(v, c), j);
      if x != 0 {
        SameReadsGets(v, w, own, x, rest);
      } else {
        ZeroRoot(v, d - 1, rest);
        ZeroRoot(w, d - 1, rest);
      }
    }
  }

  lemma ZeroedGets(v: Volume, m: int, d: int, idx: int)
    requires v.n >= 1 && d >= 1 && 0 <= idx < Pow(v.n, d) && Read(v, m) == Zeros(4 * v.n)
    ensures GetFrom(v, m, d, idx) == 0
  {
    hide Pow, Read;
    Split(v.n, d, idx);
    ZeroRoot(v, d - 1, idx % Pow(v.n, d - 1));
  }

  /** The volume with a fresh zeroed block m, allocated in v1, under pointer s of an inode. */
  lemma NewRoot(v: Volume, v1: Volume, m: int, files: Files, own: Owners, ino: int, s: int)
    requires FilesOk(v, files, own) && ino in files && DIRECT <= s < SLOTS && files[ino][s] == 0
    requires Alloc(v) == Some((v1, m))
    ensures var v2 := Write(v1, m, Zeros(4 * v.n));
      && v2.n == v.n && v2.first == v.first && m !in own && (forall b :: Used(v, b) ==> Used(v2, b) && b != m)
      && (forall b :: b in own ==> Read(v2, b) == Read(v, b)) && Read(v2, m) == Zeros(4 * v.n)
      && FilesOk(v2, files[ino := files[ino][s := m]], own[m := Owner(ino, Depth(s), Start(v.n, s))])
  {
    hide Ptr, Pow;
    AllocFresh(v, own);
    var v2, own' := Write(v1, m, Zeros(4 * v.n)), own[m := Owner(ino, Depth(s), Start(v.n, s))];
    var files' := files[ino := files[ino][s := m]];
    forall c, j | c in own' && own'[c].depth >= 1 && 0 <= j < v.n ensures ChildOk(v2, own', c, j) {
      if c == m { assert Ptr(Read(v2, m), j) == 0 by { ZeroPtr(v.n, j); } } else { assert ChildOk(v, own, c, j); }
    }
    forall i, t | i in files' && 0 <= t < SLOTS ensures RootOk(v.n, own', i, files'[i], t) {
      assert RootOk(v.n, own, i, files[i], t);
    }
  }

  lemma ZeroPtr(n: int, j: int)
    requires 0 <= j < n
    ensures Ptr(Zeros(4 * n), j) == 0
  {
  }

  lemma NewRootGets(v: Volume, v2: Volume, m: int, files: Files, own: Owners, ino: int, s: int, i: int, k: int)
    requires FilesOk(v, files, own) && ino in files && DIRECT <= s < SLOTS && files[ino][s] == 0
    requires v2.n == v.n && m != 0 && (forall b :: b in own ==> Read(v2, b) == Read(v, b)) && Read(v2, m) == Zeros(4 * v.n)
    requires i in files && k >= 0
    ensures Get(v2, files[ino := files[ino][s := m]][i], k) == Get(v, files[i], k)
  {
    hide Ptr, Pow, Read;
    SlotSpan(v.n, k);
    if SlotOf(v.n, k).Some? {
      var r := SlotOf(v.n, k).value;
      assert RootOk(v.n, own, i, files[i], r.index);
      if i == ino && r.index == s {
        ZeroedGets(v2, m, r.depth, r.idx);
        ZeroRoot(v, r.depth, r.idx);
      } else if files[i][r.index] == 0 {
        ZeroRoot(v, r.depth, r.idx);
        ZeroRoot(v2, r.depth, r.idx);
      } else {
        SameReadsGets(v, v2, own, files[i][r.index], r.idx);
      }
    }
  }

  /** Indirect blocks under a pointer that has to be allocated first. */
  lemma SetNewRoot(v: Volume, files: Files, own: Owners, ino: int, l: int, x: int) returns (own': Owners)
    requires FilesOk(v, files, own) && ino in files && l >= DIRECT && SlotOf(v.n, l).Some? && Alloc(v).Some?
    requires 0 <= SlotOf(v.n, l).value.index < SLOTS && files[ino][SlotOf(v.n, l).value.index] == 0
    requires x != 0 && Used(v, x) && x !in own
    ensures SetsMap(v, files, own, own', ino, l, x)
  {
    hide Ptr, Pow, Read, SetFrom, GetFrom, Alloc, Get, ChildOk;
    SlotSpan(v.n, l);
    var s := SlotOf(v.n, l).value.index;
    var (v1, m) := Alloc(v).value;
    NewRoot(v, v1, m, files, own, ino, s);
    var v2, own1 := Write(v1, m, Zeros(4 * v.n)), own[m := Owner(ino, Depth(s), Start(v.n, s))];
    var files2 := files[ino := files[ino][s := m]];
    AllocFresh(v, own);
    own' := SetUnder(v2, files2, own1, ino, l, x);
    assert Set(v2, files2[ino], l, x) == Set(v, files[ino], l, x);
    var (w, ptrs, ok) := Set(v, files[ino], l, x);
    assert files2[ino := ptrs] == files[ino := ptrs];
    forall i, k | i in files && k >= 0
      ensures Get(w, files[ino := ptrs][i], k) == if ok && i == ino && k == l then x else Get(v, files[i], k)
    {
      NewRootGets(v, v2, m, files, own, ino, s, i, k);
    }
  }

  /**
   The block map law. A set changes exactly its own entry of its own file, through direct, single, double
   and triple indirect pointers and freshly allocated indirect blocks; a set that fails changes no entry.
   */
  lemma SetBlock(v: Volume, files: Files, own: Owners, ino: int, l: int, x: int) returns (own': Owners)
    requires FilesOk(v, files, own) && ino in files && l >= 0
    requires x != 0 && Used(v, x) && x !in own
    ensures SetsMap(v, files, own, own', ino, l, x)
  {
    hide Ptr, Pow, Read, SetFrom, GetFrom;
    SlotSpan(v.n, l);
    if l < DIRECT {
      own' := SetDirect(v, files, own, ino, l, x);
    } else if SlotOf(v.n, l).None? {
      own' := own;
      assert files[ino := files[ino]] == files;
    } else if files[ino][SlotOf(v.n, l).value.index] != 0 {
      own' := SetUnder(v, files, own, ino, l, x);
    } else if Alloc(v).Some? {
      own' := SetNewRoot(v, files, own, ino, l, x);
    } else {
      own' := own;
      assert files[ino := files[ino]] == files;
    }
  }
}
