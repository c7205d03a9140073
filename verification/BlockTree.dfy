/**
 The ext2 block map: inodes with twelve direct pointers and three indirect trees of depth one to
 three, kept in disk blocks of little-endian pointers. `own` records, for the proofs, where in which
 file a block was linked; the volume itself stores no such thing.
 */
module BlockTree {
  import opened Basics

  const DIRECT: int := 12

  const WORD: int := 0x1_0000_0000

  /** Pointers per block, number of the first block, allocation bitmap and block contents. */
  datatype Volume = Volume(n: int, first: int, bits: seq<bool>, disk: map<int, seq<int>>)

  // ---------------------------------------------------------------- pointers in blocks

  function Zeros(k: int): seq<int>
    requires k >= 0
  {
    seq(k, _ => 0)
  }

  /** The j-th little-endian pointer of a block. */
  function Ptr(s: seq<int>, j: int): int
    requires 0 <= j && 4 * j + 4 <= |s|
  {
    s[4 * j] + 0x100 * s[4 * j + 1] + 0x1_0000 * s[4 * j + 2] + 0x100_0000 * s[4 * j + 3]
  }

  /** The block with pointer j replaced by x. */
  function PutPtr(s: seq<int>, j: int, x: int): (t: seq<int>)
    requires 0 <= j && 4 * j + 4 <= |s|
    ensures |t| == |s|
  {
    s[4 * j := x % 0x100][4 * j + 1 := x / 0x100 % 0x100][4 * j + 2 := x / 0x1_0000 % 0x100][4 * j + 3 := x / 0x100_0000 % 0x100]
  }

  lemma Digits(x: int)
    requires 0 <= x < WORD
    ensures x == x % 0x100 + 0x100 * (x / 0x100 % 0x100) + 0x1_0000 * (x / 0x1_0000 % 0x100) + 0x100_0000 * (x / 0x100_0000 % 0x100)
  {
    assert x / 0x1_0000 == x / 0x100 / 0x100;
    assert x / 0x100_0000 == x / 0x100 / 0x100 / 0x100;
  }

  lemma PutPtrAt(s: seq<int>, i: int, j: int, x: int)
    requires 0 <= i && 4 * i + 4 <= |s| && 0 <= j && 4 * j + 4 <= |s| && 0 <= x < WORD
    ensures Ptr(PutPtr(s, i, x), j) == if i == j then x else Ptr(s, j)
  {
    Digits(x);
  }

  /** Pointer j is stored in bytes 4j to 4j + 3, the low byte first. */
  lemma PutPtrBytes(s: seq<int>, j: int, x: int)
    requires 0 <= j && 4 * j + 4 <= |s| && 0 <= x < WORD
    ensures var t, b := PutPtr(s, j, x), 4 * j;
      && x == t[b] + 0x100 * t[b + 1] + 0x1_0000 * t[b + 2] + 0x100_0000 * t[b + 3]
      && (forall i :: b <= i < b + 4 ==> 0 <= t[i] < 0x100) && (forall i :: 0 <= i < |s| && !(b <= i < b + 4) ==> t[i] == s[i])
  {
    Digits(x);
  }

  // ---------------------------------------------------------------- trees

  function Pow(n: int, d: int): (r: int)
    requires n >= 1 && d >= 0
    ensures r >= 1
  {
    if d == 0 then 1 else n * Pow(n, d - 1)
  }

  /** The contents of a block; block 0, and a block not on the device, read as zeros. */
  function Read(v: Volume, b: int): (s: seq<int>)
    requires v.n >= 1
    ensures |s| == 4 * v.n
  {
    if b != 0 && b in v.disk && |v.disk[b]| == 4 * v.n then v.disk[b] else Zeros(4 * v.n)
  }

  /** Writes to block 0 are refused. */
  function Write(v: Volume, b: int, s: seq<int>): Volume {
    if b == 0 then v else v.(disk := v.disk[b := s])
  }

  /** The entry `idx` of the tree of depth d rooted at block b. */
  function GetFrom(v: Volume, b: int, d: int, idx: int): int
    requires v.n >= 1 && d >= 0 && 0 <= idx < Pow(v.n, d)
    decreases d
  {
    if d == 0 then b
    else if b == 0 then 0
    else
      Split(v.n, d, idx);
      GetFrom(v, Ptr(Read(v, b), idx / Pow(v.n, d - 1)), d - 1, idx % Pow(v.n, d - 1))
  }

  lemma Split(n: int, d: int, idx: int)
    requires n >= 1 && d >= 1 && 0 <= idx < Pow(n, d)
    ensures 0 <= idx / Pow(n, d - 1) < n && 0 <= idx % Pow(n, d - 1) < Pow(n, d - 1)
    ensures idx == idx / Pow(n, d - 1) * Pow(n, d - 1) + idx % Pow(n, d - 1)
  {
    DivBound(idx, Pow(n, d - 1), n);
  }

  lemma DivBound(a: int, p: int, n: int)
    requires 0 <= a < n * p && p >= 1 && n >= 1
    ensures 0 <= a / p < n && 0 <= a % p < p && a == a / p * p + a % p
  {
    assert a == a / p * p + a % p;
    if a / p >= n { Scale(n, a / p, p); }
  }

  // ---------------------------------------------------------------- allocation

  /** The lowest clear bit from i on. */
  function FirstClear(bits: seq<bool>, i: int): (r: Option<int>)
    requires 0 <= i <= |bits|
    ensures r.None? <==> forall k :: i <= k < |bits| ==> bits[k]
    ensures r.Some? ==> i <= r.value < |bits| && !bits[r.value] && forall k :: i <= k < r.value ==> bits[k]
    decreases |bits| - i
  {
    if i == |bits| then None else if !bits[i] then Some(i) else FirstClear(bits, i + 1)
  }

  /** The first free block, now marked used; None when the volume is full. */
  function Alloc(v: Volume): Option<(Volume, int)> {
    match FirstClear(v.bits, 0)
    case None => None
    case Some(i) => Some((v.(bits := v.bits[i := true]), v.first + i))
  }

  predicate Used(v: Volume, b: int) {
    v.first <= b < v.first + |v.bits| && v.bits[b - v.first]
  }

  // ---------------------------------------------------------------- setting

  /** A fresh zeroed block m becomes child i of block b. */
  function LinkNew(v: Volume, b: int, i: int, m: int): Volume
    requires v.n >= 1 && 0 <= i < v.n
  {
    Write(Write(v, b, PutPtr(Read(v, b), i, m)), m, Zeros(4 * v.n))
  }

  /** Points entry idx of the tree at b to x, allocating indirect blocks; false when the volume fills up. */
  function SetFrom(v: Volume, b: int, d: int, idx: int, x: int): (Volume, bool)
    requires v.n >= 1 && d >= 1 && 0 <= idx < Pow(v.n, d)
    decreases d
  {
    Split(v.n, d, idx);
    var i, rest := idx / Pow(v.n, d - 1), idx % Pow(v.n, d - 1);
    if d == 1 then (Write(v, b, PutPtr(Read(v, b), i, x)), true)
    else if Ptr(Read(v, b), i) != 0 then SetFrom(v, Ptr(Read(v, b), i), d - 1, rest, x)
    else
      match Alloc(v)
      case None => (v, false)
      case Some((v1, m)) => SetFrom(LinkNew(v1, b, i, m), m, d - 1, rest, x)
  }

  // ---------------------------------------------------------------- ownership

  /** Where a block is linked: file, depth of the tree under it, and first logical block it covers. */
  datatype Owner = Owner(ino: int, depth: int, lo: int)

  type Owners = map<int, Owner>

  predicate Spans(n: int, o: Owner, l: int)
    requires n >= 1 && o.depth >= 0
  {
    o.lo <= l < o.lo + Pow(n, o.depth)
  }

  /** Every block of the bitmap is on the device, numbers fit a pointer, and block 0 is never free. */
  ghost predicate Device(v: Volume) {
    && v.n >= 1 && v.first >= 0 && v.first + |v.bits| <= WORD
    && (forall b :: v.first <= b < v.first + |v.bits| ==> b in v.disk && |v.disk[b]| == 4 * v.n)
    && (v.first == 0 && |v.bits| > 0 ==> v.bits[0])
  }

  ghost predicate Stored(v: Volume, own: Owners) {
    Device(v) && forall b :: b in own ==> b != 0 && Used(v, b) && own[b].depth >= 0
  }

  /** Pointer j of an owned indirect block is zero or names a block owned at exactly that place. */
  ghost predicate ChildOk(v: Volume, own: Owners, b: int, j: int)
    requires v.n >= 1 && b in own && own[b].depth >= 1 && 0 <= j < v.n
  {
    var c := Ptr(Read(v, b), j);
    c == 0 || (c in own && own[c] == ChildOwner(v.n, own[b], j))
  }

  ghost predicate TreesOk(v: Volume, own: Owners) {
    && Stored(v, own)
    && forall b, j :: b in own && own[b].depth >= 1 && 0 <= j < v.n ==> ChildOk(v, own, b, j)
  }

  function ChildOwner(n: int, o: Owner, j: int): Owner
    requires n >= 1 && o.depth >= 1
  {
    Owner(o.ino, o.depth - 1, o.lo + j * Pow(n, o.depth - 1))
  }

  /** Allocation hands out a nonzero block that nobody owns and changes nothing but its bit. */
  lemma AllocFresh(v: Volume, own: Owners)
    requires TreesOk(v, own)
    ensures var r := Alloc(v); r.Some? ==>
      && 0 < r.value.1 < WORD && !Used(v, r.value.1) && r.value.1 !in own
      && Used(r.value.0, r.value.1) && TreesOk(r.value.0, own)
      && r.value.0 == v.(bits := r.value.0.bits) && |r.value.0.bits| == |v.bits|
      && (forall b :: Used(r.value.0, b) <==> Used(v, b) || b == r.value.1)
      && forall b :: Read(r.value.0, b) == Read(v, b)
  {
    hide Ptr, Pow;
    var r := Alloc(v);
    if r.Some? {
      var (v1, m) := r.value;
      forall b, j | b in own && own[b].depth >= 1 && 0 <= j < v.n ensures ChildOk(v1, own, b, j) {
        assert ChildOk(v, own, b, j);
      }
    }
  }

  /** Pointer j of block c after pointer i of block b became x. */
  lemma PtrAfterPut(v: Volume, b: int, i: int, x: int, c: int, j: int)
    requires v.n >= 1 && b != 0 && 0 <= i < v.n && 0 <= j < v.n && 0 <= x < WORD
    ensures Ptr(Read(Write(v, b, PutPtr(Read(v, b), i, x)), c), j) == if c == b && j == i then x else Ptr(Read(v, c), j)
  {
    hide Ptr, PutPtr;
    PutPtrAt(Read(v, b), i, j, x);
  }

  lemma PtrAfterLink(v: Volume, b: int, i: int, m: int, c: int, j: int)
    requires v.n >= 1 && b != 0 && m != 0 && m != b && 0 <= i < v.n && 0 <= j < v.n && 0 <= m < WORD
    ensures Ptr(Read(LinkNew(v, b, i, m), c), j) == if c == m then 0 else if c == b && j == i then m else Ptr(Read(v, c), j)
  {
    PtrAfterPut(v, b, i, m, c, j);
  }

  lemma LinkTrees(v: Volume, own: Owners, b: int, i: int, m: int)
    requires TreesOk(v, own) && b in own && own[b].depth >= 2 && 0 <= i < v.n && Ptr(Read(v, b), i) == 0
    requires m != 0 && Used(v, m) && m !in own
    ensures TreesOk(LinkNew(v, b, i, m), own[m := ChildOwner(v.n, own[b], i)])
  {
    hide Ptr, PutPtr, Pow;
    var v', own' := LinkNew(v, b, i, m), own[m := ChildOwner(v.n, own[b], i)];
    forall c, j | c in own' && own'[c].depth >= 1 && 0 <= j < v.n ensures ChildOk(v', own', c, j) {
      PtrAfterLink(v, b, i, m, c, j);
      if c != m { assert ChildOk(v, own, c, j); }
    }
  }

  /** Linking a zeroed indirect block changes no entry of any tree. */
  lemma {:induction false} LinkGets(v: Volume, own: Owners, b: int, i: int, m: int, c: int, idx: int)
    requires TreesOk(v, own) && b in own && own[b].depth >= 2 && 0 <= i < v.n && Ptr(Read(v, b), i) == 0
    requires m != 0 && Used(v, m) && m !in own
    requires c in own && 0 <= idx < Pow(v.n, own[c].depth)
    ensures GetFrom(LinkNew(v, b, i, m), c, own[c].depth, idx) == GetFrom(v, c, own[c].depth, idx)
    decreases own[c].depth
  {
    hide Ptr, PutPtr, Pow;
    var d, v' := own[c].depth, LinkNew(v, b, i, m);
    if d > 0 {
      Split(v.n, d, idx);
      var j, rest := idx / Pow(v.n, d - 1), idx % Pow(v.n, d - 1);
      PtrAfterLink(v, b, i, m, c, j);
      assert ChildOk(v, own, c, j);
      var x := Ptr(Read(v, c), j);
      if x != 0 {
        LinkGets(v, own, b, i, m, x, rest);
      } else if c == b && j == i {
        Split(v.n, d - 1, rest);
        PtrAfterLink(v, b, i, m, m, rest / Pow(v.n, d - 2));
        ZeroRoot(v, d - 1, rest);
        ZeroRoot(v', d - 2, rest % Pow(v.n, d - 2));
      } else {
        ZeroRoot(v, d - 1, rest);
        ZeroRoot(v', d - 1, rest);
      }
    }
  }

  lemma ZeroRoot(v: Volume, d: int, idx: int)
    requires v.n >= 1 && d >= 0 && 0 <= idx < Pow(v.n, d)
    ensures GetFrom(v, 0, d, idx) == 0
  {
  }

  lemma PutTrees(v: Volume, own: Owners, b: int, i: int, x: int)
    requires TreesOk(v, own) && b in own && own[b].depth == 1 && 0 <= i < v.n
    requires x != 0 && Used(v, x) && x !in own
    ensures TreesOk(Write(v, b, PutPtr(Read(v, b), i, x)), own[x := ChildOwner(v.n, own[b], i)])
  {
    hide Ptr, PutPtr, Pow;
    var v', own' := Write(v, b, PutPtr(Read(v, b), i, x)), own[x := ChildOwner(v.n, own[b], i)];
    forall c, j | c in own' && own'[c].depth >= 1 && 0 <= j < v.n ensures ChildOk(v', own', c, j) {
      PtrAfterPut(v, b, i, x, c, j);
      assert ChildOk(v, own, c, j);
    }
  }

  // ---------------------------------------------------------------- what a set changes

  /** c is a block of depth at most d on the way to logical block l of file ino. */
  ghost predicate OnPath(n: int, o: Owner, ino: int, l: int, d: int)
    requires n >= 1 && o.depth >= 0
  {
    o.ino == ino && o.depth <= d && Spans(n, o, l)
  }

  /** w differs from v only in blocks on the way to l, and in blocks v had free. */
  ghost predicate Framed(v: Volume, w: Volume, own: Owners, ino: int, l: int, d: int)
    requires v.n >= 1 && forall b :: b in own ==> own[b].depth >= 0
  {
    && w.n == v.n && w.first == v.first && |w.bits| == |v.bits|
    && (forall b :: Used(v, b) ==> Used(w, b))
    && (forall c :: c in own && !OnPath(v.n, own[c], ino, l, d) ==> Read(w, c) == Read(v, c))
  }

  ghost predicate Extends(own: Owners, own': Owners) {
    forall b :: b in own ==> b in own' && own'[b] == own[b]
  }

  /** A child spans a logical block only if its parent does. */
  lemma ChildSpan(n: int, o: Owner, j: int, l: int)
    requires n >= 1 && o.depth >= 1 && 0 <= j < n && Spans(n, ChildOwner(n, o, j), l)
    ensures Spans(n, o, l) && (l - o.lo) / Pow(n, o.depth - 1) == j
  {
    var p := Pow(n, o.depth - 1);
    Scale(j + 1, n, p);
    Scale(0, j, p);
    Quotient(l - o.lo, j, p);
  }

  /** Trees that do not span l keep every entry. */
  lemma {:induction false} OffPathGets(v: Volume, w: Volume, own: Owners, ino: int, l: int, d: int, c: int, idx: int)
    requires TreesOk(v, own) && Framed(v, w, own, ino, l, d) && c in own && 0 <= idx < Pow(v.n, own[c].depth)
    requires own[c].ino != ino || !Spans(v.n, own[c], l)
    ensures GetFrom(w, c, own[c].depth, idx) == GetFrom(v, c, own[c].depth, idx)
    decreases own[c].depth
  {
    hide Ptr, Pow, Read, Spans;
    var k := own[c].depth;
    if k > 0 {
      Split(v.n, k, idx);
      var j, rest := idx / Pow(v.n, k - 1), idx % Pow(v.n, k - 1);
      assert ChildOk(v, own, c, j);
      var x := Ptr(Read(v, c), j);
      if x != 0 {
        if Spans(v.n, own[x], l) { ChildSpan(v.n, own[c], j, l); }
        OffPathGets(v, w, own, ino, l, d, x, rest);
      } else {
        ZeroRoot(v, k - 1, rest);
        ZeroRoot(w, k - 1, rest);
      }
    }
  }

  /** The entries of the tree at b after a set: x at idx if it succeeded, all others as before. */
  ghost predicate SetsEntry(v: Volume, w: Volume, b: int, d: int, idx: int, x: int, ok: bool)
    requires v.n >= 1 && w.n == v.n && d >= 0
  {
    forall k :: 0 <= k < Pow(v.n, d) ==> GetFrom(w, b, d, k) == if ok && k == idx then x else GetFrom(v, b, d, k)
  }

  /** One level up: what holds of the child on the way to idx holds of the block above it. */
  lemma SetAbove(v: Volume, w: Volume, own: Owners, b: int, idx: int, x: int, ok: bool, k: int)
    requires TreesOk(v, own) && b in own && own[b].depth >= 1
    requires 0 <= idx < Pow(v.n, own[b].depth) && 0 <= k < Pow(v.n, own[b].depth)
    requires Framed(v, w, own, own[b].ino, own[b].lo + idx, own[b].depth - 1)
    requires 0 <= idx / Pow(v.n, own[b].depth - 1) < v.n
    requires var c := Ptr(Read(v, b), idx / Pow(v.n, own[b].depth - 1));
      c != 0 && SetsEntry(v, w, c, own[b].depth - 1, idx % Pow(v.n, own[b].depth - 1), x, ok)
    ensures GetFrom(w, b, own[b].depth, k) == if ok && k == idx then x else GetFrom(v, b, own[b].depth, k)
  {
    hide Ptr, Pow, Spans, Read;
    var d := own[b].depth;
    var p := Pow(v.n, d - 1);
    Split(v.n, d, idx);
    Split(v.n, d, k);
    var j := k / p;
    assert Read(w, b) == Read(v, b);
    assert ChildOk(v, own, b, j);
    var c := Ptr(Read(v, b), j);
    if j == idx / p {
      assert GetFrom(w, c, d - 1, k % p) == if ok && k % p == idx % p then x else GetFrom(v, c, d - 1, k % p);
    } else if c == 0 {
      ZeroRoot(v, d - 1, k % p);
      ZeroRoot(w, d - 1, k % p);
    } else {
      if Spans(v.n, own[c], own[b].lo + idx) { ChildSpan(v.n, own[b], j, own[b].lo + idx); }
      OffPathGets(v, w, own, own[b].ino, own[b].lo + idx, d - 1, c, k % p);
    }
  }

  lemma RootOnPath(n: int, o: Owner, idx: int)
    requires n >= 1 && o.depth >= 0 && 0 <= idx < Pow(n, o.depth)
    ensures OnPath(n, o, o.ino, o.lo + idx, o.depth)
  {
  }

  /** The last level: the pointer itself. */
  lemma SetLeaf(v: Volume, own: Owners, b: int, idx: int, x: int) returns (own': Owners)
    requires TreesOk(v, own) && b in own && own[b].depth == 1 && 0 <= idx < Pow(v.n, 1)
    requires x != 0 && Used(v, x) && x !in own
    ensures var w := SetFrom(v, b, 1, idx, x).0;
      && SetFrom(v, b, 1, idx, x).1
      && TreesOk(w, own') && own' == own[x := Owner(own[b].ino, 0, own[b].lo + idx)]
      && Framed(v, w, own, own[b].ino, own[b].lo + idx, 1) && SetsEntry(v, w, b, 1, idx, x, true)
  {
    hide Ptr, PutPtr;
    var w := Write(v, b, PutPtr(Read(v, b), idx, x));
    assert Pow(v.n, 0) == 1 && Pow(v.n, 1) == v.n;
    assert SetFrom(v, b, 1, idx, x) == (w, true);
    PutTrees(v, own, b, idx, x);
    own' := own[x := Owner(own[b].ino, 0, own[b].lo + idx)];
    RootOnPath(v.n, own[b], idx);
    forall k | 0 <= k < Pow(v.n, 1) ensures GetFrom(w, b, 1, k) == if k == idx then x else GetFrom(v, b, 1, k) {
      PtrAfterPut(v, b, idx, x, b, k);
      assert GetFrom(w, b, 1, k) == Ptr(Read(w, b), k) && GetFrom(v, b, 1, k) == Ptr(Read(v, b), k);
    }
  }

  /** What a set does, and how the ownership map grows with it. */
  ghost predicate SetDone(v: Volume, own: Owners, own': Owners, b: int, idx: int, x: int)
    requires TreesOk(v, own) && b in own && own[b].depth >= 1 && 0 <= idx < Pow(v.n, own[b].depth)
  {
    var (w, ok) := SetFrom(v, b, own[b].depth, idx, x);
    && Framed(v, w, own, own[b].ino, own[b].lo + idx, own[b].depth)
    && Extends(own, own') && TreesOk(w, own')
    && SetsEntry(v, w, b, own[b].depth, idx, x, ok)
    && (if ok then x in own' && own'[x] == Owner(own[b].ino, 0, own[b].lo + idx) else x !in own')
  }

  /** The case where the next indirect block is there. */
  lemma {:induction false} SetExisting(v: Volume, own: Owners, b: int, idx: int, x: int) returns (own': Owners)
    requires TreesOk(v, own) && b in own && own[b].depth >= 2 && 0 <= idx < Pow(v.n, own[b].depth)
    requires x != 0 && Used(v, x) && x !in own
    requires 0 <= idx / Pow(v.n, own[b].depth - 1) < v.n && Ptr(Read(v, b), idx / Pow(v.n, own[b].depth - 1)) != 0
    ensures SetDone(v, own, own', b, idx, x)
    decreases own[b].depth, 0
  {
    hide Ptr, PutPtr, Pow, Read, Spans, Alloc;
    var d := own[b].depth;
    var (w, ok) := SetFrom(v, b, d, idx, x);
    Split(v.n, d, idx);
    var i, rest := idx / Pow(v.n, d - 1), idx % Pow(v.n, d - 1);
    assert ChildOk(v, own, b, i);
    own' := SetTree(v, own, Ptr(Read(v, b), i), rest, x);
    forall k | 0 <= k < Pow(v.n, d) ensures GetFrom(w, b, d, k) == if ok && k == idx then x else GetFrom(v, b, d, k) {
      SetAbove(v, w, own, b, idx, x, ok, k);
    }
  }

  /** The case where the next indirect block has to be allocated: the same set, once it is linked. */
  lemma {:induction false} SetFresh(v: Volume, own: Owners, b: int, idx: int, x: int) returns (own': Owners)
    requires TreesOk(v, own) && b in own && own[b].depth >= 2 && 0 <= idx < Pow(v.n, own[b].depth)
    requires x != 0 && Used(v, x) && x !in own && Alloc(v).Some?
    requires 0 <= idx / Pow(v.n, own[b].depth - 1) < v.n && Ptr(Read(v, b), idx / Pow(v.n, own[b].depth - 1)) == 0
    ensures SetDone(v, own, own', b, idx, x)
    decreases own[b].depth, 1
  {
    hide Ptr, PutPtr, Pow, Read, Spans, Alloc, LinkNew, Used, GetFrom, ChildOk, SetFrom, SetDone;
    var d := own[b].depth;
    var i := idx / Pow(v.n, d - 1);
    var (v1, m) := Alloc(v).value;
    AllocFresh(v, own);
    LinkTrees(v1, own, b, i, m);
    LinkShape(v1, own, b, i, m);
    PtrAfterLink(v1, b, i, m, b, i);
    LinkedFirst(v, b, d, idx, x);
    own' := SetExisting(LinkNew(v1, b, i, m), own[m := ChildOwner(v.n, own[b], i)], b, idx, x);
    FreshDone(v, v1, m, own, own', b, idx, x);
  }

  /** Allocating on the way down is the same as linking the new block first. */
  lemma LinkedFirst(v: Volume, b: int, d: int, idx: int, x: int)
    requires Device(v) && b != 0 && d >= 2 && 0 <= idx < Pow(v.n, d) && Alloc(v).Some? && b != Alloc(v).value.1
    requires 0 <= idx / Pow(v.n, d - 1) < v.n && Ptr(Read(v, b), idx / Pow(v.n, d - 1)) == 0
    ensures var (v1, m) := Alloc(v).value;
      && v1.n == v.n >= 1
      && SetFrom(v, b, d, idx, x) == SetFrom(LinkNew(v1, b, idx / Pow(v.n, d - 1), m), b, d, idx, x)
  {
    hide Ptr, PutPtr, Pow;
    var (v1, m) := Alloc(v).value;
    PtrAfterLink(v1, b, idx / Pow(v.n, d - 1), m, b, idx / Pow(v.n, d - 1));
  }

  lemma FreshDone(v: Volume, v1: Volume, m: int, own: Owners, own': Owners, b: int, idx: int, x: int)
    requires TreesOk(v, own) && b in own && own[b].depth >= 2 && 0 <= idx < Pow(v.n, own[b].depth) && x !in own
    requires 0 <= idx / Pow(v.n, own[b].depth - 1) < v.n && Ptr(Read(v, b), idx / Pow(v.n, own[b].depth - 1)) == 0
    requires Alloc(v) == Some((v1, m)) && TreesOk(v1, own)
    requires var v2, own1 := LinkNew(v1, b, idx / Pow(v.n, own[b].depth - 1), m), own[m := ChildOwner(v.n, own[b], idx / Pow(v.n, own[b].depth - 1))];
      && TreesOk(v2, own1) && v2.n == v.n && b != m && SetDone(v2, own1, own', b, idx, x)
      && SetFrom(v, b, own[b].depth, idx, x) == SetFrom(v2, b, own[b].depth, idx, x)
    ensures SetDone(v, own, own', b, idx, x)
  {
    hide Ptr, PutPtr, Pow, Read, Spans, Alloc, LinkNew, Used, GetFrom, ChildOk, SetFrom;
    var d := own[b].depth;
    var i := idx / Pow(v.n, d - 1);
    AllocFresh(v, own);
    var v2, own1 := LinkNew(v1, b, i, m), own[m := ChildOwner(v.n, own[b], i)];
    LinkShape(v1, own, b, i, m);
    var (w, ok) := SetFrom(v, b, d, idx, x);
    forall k | 0 <= k < Pow(v.n, d) ensures GetFrom(w, b, d, k) == if ok && k == idx then x else GetFrom(v, b, d, k) {
      LinkGets(v1, own, b, i, m, b, k);
      AllocGets(v, v1, b, d, k);
    }
    FramedFresh(v, v1, v2, w, own, own1, b, idx, m);
  }

  /**
   Setting one entry of an indirect tree of any depth: it alone changes, no other tree changes, and a set
   that runs out of blocks changes no entry at all.
   */
  lemma {:induction false} SetTree(v: Volume, own: Owners, b: int, idx: int, x: int) returns (own': Owners)
    requires TreesOk(v, own) && b in own && own[b].depth >= 1 && 0 <= idx < Pow(v.n, own[b].depth)
    requires x != 0 && Used(v, x) && x !in own
    ensures SetDone(v, own, own', b, idx, x)
    decreases own[b].depth, 2
  {
    hide Ptr, PutPtr, Pow, Read, Spans, Alloc;
    var d := own[b].depth;
    if d == 1 {
      own' := SetLeaf(v, own, b, idx, x);
    } else {
      Split(v.n, d, idx);
      if Ptr(Read(v, b), idx / Pow(v.n, d - 1)) != 0 {
        own' := SetExisting(v, own, b, idx, x);
      } else if Alloc(v).Some? {
        own' := SetFresh(v, own, b, idx, x);
      } else {
        own' := own;
      }
    }
  }

  lemma LinkShape(v: Volume, own: Owners, b: int, i: int, m: int)
    requires TreesOk(v, own) && b in own && 0 <= i < v.n && m != 0 && m !in own
    ensures var w := LinkNew(v, b, i, m);
      && w.n == v.n >= 1 && w.first == v.first && w.bits == v.bits && b != 0 && b != m
      && (forall c :: Used(w, c) <==> Used(v, c))
      && (forall c :: c != b && c != m ==> Read(w, c) == Read(v, c))
  {
  }

  lemma FramedFresh(v: Volume, v1: Volume, v2: Volume, w: Volume, own: Owners, own1: Owners, b: int, idx: int, m: int)
    requires TreesOk(v, own) && b in own && own[b].depth >= 2 && 0 <= idx < Pow(v.n, own[b].depth) && m !in own && m in own1
    requires v1.n == v2.n == v.n && v1.first == v2.first == v.first && |v1.bits| == |v2.bits| == |v.bits|
    requires Extends(own, own1) && forall c :: c in own1 ==> own1[c].depth >= 0
    requires forall c :: Used(v, c) ==> Used(v1, c)
    requires forall c :: Used(v1, c) ==> Used(v2, c)
    requires forall c :: Read(v1, c) == Read(v, c)
    requires forall c :: c != b && c != m ==> Read(v2, c) == Read(v1, c)
    requires Framed(v2, w, own1, own[b].ino, own[b].lo + idx, own[b].depth)
    ensures Framed(v, w, own, own[b].ino, own[b].lo + idx, own[b].depth)
  {
    hide Read, Used, Pow, ChildOk, Spans;
    RootOnPath(v.n, own[b], idx);
    forall c | c in own && !OnPath(v.n, own[c], own[b].ino, own[b].lo + idx, own[b].depth) ensures Read(w, c) == Read(v, c) {
      assert c in own1 && !OnPath(v2.n, own1[c], own[b].ino, own[b].lo + idx, own[b].depth);
    }
  }

  lemma {:induction false} AllocGets(v: Volume, v1: Volume, b: int, d: int, k: int)
    requires v.n >= 1 && v1 == v.(bits := v1.bits) && d >= 0 && 0 <= k < Pow(v.n, d)
    ensures GetFrom(v1, b, d, k) == GetFrom(v, b, d, k)
    decreases d
  {
    hide Ptr, Pow;
    if d > 0 && b != 0 {
      Split(v.n, d, k);
      AllocGets(v, v1, Ptr(Read(v, b), k / Pow(v.n, d - 1)), d - 1, k % Pow(v.n, d - 1));
    }
  }
}
