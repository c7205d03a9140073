/**
 File contents over the block map: the byte at an offset, what writing one data block does to every
 byte of every file, and how the chunks of a write add up.
 */
module FileData {
  import opened Basics
  import opened BlockTree
  import opened BlockMap

  /** The logical block of an offset. */
  function Blk(n: int, o: int): (r: int)
    requires n >= 1 && o >= 0
    ensures r >= 0
  {
    Euclid(o, 4 * n);
    o / (4 * n)
  }

  /** The position of an offset in its block. */
  function Pos(n: int, o: int): (r: int)
    requires n >= 1 && o >= 0
    ensures 0 <= r < 4 * n
  {
    Euclid(o, 4 * n);
    o % (4 * n)
  }

  /** The byte of a file at an offset; a hole reads as zero. */
  function FileByte(v: Volume, ptrs: seq<int>, o: int): int
    requires v.n >= 1 && |ptrs| == SLOTS && o >= 0
  {
    var b := Get(v, ptrs, Blk(v.n, o));
    if b == 0 then 0 else Read(v, b)[Pos(v.n, o)]
  }

  /** Byte p of a file's block b is byte p of the disk block behind it, 0 in a hole. */
  lemma FileLayout(v: Volume, ptrs: seq<int>, b: int, p: int)
    requires v.n >= 1 && |ptrs| == SLOTS && b >= 0 && 0 <= p < 4 * v.n
    ensures b * (4 * v.n) >= 0 && FileByte(v, ptrs, b * (4 * v.n) + p)
      == if Get(v, ptrs, b) == 0 then 0 else Read(v, Get(v, ptrs, b))[p]
  {
    var n := 4 * v.n;
    Scale(0, b, n);
    var o := b * n + p;
    Quotient(o, b, n);
    assert o == o / n * n + o % n;
  }

  /** How far o lies after off, with 32-bit offsets. */
  function Rel(off: int, o: int): int { if o >= off then o - off else o - off + WORD }

  ghost predicate Full(v: Volume) {
    forall i :: 0 <= i < |v.bits| ==> v.bits[i]
  }

  /** Every mapping of v is one of w. */
  ghost predicate Grows(v: Volume, files: Files, w: Volume, files': Files)
    requires v.n >= 1 && w.n >= 1
    requires forall i :: i in files ==> |files[i]| == SLOTS
    requires forall i :: i in files' ==> |files'[i]| == SLOTS
  {
    && files'.Keys == files.Keys
    && forall i, l :: i in files && l >= 0 && Get(v, files[i], l) != 0 ==> Get(w, files'[i], l) == Get(v, files[i], l)
  }

  // ---------------------------------------------------------------- writing a data block

  /** Writing a block that is no indirect block leaves the block map alone. */
  lemma DataWrite(v: Volume, files: Files, own: Owners, b: int, s: seq<int>)
    requires FilesOk(v, files, own) && b != 0 && |s| == 4 * v.n && Used(v, b) && (b in own ==> own[b].depth == 0)
    ensures var w := Write(v, b, s);
      && w.n == v.n && FilesOk(w, files, own) && Read(w, b) == s && (forall c :: c != b ==> Read(w, c) == Read(v, c))
      && forall i, l :: i in files && l >= 0 ==> Get(w, files[i], l) == Get(v, files[i], l)
  {
    hide Ptr, Pow;
    var w := Write(v, b, s);
    forall c, j | c in own && own[c].depth >= 1 && 0 <= j < v.n ensures ChildOk(w, own, c, j) {
      assert ChildOk(v, own, c, j);
    }
    forall i, l | i in files && l >= 0 ensures Get(w, files[i], l) == Get(v, files[i], l) {
      DataWriteGet(v, w, files, own, b, i, l);
    }
  }

  lemma DataWriteGet(v: Volume, w: Volume, files: Files, own: Owners, b: int, i: int, l: int)
    requires FilesOk(v, files, own) && w.n == v.n && (b in own ==> own[b].depth == 0)
    requires forall c :: c != b ==> Read(w, c) == Read(v, c)
    requires i in files && l >= 0
    ensures Get(w, files[i], l) == Get(v, files[i], l)
  {
    hide Ptr, Pow, Read;
    SlotSpan(v.n, l);
    if SlotOf(v.n, l).Some? {
      var r := SlotOf(v.n, l).value;
      assert RootOk(v.n, own, i, files[i], r.index);
      if files[i][r.index] != 0 {
        IndirectGets(v, w, own, b, files[i][r.index], r.idx);
      } else {
        ZeroRoot(v, r.depth, r.idx);
        ZeroRoot(w, r.depth, r.idx);
      }
    }
  }

  lemma {:induction false} IndirectGets(v: Volume, w: Volume, own: Owners, b: int, c: int, idx: int)
    requires TreesOk(v, own) && w.n == v.n && c in own && 0 <= idx < Pow(v.n, own[c].depth)
    requires b in own ==> own[b].depth == 0
    requires forall x :: x != b ==> Read(w, x) == Read(v, x)
    ensures GetFrom(w, c, own[c].depth, idx) == GetFrom(v, c, own[c].depth, idx)
    decreases own[c].depth
  {
    hide Ptr, Pow, Read;
    var d := own[c].depth;
    if d > 0 {
      Split(v.n, d, idx);
      var j, rest := idx / Pow(v.n, d - 1), idx % Pow(v.n, d - 1);
      assert ChildOk(v, own, c, j);
      var x := Ptr(Read(v, c), j);
      if x != 0 {
        IndirectGets(v, w, own, b, x, rest);
      } else {
        ZeroRoot(v, d - 1, rest);
        ZeroRoot(w, d - 1, rest);
      }
    }
  }

  // ---------------------------------------------------------------- one chunk

  /** The byte at offset o of file i after `piece` went to offset cur of file ino. */
  ghost predicate PatchedAt(v: Volume, files: Files, w: Volume, files': Files, ino: int, cur: int, piece: seq<int>, i: int, o: int)
    requires v.n >= 1 && w.n >= 1 && i in files && i in files' && |files[i]| == |files'[i]| == SLOTS && o >= 0
  {
    FileByte(w, files'[i], o) ==
      if i == ino && cur <= o < cur + |piece| && Get(w, files'[i], Blk(w.n, o)) != 0 then piece[o - cur] else FileByte(v, files[i], o)
  }

  ghost predicate Patched(v: Volume, files: Files, w: Volume, files': Files, ino: int, cur: int, piece: seq<int>)
    requires v.n >= 1 && w.n >= 1 && files'.Keys == files.Keys
    requires forall i :: i in files ==> |files[i]| == SLOTS
    requires forall i :: i in files' ==> |files'[i]| == SLOTS
  {
    forall i, o :: i in files && 0 <= o ==> PatchedAt(v, files, w, files', ino, cur, piece, i, o)
  }

  /** Offsets of one chunk: all in one block, at consecutive positions. */
  lemma ChunkBlock(n: int, cur: int, o: int, len: int)
    requires n >= 1 && cur >= 0 && o >= 0 && Pos(n, cur) + len <= 4 * n
    ensures cur <= o < cur + len ==> Blk(n, o) == Blk(n, cur)
    ensures Blk(n, o) == Blk(n, cur) ==> o - cur == Pos(n, o) - Pos(n, cur)
  {
    var bs := 4 * n;
    Euclid(o, bs);
    Euclid(cur, bs);
    if cur <= o < cur + len {
      if o / bs < cur / bs { Scale(o / bs + 1, cur / bs, bs); }
      if o / bs > cur / bs { Scale(cur / bs + 1, o / bs, bs); }
    }
  }

  lemma Euclid(o: int, bs: int)
    requires bs >= 1
    ensures o == o / bs * bs + o % bs && 0 <= o % bs < bs && (o >= 0 ==> o / bs >= 0)
  {
    assert o == o / bs * bs + o % bs;
    if o / bs < 0 { Scale(o / bs, -1, bs); }
  }

  /** Overwriting part of a mapped block. */
  lemma PatchMapped(v: Volume, files: Files, own: Owners, ino: int, cur: int, b: int, piece: seq<int>)
    requires FilesOk(v, files, own) && ino in files && cur >= 0 && Pos(v.n, cur) + |piece| <= 4 * v.n
    requires b == Get(v, files[ino], Blk(v.n, cur)) != 0
    ensures var w := Write(v, b, Overlay(Read(v, b), Pos(v.n, cur), piece));
      && w.n == v.n && FilesOk(w, files, own) && Patched(v, files, w, files, ino, cur, piece)
      && forall i, l :: i in files && l >= 0 ==> Get(w, files[i], l) == Get(v, files[i], l)
  {
    hide Ptr, Pow, Get, Read, Blk, Pos, ChildOk;
    GetOwner(v, files, own, ino, Blk(v.n, cur));
    var s := Overlay(Read(v, b), Pos(v.n, cur), piece);
    DataWrite(v, files, own, b, s);
    var w := Write(v, b, s);
    forall i, o | i in files && 0 <= o ensures PatchedAt(v, files, w, files, ino, cur, piece, i, o) {
      ChunkBlock(v.n, cur, o, |piece|);
      if Get(v, files[i], Blk(v.n, o)) == b { NoSharing(v, files, own, i, Blk(v.n, o), ino, Blk(v.n, cur)); }
    }
  }

  // ---------------------------------------------------------------- filling a hole

  lemma {:induction false} SetFromFails(v: Volume, b: int, d: int, idx: int, x: int)
    requires v.n >= 1 && d >= 1 && 0 <= idx < Pow(v.n, d)
    ensures SetFrom(v, b, d, idx, x).1 || Full(SetFrom(v, b, d, idx, x).0)
    decreases d
  {
    hide Ptr, Pow, Read;
    if d > 1 {
      Split(v.n, d, idx);
      var i, rest := idx / Pow(v.n, d - 1), idx % Pow(v.n, d - 1);
      if Ptr(Read(v, b), i) != 0 {
        SetFromFails(v, Ptr(Read(v, b), i), d - 1, rest, x);
      } else if Alloc(v).Some? {
        var (v1, m) := Alloc(v).value;
        SetFromFails(LinkNew(v1, b, i, m), m, d - 1, rest, x);
      }
    }
  }

  /** A set fails only beyond the addressable range or on a full volume. */
  lemma SetFails(v: Volume, ptrs: seq<int>, l: int, x: int)
    requires v.n >= 1 && |ptrs| == SLOTS && l >= 0
    ensures Set(v, ptrs, l, x).2 || SlotOf(v.n, l).None? || Full(Set(v, ptrs, l, x).0)
  {
    hide Ptr, Pow, Read;
    SlotSpan(v.n, l);
    if SlotOf(v.n, l).Some? {
      var r := SlotOf(v.n, l).value;
      if r.depth > 0 {
        if ptrs[r.index] != 0 {
          SetFromFails(v, ptrs[r.index], r.depth, r.idx, x);
        } else if Alloc(v).Some? {
          var (v1, m) := Alloc(v).value;
          SetFromFails(Write(v1, m, Zeros(4 * v.n)), m, r.depth, r.idx, x);
        }
      }
    }
  }

  lemma AllocFiles(v: Volume, v1: Volume, x: int, files: Files, own: Owners)
    requires FilesOk(v, files, own) && Alloc(v) == Some((v1, x))
    ensures x != 0 && !Used(v, x) && Used(v1, x) && x !in own && v1.n == v.n && FilesOk(v1, files, own)
    ensures forall b :: Read(v1, b) == Read(v, b)
    ensures forall b :: Used(v, b) ==> Used(v1, b)
    ensures forall i, l :: i in files && l >= 0 ==> Get(v1, files[i], l) == Get(v, files[i], l)
  {
    hide Ptr, Pow, Read, ChildOk;
    AllocFresh(v, own);
    forall i, s | i in files && 0 <= s < SLOTS ensures RootOk(v1.n, own, i, files[i], s) {
      assert RootOk(v.n, own, i, files[i], s);
    }
    forall i, l | i in files && l >= 0 ensures Get(v1, files[i], l) == Get(v, files[i], l) {
      SlotSpan(v.n, l);
      if SlotOf(v.n, l).Some? {
        var r := SlotOf(v.n, l).value;
        AllocGets(v, v1, files[i][r.index], r.depth, r.idx);
      }
    }
  }

  /** What writing a piece into a hole of file ino yields, given the block that was allocated for it. */
  function FillHole(v1: Volume, ptrs: seq<int>, x: int, cur: int, piece: seq<int>): (r: (Volume, seq<int>))
    requires v1.n >= 1 && |ptrs| == SLOTS && cur >= 0 && Pos(v1.n, cur) + |piece| <= 4 * v1.n
    ensures |r.1| == SLOTS
  {
    var (v2, ptrs', ok) := Set(v1, ptrs, Blk(v1.n, cur), x);
    (Write(v2, x, Overlay(Zeros(4 * v1.n), Pos(v1.n, cur), piece)), ptrs')
  }

  /**
   Writing into a hole maps at most the one block, shows the piece with zeros around it, and changes no
   other byte of any file. If the pointer could not be set the hole stays a hole.
   */
  lemma PatchHole(v: Volume, v1: Volume, x: int, files: Files, own: Owners, ino: int, cur: int, piece: seq<int>) returns (own': Owners)
    requires FilesOk(v, files, own) && ino in files && cur >= 0 && Pos(v.n, cur) + |piece| <= 4 * v.n
    requires Get(v, files[ino], Blk(v.n, cur)) == 0 && Alloc(v) == Some((v1, x))
    ensures v1.n == v.n
    ensures var (w, ptrs) := FillHole(v1, files[ino], x, cur, piece); var files' := files[ino := ptrs];
      && w.n == v.n && w.first == v.first && FilesOk(w, files', own') && Patched(v, files, w, files', ino, cur, piece)
      && (forall b :: Used(v, b) ==> Used(w, b))
      && (forall i, l :: i in files && l >= 0 && (i != ino || l != Blk(v.n, cur)) ==> Get(w, files'[i], l) == Get(v, files[i], l))
      && (Get(w, files'[ino], Blk(v.n, cur)) != 0 || SlotOf(v.n, Blk(v.n, cur)).None? || Full(w))
  {
    hide Ptr, Pow, Get, Set, Read, Blk, Pos, ChildOk;
    AllocFiles(v, v1, x, files, own);
    var l := Blk(v.n, cur);
    own' := SetBlock(v1, files, own, ino, l, x);
    var (v2, ptrs, ok) := Set(v1, files[ino], l, x);
    var files' := files[ino := ptrs];
    SetFails(v1, files[ino], l, x);
    var s := Overlay(Zeros(4 * v.n), Pos(v.n, cur), piece);
    DataWrite(v2, files', own', x, s);
    var w := Write(v2, x, s);
    forall i, o | i in files && 0 <= o ensures PatchedAt(v, files, w, files', ino, cur, piece, i, o) {
      HolePatchedAt(v, v2, w, files, files', own, ino, cur, x, ok, piece, i, o);
    }
  }

  lemma HolePatchedAt(v: Volume, v2: Volume, w: Volume, files: Files, files': Files, own: Owners, ino: int, cur: int,
    x: int, ok: bool, piece: seq<int>, i: int, o: int)
    requires FilesOk(v, files, own) && ino in files && cur >= 0 && Pos(v.n, cur) + |piece| <= 4 * v.n && w.n == v2.n == v.n
    requires Get(v, files[ino], Blk(v.n, cur)) == 0 && x != 0 && x !in own
    requires i in files && o >= 0 && i in files' && |files'[i]| == SLOTS
    requires Get(w, files'[i], Blk(v.n, o)) == if ok && i == ino && Blk(v.n, o) == Blk(v.n, cur) then x else Get(v, files[i], Blk(v.n, o))
    requires forall c :: c in own && own[c].depth == 0 && own[c] != Owner(ino, 0, Blk(v.n, cur)) ==> Read(v2, c) == Read(v, c)
    requires forall c :: c != x ==> Read(w, c) == Read(v2, c)
    requires Read(w, x) == Overlay(Zeros(4 * v.n), Pos(v.n, cur), piece)
    ensures PatchedAt(v, files, w, files', ino, cur, piece, i, o)
  {
    hide Ptr, Pow, Get, Read, Blk, Pos, ChildOk;
    ChunkBlock(v.n, cur, o, |piece|);
    GetOwner(v, files, own, i, Blk(v.n, o));
  }
}
