/**
 An ext2 volume updated in place: block allocation by groups, the block map, and file reads and writes.
 */
module Ext2 {
  import opened Basics
  import opened BlockTree
  import opened BlockMap
  import opened FileData

  datatype Inode = Inode(ptrs: seq<int>, size: int)

  // ---------------------------------------------------------------- free counts

  /** The number of clear bits in [lo, hi). */
  function CountClear(bits: seq<bool>, lo: int, hi: int): (r: int)
    requires 0 <= lo <= hi <= |bits|
    ensures 0 <= r <= hi - lo
    decreases hi - lo
  {
    if lo == hi then 0 else (if bits[lo] then 0 else 1) + CountClear(bits, lo + 1, hi)
  }

  lemma {:induction false} CountSet(bits: seq<bool>, lo: int, hi: int, i: int)
    requires 0 <= lo <= hi <= |bits| && 0 <= i < |bits| && !bits[i]
    ensures CountClear(bits[i := true], lo, hi) == CountClear(bits, lo, hi) - if lo <= i < hi then 1 else 0
    decreases hi - lo
  {
    if lo < hi { CountSet(bits, lo + 1, hi, i); }
  }

  lemma {:induction false} NoneClear(bits: seq<bool>, lo: int, hi: int)
    requires 0 <= lo <= hi <= |bits| && CountClear(bits, lo, hi) == 0
    ensures forall i :: lo <= i < hi ==> bits[i]
    decreases hi - lo
  {
    if lo < hi { NoneClear(bits, lo + 1, hi); }
  }

  lemma {:induction false} FirstIs(bits: seq<bool>, i: int, k: int)
    requires 0 <= k <= i < |bits| && !bits[i] && forall j :: k <= j < i ==> bits[j]
    ensures FirstClear(bits, k) == Some(i)
    decreases i - k
  {
    if k < i { FirstIs(bits, i, k + 1); }
  }

  // ---------------------------------------------------------------- the three indirect levels, unrolled

  /** Pointer i of an indirect block; nothing is mapped below block 0. */
  function Step(v: Volume, b: int, i: int): int
    requires v.n >= 1 && 0 <= i < v.n
  {
    if b == 0 then 0 else Ptr(Read(v, b), i)
  }

  lemma Index2(n: int, k: int)
    requires n >= 1 && 0 <= k < n * n
    ensures 0 <= k / n < n && 0 <= k % n < n
  {
    DivBound(k, n, n);
  }

  lemma Index3(n: int, k: int)
    requires n >= 1 && 0 <= k < n * n * n
    ensures n * n >= 1 && 0 <= k / (n * n) < n && 0 <= k % (n * n) < n * n
  {
    assert n * n >= 1;
    assert n * (n * n) == n * n * n;
    DivBound(k, n * n, n);
  }

  lemma Get1(v: Volume, b: int, k: int)
    requires v.n >= 1 && 0 <= k < v.n
    ensures Pow(v.n, 1) == v.n && GetFrom(v, b, 1, k) == Step(v, b, k)
  {
    hide Ptr, Read;
    Powers(v.n);
  }

  lemma Get2(v: Volume, b: int, k: int)
    requires v.n >= 1 && 0 <= k < v.n * v.n
    ensures Pow(v.n, 2) == v.n * v.n && 0 <= k / v.n < v.n
    ensures GetFrom(v, b, 2, k) == Step(v, Step(v, b, k / v.n), k % v.n)
  {
    hide Ptr, Read;
    Powers(v.n);
    Index2(v.n, k);
    if b != 0 { Get1(v, Step(v, b, k / v.n), k % v.n); }
  }

  lemma Get3(v: Volume, b: int, k: int)
    requires v.n >= 1 && 0 <= k < v.n * v.n * v.n
    ensures Pow(v.n, 3) == v.n * v.n * v.n && v.n * v.n >= 1 && 0 <= k / (v.n * v.n) < v.n && 0 <= k % (v.n * v.n) / v.n < v.n
    ensures GetFrom(v, b, 3, k) == Step(v, Step(v, Step(v, b, k / (v.n * v.n)), k % (v.n * v.n) / v.n), k % (v.n * v.n) % v.n)
  {
    hide Ptr, Read;
    Powers(v.n);
    Index3(v.n, k);
    Index2(v.n, k % (v.n * v.n));
    if b != 0 { Get2(v, Step(v, b, k / (v.n * v.n)), k % (v.n * v.n)); }
  }

  /** The child of b at i, allocated if it is missing. */
  function Ensure(v: Volume, b: int, i: int): Option<(Volume, int)>
    requires v.n >= 1 && 0 <= i < v.n
  {
    if Ptr(Read(v, b), i) != 0 then Some((v, Ptr(Read(v, b), i)))
    else
      match Alloc(v)
      case None => None
      case Some((v1, m)) => Some((LinkNew(v1, b, i, m), m))
  }

  function PutEntry(v: Volume, b: int, i: int, x: int): Volume
    requires v.n >= 1 && 0 <= i < v.n
  {
    Write(v, b, PutPtr(Read(v, b), i, x))
  }

  lemma Set1(v: Volume, b: int, k: int, x: int)
    requires v.n >= 1 && 0 <= k < v.n
    ensures Pow(v.n, 1) == v.n && SetFrom(v, b, 1, k, x) == (PutEntry(v, b, k, x), true)
  {
    hide Ptr, PutPtr, Read;
    Powers(v.n);
  }

  lemma Set2(v: Volume, b: int, k: int, x: int)
    requires v.n >= 1 && 0 <= k < v.n * v.n
    ensures Pow(v.n, 2) == v.n * v.n && 0 <= k / v.n < v.n && 0 <= k % v.n < v.n
    ensures SetFrom(v, b, 2, k, x) == match Ensure(v, b, k / v.n)
      case None => (v, false)
      case Some((w, c)) => if w.n == v.n then (PutEntry(w, c, k % v.n, x), true) else (v, false)
  {
    hide Ptr, PutPtr, Read;
    Powers(v.n);
    Index2(v.n, k);
    var e := Ensure(v, b, k / v.n);
    if e.Some? { Set1(e.value.0, e.value.1, k % v.n, x); }
  }

  lemma Set3(v: Volume, b: int, k: int, x: int)
    requires v.n >= 1 && 0 <= k < v.n * v.n * v.n
    ensures Pow(v.n, 3) == v.n * v.n * v.n && v.n * v.n >= 1 && Pow(v.n, 2) == v.n * v.n
    ensures 0 <= k / (v.n * v.n) < v.n && 0 <= k % (v.n * v.n) < v.n * v.n
    ensures SetFrom(v, b, 3, k, x) == match Ensure(v, b, k / (v.n * v.n))
      case None => (v, false)
      case Some((w, c)) => if w.n == v.n then SetFrom(w, c, 2, k % (v.n * v.n), x) else (v, false)
  {
    hide Ptr, PutPtr, Read;
    Powers(v.n);
    Index3(v.n, k);
  }

  class FileSystem {
    const n: int
    const first: int
    const perGroup: int
    var bits: seq<bool>
    var groupFree: seq<int>
    var freeBlocks: int
    var disk: map<int, seq<int>>
    var inodes: map<int, Inode>
    ghost var own: Owners

    /** Mounts an image: the volume, its group counts and its inode table. */
    constructor (v: Volume, perGroup: int, groupFree: seq<int>, freeBlocks: int, inodes: map<int, Inode>, ghost own: Owners)
      ensures Vol() == v && this.inodes == inodes && this.own == own
      ensures this.perGroup == perGroup && this.groupFree == groupFree && this.freeBlocks == freeBlocks
    {
      n, first, bits, disk := v.n, v.first, v.bits, v.disk;
      this.perGroup, this.groupFree, this.freeBlocks := perGroup, groupFree, freeBlocks;
      this.inodes, this.own := inodes, own;
    }

    ghost function Vol(): Volume
      reads `bits, `disk
    {
      Volume(n, first, bits, disk)
    }

    ghost function FilesNow(): Files
      reads `inodes
    {
      map i | i in inodes :: inodes[i].ptrs
    }

    function GroupStart(g: int): int { g * perGroup }

    function GroupEnd(g: int): int
      reads `bits
    {
      if GroupStart(g) + perGroup <= |bits| then GroupStart(g) + perGroup else |bits|
    }

    /** The free counts of the groups and of the volume agree with the bitmap. */
    ghost predicate CountsOk()
      reads `bits, `groupFree, `freeBlocks
    {
      && perGroup >= 1 && GroupStart(|groupFree|) >= |bits|
      && (forall g :: 0 <= g < |groupFree| ==> 0 <= GroupStart(g) <= GroupEnd(g) && groupFree[g] == CountClear(bits, GroupStart(g), GroupEnd(g)))
      && freeBlocks == CountClear(bits, 0, |bits|)
    }

    /** The lowest free block, marked used, or 0 when there is none. */
    method AllocBlock() returns (b: int)
      requires Device(Vol()) && CountsOk()
      modifies `bits, `groupFree, `freeBlocks
      ensures Device(Vol()) && CountsOk()
      ensures Alloc(old(Vol())).None? ==> b == 0 && Vol() == old(Vol()) && groupFree == old(groupFree) && freeBlocks == old(freeBlocks)
      ensures Alloc(old(Vol())).Some? ==> b != 0 && Alloc(old(Vol())) == Some((Vol(), b)) && freeBlocks == old(freeBlocks) - 1
    {
      var g := 0;
      while g < |groupFree|
        invariant 0 <= g <= |groupFree| && Vol() == old(Vol()) && groupFree == old(groupFree) && freeBlocks == old(freeBlocks)
        invariant forall k :: 0 <= k < GroupStart(g) && k < |bits| ==> bits[k]
      {
        NextGroup(g);
        if groupFree[g] == 0 {
          NoneClear(bits, GroupStart(g), GroupEnd(g));
        } else {
          var k := GroupStart(g);
          while k < GroupEnd(g)
            invariant GroupStart(g) <= k <= GroupEnd(g) && forall j :: 0 <= j < k ==> bits[j]
          {
            if !bits[k] {
              TakeBit(g, k);
              b := k + first;
              return;
            }
            k := k + 1;
          }
        }
        g := g + 1;
      }
      b := 0;
    }

    lemma NextGroup(g: int)
      requires perGroup >= 1
      ensures GroupStart(g + 1) == GroupStart(g) + perGroup
    {
    }

    /** Marks bit k of group g and takes it off both counts. */
    method TakeBit(g: int, k: int)
      requires Device(Vol()) && CountsOk() && 0 <= g < |groupFree| && GroupStart(g) <= k < GroupEnd(g)
      requires !bits[k] && forall j :: 0 <= j < k ==> bits[j]
      modifies `bits, `groupFree, `freeBlocks
      ensures Device(Vol()) && CountsOk() && freeBlocks == old(freeBlocks) - 1
      ensures Alloc(old(Vol())) == Some((Vol(), first + k))
    {
      hide CountClear, GroupStart, FirstClear;
      FirstIs(bits, k, 0);
      ghost var before := bits;
      bits := bits[k := true];
      groupFree := groupFree[g := groupFree[g] - 1];
      freeBlocks := freeBlocks - 1;
      CountSet(before, 0, |bits|, k);
      forall h | 0 <= h < |groupFree|
        ensures 0 <= GroupStart(h) <= GroupEnd(h) && groupFree[h] == CountClear(bits, GroupStart(h), GroupEnd(h))
      {
        CountSet(before, GroupStart(h), GroupEnd(h), k);
        OneGroup(g, h, k);
      }
    }

    lemma OneGroup(g: int, h: int, k: int)
      requires perGroup >= 1 && GroupStart(g) <= k < GroupStart(g) + perGroup
      ensures GroupStart(h) <= k < GroupStart(h) + perGroup <==> g == h
    {
      if g < h { Scale(g + 1, h, perGroup); }
      if h < g { Scale(h + 1, g, perGroup); }
    }

    /** Reads a block; block 0 reads as zeros. */
    method ReadBlock(b: int) returns (s: seq<int>)
      requires n >= 1
      ensures s == Read(Vol(), b)
    {
      if b != 0 && b in disk && |disk[b]| == 4 * n { s := disk[b]; } else { s := Zeros(4 * n); }
    }

    /** Writes a block; writes to block 0 are refused. */
    method WriteBlock(b: int, s: seq<int>)
      requires Device(Vol()) && |s| == 4 * n
      modifies `disk
      ensures Vol() == Write(old(Vol()), b, s) && Device(Vol())
    {
      if b != 0 { disk := disk[b := s]; }
    }

    method EntryOf(b: int, i: int) returns (c: int)
      requires n >= 1 && 0 <= i < n
      ensures c == Step(Vol(), b, i)
    {
      if b == 0 { return 0; }
      var s := ReadBlock(b);
      c := Ptr(s, i);
    }

    /** The disk block of a logical block: direct, then one, two or three levels down. */
    method GetBlockNum(ptrs: seq<int>, logical: int) returns (r: int)
      requires n >= 1 && |ptrs| == SLOTS && logical >= 0
      ensures r == Get(Vol(), ptrs, logical)
    {
      hide Ptr, Pow, Read;
      SlotSpan(n, logical);
      if logical < DIRECT { return ptrs[logical]; }
      var k := logical - DIRECT;
      if k < n {
        Get1(Vol(), ptrs[12], k);
        r := EntryOf(ptrs[12], k);
        return;
      }
      k := k - n;
      if k < n * n {
        Get2(Vol(), ptrs[13], k);
        var c := EntryOf(ptrs[13], k / n);
        r := EntryOf(c, k % n);
        return;
      }
      k := k - n * n;
      if k < n * n * n {
        Get3(Vol(), ptrs[14], k);
        var d := EntryOf(ptrs[14], k / (n * n));
        var c := EntryOf(d, k % (n * n) / n);
        r := EntryOf(c, k % (n * n) % n);
        return;
      }
      r := 0;
    }

    /** The child of indirect block b at i; 0 when it is missing and the volume is full. */
    method EnsureChild(b: int, i: int) returns (c: int)
      requires Device(Vol()) && CountsOk() && 0 <= i < n
      modifies `bits, `groupFree, `freeBlocks, `disk
      ensures Device(Vol()) && CountsOk()
      ensures Ensure(old(Vol()), b, i).None? ==> c == 0 && Vol() == old(Vol())
      ensures Ensure(old(Vol()), b, i).Some? ==> c != 0 && Ensure(old(Vol()), b, i) == Some((Vol(), c))
    {
      hide Ptr, PutPtr, Read, CountsOk, Alloc;
      var s := ReadBlock(b);
      c := Ptr(s, i);
      if c == 0 {
        c := AllocBlock();
        if c == 0 { return; }
        SameRead(old(Vol()), Vol(), b);
        WriteBlock(b, PutPtr(s, i, c));
        WriteBlock(c, Zeros(4 * n));
      }
    }

    method PutChild(b: int, i: int, x: int)
      requires Device(Vol()) && CountsOk() && 0 <= i < n
      modifies `disk
      ensures Device(Vol()) && CountsOk() && Vol() == PutEntry(old(Vol()), b, i, x)
    {
      var s := ReadBlock(b);
      WriteBlock(b, PutPtr(s, i, x));
    }

    method SetDouble(b: int, k: int, x: int) returns (ok: bool)
      requires Device(Vol()) && CountsOk() && 0 <= k < n * n
      modifies `bits, `groupFree, `freeBlocks, `disk
      ensures Device(Vol()) && CountsOk() && Pow(n, 2) == n * n && (Vol(), ok) == SetFrom(old(Vol()), b, 2, k, x)
    {
      hide Ptr, PutPtr, Read, CountsOk, Alloc, Ensure, SetFrom;
      Set2(Vol(), b, k, x);
      var c := EnsureChild(b, k / n);
      if c == 0 { return false; }
      PutChild(c, k % n, x);
      ok := true;
    }

    method SetTriple(b: int, k: int, x: int) returns (ok: bool)
      requires Device(Vol()) && CountsOk() && 0 <= k < n * n * n
      modifies `bits, `groupFree, `freeBlocks, `disk
      ensures Device(Vol()) && CountsOk() && Pow(n, 3) == n * n * n && (Vol(), ok) == SetFrom(old(Vol()), b, 3, k, x)
    {
      hide Ptr, PutPtr, Read, CountsOk, Alloc, Ensure, SetFrom;
      Set3(Vol(), b, k, x);
      var c := EnsureChild(b, k / (n * n));
      if c == 0 { return false; }
      ok := SetDouble(c, k % (n * n), x);
    }

    /** The root of an indirect tree, allocated and zeroed if it is missing; 0 when the volume is full. */
    method EnsureRoot(b: int) returns (c: int)
      requires Device(Vol()) && CountsOk()
      modifies `bits, `groupFree, `freeBlocks, `disk
      ensures Device(Vol()) && CountsOk()
      ensures b != 0 ==> c == b && Vol() == old(Vol())
      ensures b == 0 && Alloc(old(Vol())).None? ==> c == 0 && Vol() == old(Vol())
      ensures b == 0 && Alloc(old(Vol())).Some? ==> c != 0 && c == Alloc(old(Vol())).value.1
      ensures b == 0 && Alloc(old(Vol())).Some? ==> Vol() == Write(Alloc(old(Vol())).value.0, c, Zeros(4 * n))
    {
      hide CountsOk, Alloc;
      c := b;
      if b == 0 {
        c := AllocBlock();
        if c == 0 { return; }
        WriteBlock(c, Zeros(4 * n));
      }
    }

    /** Points a logical block to x, allocating indirect blocks on the way. */
    method SetBlockNum(ptrs: seq<int>, logical: int, x: int) returns (ptrs': seq<int>, ok: bool)
      requires Device(Vol()) && CountsOk() && |ptrs| == SLOTS && logical >= 0
      modifies `bits, `groupFree, `freeBlocks, `disk
      ensures Device(Vol()) && CountsOk() && (Vol(), ptrs', ok) == Set(old(Vol()), ptrs, logical, x)
    {
      hide Ptr, PutPtr, Read, CountsOk, Alloc, SetFrom, PutEntry;
      SlotSpan(n, logical);
      if logical < DIRECT { return ptrs[logical := x], true; }
      var s, k := 12, logical - DIRECT;
      if k >= n {
        s, k := 13, k - n;
        if k >= n * n {
          s, k := 14, k - n * n;
          if k >= n * n * n { return ptrs, false; }
        }
      }
      var b := EnsureRoot(ptrs[s]);
      if b == 0 { return ptrs, false; }
      assert ptrs[s := ptrs[s]] == ptrs;
      ptrs' := ptrs[s := b];
      if s == 12 {
        Set1(Vol(), b, k, x);
        PutChild(b, k, x);
        ok := true;
      } else if s == 13 {
        ok := SetDouble(b, k, x);
      } else {
        ok := SetTriple(b, k, x);
      }
    }

    ghost predicate Valid()
      reads this
    {
      && FilesOk(Vol(), FilesNow(), own) && CountsOk() && WORD % (4 * n) == 0
      && forall i :: i in inodes ==> 0 <= inodes[i].size < WORD
    }

    /** Reads from a file; holes read as zeros. The end of file test is done in 32 bits. */
    method ReadFile(ino: int, off: int, size: int) returns (buf: seq<int>)
      requires Valid() && 0 <= off < WORD && 0 <= size < WORD
      ensures |buf| == if ino !in inodes then 0 else ReadLength(inodes[ino].size, off, size)
      ensures forall k :: 0 <= k < |buf| ==> buf[k] == FileByte(Vol(), FilesNow()[ino], At(off, k))
    {
      hide Get, Read, Blk, Pos, FileByte, ChildOk, CountsOk;
      buf := [];
      if ino !in inodes { return; }
      var ptrs, isize := inodes[ino].ptrs, inodes[ino].size;
      assert FilesNow()[ino] == ptrs;
      if off >= isize { return; }
      var todo := if At(off, size) > isize then isize - off else size;
      while |buf| < todo
        invariant |buf| <= todo && forall k :: 0 <= k < |buf| ==> buf[k] == FileByte(Vol(), ptrs, At(off, k))
        decreases todo - |buf|
      {
        var cur := At(off, |buf|);
        var len := if 4 * n - Pos(n, cur) > todo - |buf| then todo - |buf| else 4 * n - Pos(n, cur);
        ChunkNoWrap(n, cur, len);
        var b := GetBlockNum(ptrs, Blk(n, cur));
        var s := ReadBlock(b);
        var chunk := if b == 0 then Zeros(len) else s[Pos(n, cur)..Pos(n, cur) + len];
        forall j | 0 <= j < len ensures chunk[j] == FileByte(Vol(), ptrs, At(off, |buf| + j)) {
          ChunkByte(Vol(), ptrs, cur, len, j);
        }
        buf := buf + chunk;
      }
    }

    /**
     Writes one piece inside a block of a file, given the inode's pointers so far. A failed pointer update
     goes unnoticed, as in a full volume: the piece is then written to a block the file does not reach.
     */
    method WriteChunk(ino: int, ptrs: seq<int>, cur: int, piece: seq<int>) returns (ptrs': seq<int>, ok: bool)
      requires FilesOk(Vol(), FilesNow()[ino := ptrs], own) && CountsOk()
      requires cur >= 0 && Pos(n, cur) + |piece| <= 4 * n
      modifies `bits, `groupFree, `freeBlocks, `disk, `own
      ensures FilesOk(Vol(), FilesNow()[ino := ptrs'], own) && CountsOk()
      ensures ChunkWritten(old(Vol()), FilesNow()[ino := ptrs], Vol(), FilesNow()[ino := ptrs'], ino, cur, piece, ok)
    {
      hide Get, Read, Blk, Pos, ChildOk, CountsOk, Patched, Full;
      ghost var files := FilesNow()[ino := ptrs];
      assert files[ino] == ptrs;
      var b := GetBlockNum(ptrs, Blk(n, cur));
      if b == 0 {
        ptrs', ok := WriteHole(ino, ptrs, cur, piece);
      } else {
        PatchMapped(Vol(), files, own, ino, cur, b, piece);
        var s := ReadBlock(b);
        WriteBlock(b, Overlay(s, Pos(n, cur), piece));
        SameBits(old(Vol()), Vol());
        ptrs', ok := ptrs, true;
      }
    }

    /** The chunk falls into a hole: a new block, its pointer, and the piece among zeros. */
    method WriteHole(ino: int, ptrs: seq<int>, cur: int, piece: seq<int>) returns (ptrs': seq<int>, ok: bool)
      requires FilesOk(Vol(), FilesNow()[ino := ptrs], own) && CountsOk()
      requires cur >= 0 && Pos(n, cur) + |piece| <= 4 * n && |ptrs| == SLOTS && Get(Vol(), ptrs, Blk(n, cur)) == 0
      modifies `bits, `groupFree, `freeBlocks, `disk, `own
      ensures FilesOk(Vol(), FilesNow()[ino := ptrs'], own) && CountsOk()
      ensures ChunkWritten(old(Vol()), FilesNow()[ino := ptrs], Vol(), FilesNow()[ino := ptrs'], ino, cur, piece, ok)
    {
      hide Get, Set, Read, Blk, Pos, ChildOk, CountsOk, Alloc, Patched, Full;
      ghost var v, files := Vol(), FilesNow()[ino := ptrs];
      assert files[ino] == ptrs;
      var b := AllocBlock();
      NoneIffFull(v);
      if b == 0 { return ptrs, false; }
      ghost var v1 := Vol();
      own := PatchHole(v, v1, b, files, own, ino, cur, piece);
      ptrs', ok := SetBlockNum(ptrs, Blk(n, cur), b);
      WriteBlock(b, Overlay(Zeros(4 * n), Pos(n, cur), piece));
      assert (Vol(), ptrs') == FillHole(v1, ptrs, b, cur, piece);
      assert FilesNow()[ino := ptrs'] == files[ino := ptrs'];
      ok := true;
    }

    /** The next chunk of a write that has come as far as `written`. */
    method WriteNext(ino: int, off: int, buf: seq<int>, ptrs: seq<int>, written: int, ghost v: Volume, ghost files: Files)
      returns (ptrs': seq<int>, written': int)
      requires n >= 1 && WORD % (4 * n) == 0 && 0 <= off < WORD && 0 <= written < |buf| < WORD && files == FilesNow()
      requires FilesOk(Vol(), files[ino := ptrs], own) && CountsOk()
      requires Wrote(v, files, Vol(), files[ino := ptrs], ino, off, buf, written)
      modifies `bits, `groupFree, `freeBlocks, `disk, `own
      ensures FilesOk(Vol(), files[ino := ptrs'], own) && CountsOk()
      ensures Wrote(v, files, Vol(), files[ino := ptrs'], ino, off, buf, written')
      ensures written < written' <= |buf| || (written' == written && Full(Vol()))
    {
      hide Get, Read, Blk, Pos, FilesOk, CountsOk, ChunkWritten, Full, Wrote;
      var cur := At(off, written);
      var len := if 4 * n - Pos(n, cur) > |buf| - written then |buf| - written else 4 * n - Pos(n, cur);
      ChunkNoWrap(n, cur, len);
      var ok;
      ptrs', ok := WriteChunk(ino, ptrs, cur, buf[written..written + len]);
      if ok {
        WroteShape(v, files, old(Vol()), files[ino := ptrs], ino, off, buf, written);
        WroteMore(v, files, old(Vol()), files[ino := ptrs], Vol(), files[ino := ptrs'], ino, off, buf, written, len);
        written' := written + len;
      } else {
        ChunkFailed(old(Vol()), files[ino := ptrs], Vol(), files[ino := ptrs'], ino, cur, buf[written..written + len]);
        written' := written;
      }
    }

    /** The loop of a write over the inode's pointers, which are stored only afterwards. */
    method WriteAll(ino: int, off: int, buf: seq<int>) returns (ptrs: seq<int>, written: int)
      requires n >= 1 && WORD % (4 * n) == 0 && 0 <= off < WORD && |buf| < WORD && ino in inodes
      requires FilesOk(Vol(), FilesNow(), own) && CountsOk()
      modifies `bits, `groupFree, `freeBlocks, `disk, `own
      ensures FilesOk(Vol(), FilesNow()[ino := ptrs], own) && CountsOk()
      ensures Wrote(old(Vol()), FilesNow(), Vol(), FilesNow()[ino := ptrs], ino, off, buf, written)
      ensures written == |buf| || (0 <= written < |buf| && Full(Vol()))
    {
      hide Get, Read, Blk, Pos, ChildOk, CountsOk, Full, Wrote;
      ghost var v, files := Vol(), FilesNow();
      ptrs, written := inodes[ino].ptrs, 0;
      assert files[ino := ptrs] == files;
      WroteNothing(v, files, ino, off, buf);
      while written < |buf|
        invariant 0 <= written <= |buf|
        invariant FilesOk(Vol(), files[ino := ptrs], own) && CountsOk()
        invariant Wrote(v, files, Vol(), files[ino := ptrs], ino, off, buf, written)
      {
        var before := written;
        ptrs, written := WriteNext(ino, off, buf, ptrs, written, v, files);
        if written == before { break; }
      }
    }

    /**
     Writes to a file. Inside the written range the file then shows the bytes written, in every other
     place of every file what it showed before; only a full volume or the addressing limit can lose bytes.
     */
    method WriteFile(ino: int, off: int, buf: seq<int>) returns (written: int)
      requires Valid() && 0 <= off < WORD && |buf| < WORD
      modifies `bits, `groupFree, `freeBlocks, `disk, `own, `inodes
      ensures Valid() && inodes.Keys == old(inodes).Keys
      ensures ino !in inodes ==> written == 0 && Vol() == old(Vol()) && inodes == old(inodes)
      ensures ino in inodes ==> Wrote(old(Vol()), old(FilesNow()), Vol(), FilesNow(), ino, off, buf, written)
      ensures ino in inodes && written < |buf| ==> Full(Vol())
      ensures ino in inodes ==> inodes[ino].size == Max(old(inodes)[ino].size, At(off, written))
      ensures forall i :: i in inodes && i != ino ==> inodes[i] == old(inodes)[i]
    {
      hide Get, Read, Blk, Pos, ChildOk, CountsOk, Full, Wrote;
      if ino !in inodes { return 0; }
      var size := inodes[ino].size;
      var ptrs;
      ptrs, written := WriteAll(ino, off, buf);
      if At(off, written) > size { size := At(off, written); }
      ghost var files := FilesNow();
      inodes := inodes[ino := Inode(ptrs, size)];
      assert FilesNow() == files[ino := ptrs];
    }
  }

  lemma SameBits(v: Volume, w: Volume)
    requires v.bits == w.bits
    ensures Full(v) <==> Full(w)
  {
  }

  lemma ChunkFailed(u: Volume, files: Files, w: Volume, files': Files, ino: int, cur: int, piece: seq<int>)
    requires u.n >= 1 && cur >= 0 && ChunkWritten(u, files, w, files', ino, cur, piece, false)
    ensures w == u && files' == files && Full(u)
  {
  }

  lemma WroteShape(v: Volume, files: Files, w: Volume, files': Files, ino: int, off: int, buf: seq<int>, k: int)
    requires Wrote(v, files, w, files', ino, off, buf, k)
    ensures w.n == v.n
  {
  }

  lemma WroteNothing(v: Volume, files: Files, ino: int, off: int, buf: seq<int>)
    requires v.n >= 1 && ino in files && (forall i :: i in files ==> |files[i]| == SLOTS) && 0 <= off < WORD
    ensures Wrote(v, files, v, files, ino, off, buf, 0)
  {
    hide Get, Read, Blk, Pos;
  }

  /** What one chunk does: its bytes, the mappings, and when it fails. */
  ghost predicate ChunkWritten(v: Volume, files: Files, w: Volume, files': Files, ino: int, cur: int, piece: seq<int>, ok: bool)
    requires v.n >= 1 && cur >= 0
  {
    && w.n == v.n && files'.Keys == files.Keys && ino in files
    && (forall i :: i in files ==> |files[i]| == SLOTS)
    && (forall i :: i in files' ==> |files'[i]| == SLOTS)
    && (Full(v) ==> Full(w))
    && (forall i, l :: i in files && l >= 0 && (i != ino || l != Blk(v.n, cur)) ==> Get(w, files'[i], l) == Get(v, files[i], l))
    && (if ok then
          && Patched(v, files, w, files', ino, cur, piece)
          && (Get(w, files'[ino], Blk(v.n, cur)) != 0 || SlotOf(v.n, Blk(v.n, cur)).None? || Full(w))
          && (if Get(v, files[ino], Blk(v.n, cur)) == 0 then !Full(v) else Get(w, files'[ino], Blk(v.n, cur)) == Get(v, files[ino], Blk(v.n, cur)))
        else Full(v) && w == v && files' == files)
  }

  /** The byte at offset o of file i once the first k bytes of buf went to file ino from offset off on. */
  ghost predicate WroteAt(v: Volume, files: Files, w: Volume, files': Files, ino: int, off: int, buf: seq<int>, k: int, i: int, o: int)
    requires v.n >= 1 && w.n >= 1 && k <= |buf| && o >= 0 && i in files && i in files' && |files[i]| == |files'[i]| == SLOTS
  {
    FileByte(w, files'[i], o) ==
      if i == ino && 0 <= Rel(off, o) < k && Get(w, files'[i], Blk(w.n, o)) != 0 then buf[Rel(off, o)] else FileByte(v, files[i], o)
  }

  /** The block of a written offset is mapped unless it is not addressable or the volume is full. */
  ghost predicate MappedAt(w: Volume, ptrs: seq<int>, o: int)
    requires w.n >= 1 && |ptrs| == SLOTS && o >= 0
  {
    Get(w, ptrs, Blk(w.n, o)) != 0 || SlotOf(w.n, Blk(w.n, o)).None? || Full(w)
  }

  ghost predicate Wrote(v: Volume, files: Files, w: Volume, files': Files, ino: int, off: int, buf: seq<int>, k: int) {
    && v.n >= 1 && w.n == v.n && 0 <= k <= |buf| && files'.Keys == files.Keys && ino in files
    && (forall i :: i in files ==> |files[i]| == SLOTS)
    && (forall i :: i in files' ==> |files'[i]| == SLOTS)
    && (forall i, o :: i in files && 0 <= o < WORD ==> WroteAt(v, files, w, files', ino, off, buf, k, i, o))
    && (forall o :: 0 <= o < WORD && Rel(off, o) < k ==> MappedAt(w, files'[ino], o))
    && Grows(v, files, w, files')
  }

  /** What a read of a written offset yields: the byte written, unless its block could not be mapped; then zero. */
  lemma ReadBack(v: Volume, files: Files, w: Volume, files': Files, ino: int, off: int, buf: seq<int>, written: int, k: int)
    requires Wrote(v, files, w, files', ino, off, buf, written) && 0 <= off < WORD && 0 <= k < written < WORD
    ensures var b := Get(w, files'[ino], Blk(w.n, At(off, k)));
      && FileByte(w, files'[ino], At(off, k)) == (if b != 0 then buf[k] else 0)
      && (b == 0 ==> SlotOf(w.n, Blk(w.n, At(off, k))).None? || Full(w))
  {
    hide Get, Read, Blk, Pos;
    var o := At(off, k);
    assert WroteAt(v, files, w, files', ino, off, buf, written, ino, o);
    assert MappedAt(w, files'[ino], o);
  }

  /** A chunk extends what has been written. */
  lemma WroteMore(v: Volume, files: Files, u: Volume, files1: Files, w: Volume, files2: Files, ino: int, off: int, buf: seq<int>, k: int, len: int)
    requires 0 <= off < WORD && |buf| < WORD && 0 <= k && 0 < len && k + len <= |buf|
    requires Wrote(v, files, u, files1, ino, off, buf, k)
    requires Pos(v.n, At(off, k)) + len <= 4 * v.n && At(off, k) + len <= WORD
    requires ChunkWritten(u, files1, w, files2, ino, At(off, k), buf[k..k + len], true)
    ensures Wrote(v, files, w, files2, ino, off, buf, k + len)
  {
    hide Get, Blk, Pos, FileByte, WroteAt, Patched, MappedAt, SlotOf, Full;
    var m := k + len;
    forall i, o | i in files && 0 <= o < WORD ensures WroteAt(v, files, w, files2, ino, off, buf, m, i, o) {
      WroteMoreAt(v, files, u, files1, w, files2, ino, off, buf, k, len, i, o);
    }
    forall i, l | i in files && l >= 0 && Get(v, files[i], l) != 0 ensures Get(w, files2[i], l) == Get(v, files[i], l) {
      assert i in files1;
    }
    forall o | 0 <= o < WORD && Rel(off, o) < k + len ensures MappedAt(w, files2[ino], o) {
      MappedMoreAt(v, files, u, files1, w, files2, ino, off, buf, k, len, o);
    }
  }

  lemma MappedMoreAt(v: Volume, files: Files, u: Volume, files1: Files, w: Volume, files2: Files, ino: int, off: int, buf: seq<int>, k: int, len: int, o: int)
    requires 0 <= off < WORD && |buf| < WORD && 0 <= k && 0 < len && k + len <= |buf|
    requires Wrote(v, files, u, files1, ino, off, buf, k)
    requires Pos(v.n, At(off, k)) + len <= 4 * v.n && At(off, k) + len <= WORD
    requires ChunkWritten(u, files1, w, files2, ino, At(off, k), buf[k..k + len], true)
    requires 0 <= o < WORD && Rel(off, o) < k + len
    ensures MappedAt(w, files2[ino], o)
  {
    hide Get, Blk, Pos, FileByte, WroteAt, Patched, SlotOf, Full;
    var cur := At(off, k);
    ChunkBlock(v.n, cur, o, len);
    if Rel(off, o) < k {
      assert MappedAt(u, files1[ino], o);
    }
  }

  lemma WroteMoreAt(v: Volume, files: Files, u: Volume, files1: Files, w: Volume, files2: Files, ino: int, off: int, buf: seq<int>, k: int, len: int, i: int, o: int)
    requires 0 <= off < WORD && |buf| < WORD && 0 <= k && 0 < len && k + len <= |buf|
    requires Wrote(v, files, u, files1, ino, off, buf, k)
    requires Pos(v.n, At(off, k)) + len <= 4 * v.n && At(off, k) + len <= WORD
    requires ChunkWritten(u, files1, w, files2, ino, At(off, k), buf[k..k + len], true)
    requires i in files && 0 <= o < WORD
    ensures WroteAt(v, files, w, files2, ino, off, buf, k + len, i, o)
  {
    hide Get, Blk, Pos, FileByte, SlotOf, Full;
    var cur := At(off, k);
    ChunkBlock(v.n, cur, o, len);
    assert WroteAt(v, files, u, files1, ino, off, buf, k, i, o);
    assert PatchedAt(u, files1, w, files2, ino, cur, buf[k..k + len], i, o);
    assert cur <= o < cur + len <==> k <= Rel(off, o) < k + len;
    if i == ino && Rel(off, o) < k {
      assert MappedAt(u, files1[ino], o);
      StaysMapped(u, files1, w, files2, ino, cur, buf[k..k + len], o);
    }
  }

  /** A block that an earlier chunk could not map is not mapped by a later one either. */
  lemma StaysMapped(u: Volume, files1: Files, w: Volume, files2: Files, ino: int, cur: int, piece: seq<int>, o: int)
    requires u.n >= 1 && cur >= 0 && o >= 0 && ChunkWritten(u, files1, w, files2, ino, cur, piece, true)
    requires MappedAt(u, files1[ino], o)
    ensures Get(w, files2[ino], Blk(w.n, o)) == 0 <==> Get(u, files1[ino], Blk(u.n, o)) == 0
  {
    hide Blk, Patched, Full;
    if SlotOf(u.n, Blk(u.n, o)).None? { assert Get(w, files2[ino], Blk(u.n, o)) == 0; }
  }

  lemma NoneIffFull(v: Volume)
    ensures Alloc(v).None? <==> Full(v)
  {
  }

  /** 32-bit addition of two offsets. */
  function At(off: int, k: int): int { if off + k < WORD then off + k else off + k - WORD }

  /** How many bytes a read yields: clamped at the end of file by a comparison in 32 bits. */
  function ReadLength(isize: int, off: int, size: int): int {
    if off >= isize then 0 else if At(off, size) > isize then isize - off else size
  }

  /** The clamp is right exactly when the sum of offset and size does not wrap around to inside the file. */
  lemma ReadLengthIff(isize: int, off: int, size: int)
    requires 0 <= isize < WORD && 0 <= off < WORD && 0 <= size < WORD
    ensures ReadLength(isize, off, size) == (if off >= isize then 0 else if off + size > isize then isize - off else size)
      <==> off >= isize || off + size < WORD || off + size - WORD > isize
  {
  }

  /** Fifty bytes before the end of file, a request whose end wraps to inside the file is not clamped. */
  lemma ReadWraps()
    ensures ReadLength(100, 50, WORD - 40) == WORD - 40
  {
  }

  /** With a block size that divides 2^32 no chunk crosses the end of the 32-bit offsets. */
  lemma ChunkNoWrap(n: int, cur: int, len: int)
    requires n >= 1 && WORD % (4 * n) == 0 && 0 <= cur < WORD && Pos(n, cur) + len <= 4 * n
    ensures cur + len <= WORD
  {
    var bs := 4 * n;
    Euclid(cur, bs);
    Euclid(WORD, bs);
    if cur / bs >= WORD / bs { Scale(WORD / bs, cur / bs, bs); } else { Scale(cur / bs + 1, WORD / bs, bs); }
  }

  lemma ChunkByte(v: Volume, ptrs: seq<int>, cur: int, len: int, j: int)
    requires v.n >= 1 && |ptrs| == SLOTS && 0 <= cur && Pos(v.n, cur) + len <= 4 * v.n && 0 <= j < len
    ensures var b := Get(v, ptrs, Blk(v.n, cur));
      FileByte(v, ptrs, cur + j) == if b == 0 then 0 else Read(v, b)[Pos(v.n, cur) + j]
  {
    hide Get, Read, Blk, Pos;
    ChunkBlock(v.n, cur, cur + j, len);
  }

  lemma SameRead(v: Volume, w: Volume, b: int)
    requires v.n >= 1 && w.n == v.n && w.disk == v.disk
    ensures Read(w, b) == Read(v, b)
  {
  }
}
