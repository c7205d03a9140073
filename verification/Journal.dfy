/**
 The ext3 redo journal: one transaction's block writes, the recovery scan at mount time,
 and what a crash between any two block writes leaves behind.

 Blocks are sequences of the 32-bit words found on disk; journal fields are stored
 byte-swapped, as the code stores them.
 */
module Journal {

  /** A 32-bit word, least significant byte first. */
  datatype Word = Word(b0: bv8, b1: bv8, b2: bv8, b3: bv8)

  type Block = seq<Word>
  type Disk = map<Word, Block>

  const NIL: Word := Word(0, 0, 0, 0)
  const ONE: Word := Word(1, 0, 0, 0)
  const MAGIC: Word := Word(0x98, 0x39, 0x3b, 0xc0)
  const DESCRIPTOR: Word := Word(1, 0, 0, 0)
  const COMMIT: Word := Word(2, 0, 0, 0)
  const FLAG_ESCAPE: Word := Word(1, 0, 0, 0)
  const FLAG_LAST_TAG: Word := Word(8, 0, 0, 0)

  // Word positions inside the journal superblock.
  const S_SEQUENCE: int := 6
  const S_START: int := 7

  /** Byte order reversal. */
  function Bswap(x: Word): Word { Word(x.b3, x.b2, x.b1, x.b0) }

  function Or(x: Word, y: Word): Word { Word(x.b0 | y.b0, x.b1 | y.b1, x.b2 | y.b2, x.b3 | y.b3) }

  /** `x & m != 0` */
  predicate HasBits(x: Word, m: Word) {
    x.b0 & m.b0 != 0 || x.b1 & m.b1 != 0 || x.b2 & m.b2 != 0 || x.b3 & m.b3 != 0
  }

  /** x + 1, wrapping at 2^32. */
  function Succ(x: Word): Word {
    if x.b0 != 255 then x.(b0 := x.b0 + 1)
    else if x.b1 != 255 then x.(b0 := 0, b1 := x.b1 + 1)
    else if x.b2 != 255 then x.(b0 := 0, b1 := 0, b2 := x.b2 + 1)
    else Word(0, 0, 0, x.b3 + 1)
  }

  function Byte(b: bv8): int { b as int }

  function Value(x: Word): int { Byte(x.b0) + 0x100 * Byte(x.b1) + 0x10000 * Byte(x.b2) + 0x1000000 * Byte(x.b3) }

  /** One more, in one byte. */
  lemma ByteSucc(b: bv8)
    ensures b != 255 ==> Byte(b + 1) == Byte(b) + 1 && 0 <= Byte(b) < 255
    ensures b == 255 ==> b + 1 == 0
    ensures Byte(0) == 0 && Byte(255) == 255
  {
  }

  /** The next sequence number is one higher, modulo 2^32. */
  lemma SuccValue(x: Word)
    ensures Value(Succ(x)) == (Value(x) + 1) % 0x1_0000_0000
  {
    ByteSucc(x.b0);
    ByteSucc(x.b1);
    ByteSucc(x.b2);
    ByteSucc(x.b3);
    hide Byte;
    var y := Succ(x);
    assert Value(y) == if x.b0 == 255 && x.b1 == 255 && x.b2 == 255 && x.b3 == 255 then 0 else Value(x) + 1;
  }

  /** Tag flags are stored swapped, so recovery, which swaps twice, sees neither flag. */
  lemma StoredFlagsUnseen(escaped: bool, last: bool)
    ensures var e := if escaped then Bswap(FLAG_ESCAPE) else NIL;
      var x := if last then Or(e, Bswap(FLAG_LAST_TAG)) else e;
      !HasBits(Bswap(Bswap(x)), FLAG_ESCAPE) && !HasBits(Bswap(Bswap(x)), FLAG_LAST_TAG)
  {
  }

  // ---------------------------------------------------------------- disk

  /**
   The journal's geometry: words per block, the disk block behind each journal position, and
   the word that a read just past the descriptor buffer happens to return.
   */
  datatype Layout = Layout(words: int, blocks: seq<Word>, stray: Word)

  /** Block size a multiple of 1024 bytes; the journal file has no holes and no repeated blocks. */
  ghost predicate LayoutOk(c: Layout) {
    && c.words >= 256 && c.words % 2 == 0
    && c.words / 2 + 2 <= |c.blocks|
    && (forall i :: 0 <= i < |c.blocks| ==> c.blocks[i] != NIL)
    && (forall i, j :: 0 <= i < j < |c.blocks| ==> c.blocks[i] != c.blocks[j])
  }

  function Zero(c: Layout): Block
    requires c.words >= 0
  {
    seq(c.words, _ => NIL)
  }

  function Read(c: Layout, d: Disk, b: Word): (r: Block)
    requires c.words >= 0
    ensures |r| == c.words
  {
    if b != NIL && b in d && |d[b]| == c.words then d[b] else Zero(c)
  }

  /** Block 0 is never written. */
  function Write(d: Disk, b: Word, x: Block): Disk {
    if b == NIL then d else d[b := x]
  }

  /** The disk block of a journal position, block 0 beyond the journal's end. */
  function Phys(c: Layout, pos: int): Word {
    if 0 <= pos < |c.blocks| then c.blocks[pos] else NIL
  }

  datatype DiskWrite = DiskWrite(block: Word, data: Block)

  function Apply(d: Disk, ws: seq<DiskWrite>): Disk
    decreases |ws|
  {
    if ws == [] then d else Apply(Write(d, ws[0].block, ws[0].data), ws[1..])
  }

  // ---------------------------------------------------------------- one transaction

  /** The descriptor block after journalling `txn`, before the last tag is marked. */
  function Descriptor(c: Layout, sequence: Word, txn: seq<DiskWrite>): (r: Block)
    requires c.words >= 3
    ensures |r| == c.words
  {
    if txn == [] then Zero(c)[0 := Bswap(MAGIC)][1 := Bswap(DESCRIPTOR)][2 := Bswap(sequence)]
    else
      var n := |txn| - 1;
      var r := Descriptor(c, sequence, txn[..n]);
      if 4 + 2 * n >= c.words then r
      else r[3 + 2 * n := Bswap(txn[n].block)][4 + 2 * n := TagFlags(txn[n].data)]
  }

  /** A block that begins with the journal magic is tagged as escaped (its data is left alone). */
  function TagFlags(data: Block): Word {
    if |data| > 0 && data[0] == Bswap(MAGIC) then Bswap(FLAG_ESCAPE) else NIL
  }

  function MarkLast(r: Block, n: int): (r': Block)
    ensures |r'| == |r|
  {
    if n > 0 && 2 + 2 * n < |r| then r[2 + 2 * n := Or(r[2 + 2 * n], Bswap(FLAG_LAST_TAG))] else r
  }

  function CommitBlock(c: Layout, sequence: Word): Block
    requires c.words >= 3
  {
    Zero(c)[0 := Bswap(MAGIC)][1 := Bswap(COMMIT)][2 := Bswap(sequence)]
  }

  function DataWrites(c: Layout, txn: seq<DiskWrite>): (ws: seq<DiskWrite>)
    ensures |ws| == |txn|
  {
    seq(|txn|, i requires 0 <= i < |txn| => DiskWrite(Phys(c, 2 + i), txn[i].data))
  }

  /** The writes up to and including the superblock update that commits the transaction. */
  function CommitWrites(c: Layout, sb: Block, sequence: Word, txn: seq<DiskWrite>): (ws: seq<DiskWrite>)
    requires c.words >= 8 && |sb| == c.words
    ensures |ws| == |txn| + 3
  {
    DataWrites(c, txn)
      + [DiskWrite(Phys(c, 1), MarkLast(Descriptor(c, sequence, txn), |txn|))]
      + [DiskWrite(Phys(c, 2 + |txn|), CommitBlock(c, sequence))]
      + [DiskWrite(Phys(c, 0), sb[S_START := Bswap(ONE)])]
  }

  /** Every block write of one transaction, in order. */
  function TxnWrites(c: Layout, sb: Block, sequence: Word, txn: seq<DiskWrite>): (ws: seq<DiskWrite>)
    requires c.words >= 8 && |sb| == c.words
    ensures |ws| == 2 * |txn| + 4
  {
    CommitWrites(c, sb, sequence, txn)
      + txn
      + [DiskWrite(Phys(c, 0), sb[S_SEQUENCE := Bswap(Succ(sequence))][S_START := NIL])]
  }

  // ---------------------------------------------------------------- recovery

  /** Recovery in progress: the disk, the writes it has issued, and the scan position. */
  datatype Scan = Scan(disk: Disk, writes: seq<DiskWrite>, pos: int)

  function Next(c: Layout, pos: int): int
    requires |c.blocks| >= 2
  {
    pos % (|c.blocks| - 1) + 1
  }

  /** Replays the tags of one descriptor block from tag j onwards. */
  function ReplayTags(c: Layout, s: Scan, desc: Block, j: int): Scan
    requires c.words >= 3 && |desc| == c.words && |c.blocks| >= 2 && j >= 0
    decreases c.words - 2 * j
  {
    if 3 + 2 * j >= c.words then s
    else
      var flags := if 4 + 2 * j < c.words then desc[4 + 2 * j] else c.stray;
      var pos := Next(c, s.pos);
      var raw := Read(c, s.disk, Phys(c, pos));
      var data := if HasBits(Bswap(Bswap(flags)), FLAG_ESCAPE) then raw[0 := Bswap(MAGIC)] else raw;
      var w := DiskWrite(Bswap(desc[3 + 2 * j]), data);
      var s' := Scan(Write(s.disk, w.block, w.data), s.writes + [w], pos);
      if HasBits(Bswap(Bswap(flags)), FLAG_LAST_TAG) then s' else ReplayTags(c, s', desc, j + 1)
  }

  /** The outer scan, at most `rounds` blocks; the flag tells whether it stopped by itself. */
  function ReplayFrom(c: Layout, s: Scan, sequence: Word, start: int, rounds: nat): (Scan, bool)
    requires c.words >= 3 && |c.blocks| >= 2
    decreases rounds
  {
    if rounds == 0 then (s, false)
    else
      var desc := Read(c, s.disk, Phys(c, s.pos));
      if Bswap(desc[0]) != MAGIC || Bswap(desc[2]) != sequence then (s, true)
      else if Bswap(desc[1]) != DESCRIPTOR && Bswap(desc[1]) != COMMIT then (s, true)
      else
        var s' := if Bswap(desc[1]) == DESCRIPTOR then ReplayTags(c, s, desc, 0) else s;
        var sequence' := if Bswap(desc[1]) == DESCRIPTOR then sequence else Succ(sequence);
        var pos := Next(c, s'.pos);
        if pos == start then (s'.(pos := pos), true)
        else ReplayFrom(c, s'.(pos := pos), sequence', start, rounds - 1)
  }

  /** What mounting does: nothing when the journal is clean, otherwise the recovery scan. */
  function Recover(c: Layout, d: Disk, rounds: nat): (Scan, bool)
    requires c.words >= 8 && |c.blocks| >= 2
  {
    var sb := Read(c, d, Phys(c, 0));
    if Bswap(sb[0]) != MAGIC || Bswap(sb[S_START]) == NIL then (Scan(d, [], 0), true)
    else
      var start := Value(Bswap(sb[S_START]));
      ReplayFrom(c, Scan(d, [], start), Bswap(sb[S_SEQUENCE]), start, rounds)
  }

  // ---------------------------------------------------------------- what a list of writes leaves behind

  ghost predicate Writes(ws: seq<DiskWrite>, b: Word) {
    exists i :: 0 <= i < |ws| && ws[i].block == b
  }

  /** The data of the last write to b. */
  function LastData(ws: seq<DiskWrite>, b: Word): Block
    decreases |ws|
  {
    if ws == [] then []
    else if ws[|ws| - 1].block == b then ws[|ws| - 1].data
    else LastData(ws[..|ws| - 1], b)
  }

  ghost predicate DataOk(c: Layout, ws: seq<DiskWrite>) {
    forall i :: 0 <= i < |ws| ==> |ws[i].data| == c.words
  }

  lemma {:induction false} ApplyAppend(d: Disk, a: seq<DiskWrite>, b: seq<DiskWrite>)
    ensures Apply(d, a + b) == Apply(Apply(d, a), b)
    decreases |a|
  {
    if a == [] {
      assert a + b == b;
    } else {
      assert (a + b)[1..] == a[1..] + b;
      ApplyAppend(Write(d, a[0].block, a[0].data), a[1..], b);
    }
  }

  lemma ApplySnoc(d: Disk, ws: seq<DiskWrite>, w: DiskWrite)
    ensures Apply(d, ws + [w]) == Write(Apply(d, ws), w.block, w.data)
  {
    hide Write;
    ApplyAppend(d, ws, [w]);
    assert [w][1..] == [];
  }

  lemma WritesSnoc(ws: seq<DiskWrite>, w: DiskWrite, b: Word)
    ensures Writes(ws + [w], b) <==> Writes(ws, b) || w.block == b
    ensures LastData(ws + [w], b) == if w.block == b then w.data else LastData(ws, b)
  {
    var all := ws + [w];
    assert all[..|all| - 1] == ws && all[|ws|] == w;
    if Writes(ws, b) {
      var i :| 0 <= i < |ws| && ws[i].block == b;
      assert all[i].block == b;
    }
  }

  lemma ReadWrite(c: Layout, d: Disk, w: DiskWrite, b: Word)
    requires c.words >= 0 && |w.data| == c.words
    ensures Read(c, Write(d, w.block, w.data), b) == if b != NIL && w.block == b then w.data else Read(c, d, b)
  {
  }

  /** After a list of writes a block holds what was last written to it. */
  lemma {:induction false} ReadApply(c: Layout, d: Disk, ws: seq<DiskWrite>, b: Word)
    requires c.words >= 0 && DataOk(c, ws)
    ensures Read(c, Apply(d, ws), b) == if b != NIL && Writes(ws, b) then LastData(ws, b) else Read(c, d, b)
    decreases |ws|
  {
    if ws != [] {
      hide Apply, Read, Write, Writes, LastData;
      var n := |ws| - 1;
      assert ws == ws[..n] + [ws[n]];
      ApplySnoc(d, ws[..n], ws[n]);
      WritesSnoc(ws[..n], ws[n], b);
      ReadApply(c, d, ws[..n], b);
      ReadWrite(c, Apply(d, ws[..n]), ws[n], b);
    }
  }

  /** Two disks that agree on every block outside the journal. */
  ghost predicate SameHome(c: Layout, d: Disk, e: Disk)
    requires c.words >= 0
  {
    forall b :: b !in c.blocks ==> Read(c, d, b) == Read(c, e, b)
  }

  lemma SameHomeSelf(c: Layout, d: Disk)
    requires c.words >= 0
    ensures SameHome(c, d, d)
  {
  }

  lemma SameHomeTrans(c: Layout, d: Disk, e: Disk, f: Disk)
    requires c.words >= 0 && (SameHome(c, d, e) || SameHome(c, e, d)) && SameHome(c, e, f)
    ensures SameHome(c, d, f)
  {
    hide Read;
    forall b | b !in c.blocks ensures Read(c, d, b) == Read(c, f, b) { assert Read(c, d, b) == Read(c, e, b); }
  }

  /** Replaying a prefix first makes no difference. */
  lemma ReplayPrefix(c: Layout, d: Disk, e: Disk, ws: seq<DiskWrite>, j: int)
    requires c.words >= 0 && DataOk(c, ws) && 0 <= j <= |ws| && SameHome(c, d, e)
    ensures SameHome(c, Apply(Apply(e, ws[..j]), ws), Apply(d, ws))
    ensures SameHome(c, Apply(e, ws), Apply(d, ws))
  {
    forall b | b !in c.blocks
      ensures Read(c, Apply(Apply(e, ws[..j]), ws), b) == Read(c, Apply(d, ws), b)
      ensures Read(c, Apply(e, ws), b) == Read(c, Apply(d, ws), b)
    {
      ReadApply(c, d, ws, b);
      ReadApply(c, e, ws, b);
      ReadApply(c, Apply(e, ws[..j]), ws, b);
      ReadApply(c, e, ws[..j], b);
      if Writes(ws[..j], b) {
        var i :| 0 <= i < j && ws[..j][i].block == b;
        assert ws[i].block == b;
      }
    }
  }

  /** Writes to journal blocks leave the file system alone, and the other way round. */
  lemma JournalOnly(c: Layout, d: Disk, ws: seq<DiskWrite>)
    requires c.words >= 0 && DataOk(c, ws)
    ensures (forall i :: 0 <= i < |ws| ==> ws[i].block in c.blocks) ==> SameHome(c, d, Apply(d, ws))
  {
    if forall i :: 0 <= i < |ws| ==> ws[i].block in c.blocks {
      forall b | b !in c.blocks ensures Read(c, d, b) == Read(c, Apply(d, ws), b) { ReadApply(c, d, ws, b); }
    }
  }

  // ---------------------------------------------------------------- the descriptor block

  /** What the words of a descriptor say, tag by tag; unused tags are zero. */
  ghost predicate Spells(c: Layout, r: Block, sequence: Word, txn: seq<DiskWrite>) {
    && |r| == c.words >= 256 && 4 + 2 * |txn| <= c.words
    && r[0] == Bswap(MAGIC) && r[1] == Bswap(DESCRIPTOR) && r[2] == Bswap(sequence)
    && (forall i :: 0 <= i < |txn| ==> r[3 + 2 * i] == Bswap(txn[i].block))
    && (forall i :: 0 <= i < |txn| ==> r[4 + 2 * i] == TagFlags(txn[i].data))
    && (forall w :: 3 + 2 * |txn| <= w < c.words ==> r[w] == NIL)
  }

  lemma SpellsStep(c: Layout, r: Block, sequence: Word, txn: seq<DiskWrite>, w: DiskWrite)
    requires Spells(c, r, sequence, txn) && 6 + 2 * |txn| <= c.words
    ensures var n := |txn|;
      Spells(c, r[3 + 2 * n := Bswap(w.block)][4 + 2 * n := TagFlags(w.data)], sequence, txn + [w])
  {
    hide Bswap, TagFlags;
  }

  lemma DescriptorStep(c: Layout, sequence: Word, txn: seq<DiskWrite>, w: DiskWrite)
    requires 6 + 2 * |txn| <= c.words
    ensures var n := |txn|;
      Descriptor(c, sequence, txn + [w])
      == Descriptor(c, sequence, txn)[3 + 2 * n := Bswap(w.block)][4 + 2 * n := TagFlags(w.data)]
  {
    hide Bswap, TagFlags;
    assert (txn + [w])[..|txn|] == txn;
  }

  lemma EmptyDescriptorSpells(c: Layout, sequence: Word)
    requires c.words >= 256
    ensures Spells(c, Descriptor(c, sequence, []), sequence, [])
  {
    hide Bswap, TagFlags;
  }

  lemma {:induction false} DescriptorSpells(c: Layout, sequence: Word, txn: seq<DiskWrite>)
    requires c.words >= 256 && 4 + 2 * |txn| <= c.words
    ensures Spells(c, Descriptor(c, sequence, txn), sequence, txn)
  {
    hide Bswap, TagFlags, Descriptor, Spells;
    if txn == [] {
      EmptyDescriptorSpells(c, sequence);
    } else {
      var n := |txn| - 1;
      var rest, w := txn[..n], txn[n];
      assert txn == rest + [w];
      DescriptorSpells(c, sequence, rest);
      SpellsStep(c, Descriptor(c, sequence, rest), sequence, rest, w);
      DescriptorStep(c, sequence, rest, w);
    }
  }

  /** The descriptor as written at commit: every flag it stores is invisible to recovery. */
  ghost predicate DescribesTxn(c: Layout, r: Block, sequence: Word, txn: seq<DiskWrite>) {
    && c.words >= 256 && |r| == c.words && 4 + 2 * |txn| <= c.words
    && Bswap(r[0]) == MAGIC && Bswap(r[1]) == DESCRIPTOR && Bswap(r[2]) == sequence
    && (forall i :: 0 <= i < |txn| ==> Bswap(r[3 + 2 * i]) == txn[i].block)
    && (forall i :: |txn| <= i && 3 + 2 * i < c.words ==> r[3 + 2 * i] == NIL)
    && (forall i :: 0 <= i && 4 + 2 * i < c.words ==>
         !HasBits(Bswap(Bswap(r[4 + 2 * i])), FLAG_ESCAPE) && !HasBits(Bswap(Bswap(r[4 + 2 * i])), FLAG_LAST_TAG))
  }

  lemma CommittedDescriptor(c: Layout, sequence: Word, txn: seq<DiskWrite>)
    requires c.words >= 256 && 4 + 2 * |txn| <= c.words
    ensures DescribesTxn(c, MarkLast(Descriptor(c, sequence, txn), |txn|), sequence, txn)
  {
    var n := |txn|;
    var d := Descriptor(c, sequence, txn);
    var r := MarkLast(d, n);
    DescriptorSpells(c, sequence, txn);
    forall i | 0 <= i < n ensures Bswap(r[3 + 2 * i]) == txn[i].block {
      assert r[3 + 2 * i] == d[3 + 2 * i];
    }
    forall i | 0 <= i && 4 + 2 * i < c.words
      ensures !HasBits(Bswap(Bswap(r[4 + 2 * i])), FLAG_ESCAPE) && !HasBits(Bswap(Bswap(r[4 + 2 * i])), FLAG_LAST_TAG)
    {
      assert d[4 + 2 * i] == if i < n then TagFlags(txn[i].data) else NIL;
      StoredFlagsUnseen(d[4 + 2 * i] != NIL, i == n - 1);
    }
  }

  /** The number in a word as the journal stores it, the high byte first. */
  function Stored(x: Word): int { 0x1000000 * Byte(x.b0) + 0x10000 * Byte(x.b1) + 0x100 * Byte(x.b2) + Byte(x.b3) }

  lemma StoredValue(x: Word)
    ensures Stored(Bswap(x)) == Value(x)
  {
    hide Byte;
  }

  /** A block that starts with the header of this type for transaction `sequence`. */
  ghost predicate Header(r: Block, kind: int, sequence: Word) {
    |r| >= 3 && Stored(r[0]) == 0xC03B_3998 && Stored(r[1]) == kind && Stored(r[2]) == Value(sequence)
  }

  /** Tag i of a descriptor: the block's number, and its flags 1 for data that begins with the magic number and 8 for the last tag. */
  ghost predicate TagIs(r: Block, i: int, n: int, w: DiskWrite)
    requires 0 <= i && 4 + 2 * i < |r|
  {
    && Stored(r[3 + 2 * i]) == Value(w.block)
    && Stored(r[4 + 2 * i]) == (if |w.data| > 0 && Stored(w.data[0]) == 0xC03B_3998 then 1 else 0) + if i == n - 1 then 8 else 0
  }

  /** The stored forms of the constants. */
  lemma StoredConstants()
    ensures Stored(Bswap(MAGIC)) == 0xC03B_3998 && Stored(Bswap(DESCRIPTOR)) == 1 && Stored(Bswap(COMMIT)) == 2 && Stored(Bswap(ONE)) == 1
    ensures Stored(NIL) == 0 && Stored(Bswap(FLAG_ESCAPE)) == 1 && Stored(Or(NIL, Bswap(FLAG_LAST_TAG))) == 8
    ensures Stored(Or(Bswap(FLAG_ESCAPE), Bswap(FLAG_LAST_TAG))) == 9
  {
  }

  lemma ByteInjective(a: bv8, b: bv8)
    ensures 0 <= Byte(a) < 256 && (Byte(a) == Byte(b) ==> a == b)
  {
  }

  /** Different words store different numbers. */
  lemma StoredInjective(x: Word, y: Word)
    requires Stored(x) == Stored(y)
    ensures x == y
  {
    ByteInjective(x.b0, y.b0);
    ByteInjective(x.b1, y.b1);
    ByteInjective(x.b2, y.b2);
    ByteInjective(x.b3, y.b3);
    ByteInjective(y.b0, x.b0);
    ByteInjective(y.b1, x.b1);
    ByteInjective(y.b2, x.b2);
    ByteInjective(y.b3, x.b3);
    hide Byte;
  }

  lemma TagFormat(r: Block, i: int, n: int, w: DiskWrite)
    requires 0 <= i < n && 4 + 2 * i < |r| && r[3 + 2 * i] == Bswap(w.block)
    requires r[4 + 2 * i] == if i == n - 1 then Or(TagFlags(w.data), Bswap(FLAG_LAST_TAG)) else TagFlags(w.data)
    ensures TagIs(r, i, n, w)
  {
    StoredConstants();
    StoredValue(w.block);
    hide Stored, Bswap, Or;
    if |w.data| > 0 && Stored(w.data[0]) == 0xC03B_3998 { StoredInjective(w.data[0], Bswap(MAGIC)); }
  }

  lemma DescriptorFormat(c: Layout, sequence: Word, txn: seq<DiskWrite>)
    requires c.words >= 256 && 4 + 2 * |txn| <= c.words
    ensures var r, n := MarkLast(Descriptor(c, sequence, txn), |txn|), |txn|;
      |r| == c.words && Header(r, 1, sequence) && forall i :: 0 <= i < n ==> TagIs(r, i, n, txn[i])
  {
    var n, d := |txn|, Descriptor(c, sequence, txn);
    var r := MarkLast(d, n);
    DescriptorSpells(c, sequence, txn);
    StoredConstants();
    StoredValue(sequence);
    hide Stored, Bswap, Or, Descriptor, TagFlags, TagIs, Value;
    assert r[0] == d[0] && r[1] == d[1] && r[2] == d[2];
    forall i | 0 <= i < n ensures TagIs(r, i, n, txn[i]) {
      assert r[3 + 2 * i] == d[3 + 2 * i];
      TagFormat(r, i, n, txn[i]);
    }
  }

  /** The journal on disk: descriptor with one tag per block, data blocks, commit block, in the format of JBD. */
  lemma CommitFormat(c: Layout, sb: Block, sequence: Word, txn: seq<DiskWrite>)
    requires c.words >= 256 && 4 + 2 * |txn| <= c.words && |sb| == c.words
    ensures var n, ws := |txn|, CommitWrites(c, sb, sequence, txn);
      && (forall i :: 0 <= i < n ==> ws[i] == DiskWrite(Phys(c, 2 + i), txn[i].data))
      && ws[n].block == Phys(c, 1) && Header(ws[n].data, 1, sequence) && |ws[n].data| == c.words
      && (forall i :: 0 <= i < n ==> TagIs(ws[n].data, i, n, txn[i]))
      && ws[n + 1].block == Phys(c, 2 + n) && Header(ws[n + 1].data, 2, sequence)
      && ws[n + 2].block == Phys(c, 0) && |ws[n + 2].data| == c.words && Stored(ws[n + 2].data[S_START]) == 1
  {
    CommitOrder(c, sb, sequence, txn);
    DescriptorFormat(c, sequence, txn);
    CommitHeader(c, sequence);
    StoredConstants();
    hide Stored, Bswap, Descriptor, TagIs, MarkLast, CommitWrites, CommitBlock, Header;
  }

  lemma CommitOrder(c: Layout, sb: Block, sequence: Word, txn: seq<DiskWrite>)
    requires c.words >= 256 && |sb| == c.words
    ensures var n, ws := |txn|, CommitWrites(c, sb, sequence, txn);
      && (forall i :: 0 <= i < n ==> ws[i] == DiskWrite(Phys(c, 2 + i), txn[i].data))
      && ws[n] == DiskWrite(Phys(c, 1), MarkLast(Descriptor(c, sequence, txn), n))
      && ws[n + 1] == DiskWrite(Phys(c, 2 + n), CommitBlock(c, sequence)) && ws[n + 2] == DiskWrite(Phys(c, 0), sb[S_START := Bswap(ONE)])
  {
    hide Descriptor, MarkLast, CommitBlock;
  }

  lemma CommitHeader(c: Layout, sequence: Word)
    requires c.words >= 256
    ensures Header(CommitBlock(c, sequence), 2, sequence)
  {
    StoredConstants();
    StoredValue(sequence);
    hide Stored, Bswap, Value;
  }

  // ---------------------------------------------------------------- scanning on

  /** The scan goes round the journal's blocks, leaving out the superblock. */
  lemma NextCycles(c: Layout, pos: int)
    requires |c.blocks| >= 2 && 1 <= pos < |c.blocks|
    ensures Next(c, pos) == if pos == |c.blocks| - 1 then 1 else pos + 1
  {
  }

  /** A commit block of the number looked for writes nothing: the scan goes on behind it with the number one higher. */
  lemma CommitAdvances(c: Layout, s: Scan, sequence: Word, start: int, rounds: nat) returns (next: Word)
    requires c.words >= 3 && 1 <= s.pos < |c.blocks| && rounds > 0 && Next(c, s.pos) != start
    requires Header(Read(c, s.disk, Phys(c, s.pos)), 2, sequence)
    ensures Value(next) == (Value(sequence) + 1) % 0x1_0000_0000
    ensures ReplayFrom(c, s, sequence, start, rounds)
      == ReplayFrom(c, s.(pos := if s.pos == |c.blocks| - 1 then 1 else s.pos + 1), next, start, rounds - 1)
  {
    var r := Read(c, s.disk, Phys(c, s.pos));
    next := Succ(sequence);
    SuccValue(sequence);
    NextCycles(c, s.pos);
    StoredConstants();
    StoredValue(sequence);
    hide Stored, Value, Succ;
    StoredInjective(r[0], Bswap(MAGIC));
    StoredInjective(r[1], Bswap(COMMIT));
    StoredInjective(r[2], Bswap(sequence));
  }

  // ---------------------------------------------------------------- replaying a committed transaction

  ghost predicate TxnOk(c: Layout, txn: seq<DiskWrite>) {
    && 4 + 2 * |txn| <= c.words
    && DataOk(c, txn)
    && (forall i :: 0 <= i < |txn| ==> txn[i].block !in c.blocks)
  }

  /** Block r is no header of transaction `sequence`. */
  predicate NotLive(r: Block, sequence: Word) {
    |r| >= 3 && (Bswap(r[0]) != MAGIC || Bswap(r[2]) != sequence)
  }

  /** The first position that recovery examines after a descriptor at position 1. */
  function Resume(c: Layout): int { c.words / 2 + 1 }

  /** The journal's copy of the transaction's block i. */
  function Copy(c: Layout, d: Disk, i: int): Block
    requires c.words >= 0
  {
    Read(c, d, Phys(c, 2 + i))
  }

  ghost predicate CopiesOk(c: Layout, d: Disk, txn: seq<DiskWrite>)
    requires c.words >= 0
  {
    forall i :: 0 <= i < |txn| ==> Copy(c, d, i) == txn[i].data
  }

  /** The transaction is on disk and marked for replay; its home blocks may hold anything. */
  ghost predicate Recorded(c: Layout, d: Disk, sequence: Word, txn: seq<DiskWrite>)
    requires c.words >= 8
  {
    var sb := Read(c, d, Phys(c, 0));
    && Bswap(sb[0]) == MAGIC && Bswap(sb[S_START]) == ONE && Bswap(sb[S_SEQUENCE]) == sequence
    && DescribesTxn(c, Read(c, d, Phys(c, 1)), sequence, txn)
    && CopiesOk(c, d, txn)
  }

  /** The transaction is on disk, and the scan will stop right after it. */
  ghost predicate Committed(c: Layout, d: Disk, sequence: Word, txn: seq<DiskWrite>)
    requires c.words >= 8
  {
    Recorded(c, d, sequence, txn) && NotLive(Read(c, d, Phys(c, Resume(c))), sequence)
  }

  /** The write that recovery derives from tag j. */
  function TagWrite(c: Layout, s: Scan, desc: Block, j: int): DiskWrite
    requires c.words >= 3 && |desc| == c.words && |c.blocks| >= 2 && j >= 0 && 3 + 2 * j < c.words
  {
    var flags := if 4 + 2 * j < c.words then desc[4 + 2 * j] else c.stray;
    var raw := Read(c, s.disk, Phys(c, Next(c, s.pos)));
    DiskWrite(Bswap(desc[3 + 2 * j]),
              if HasBits(Bswap(Bswap(flags)), FLAG_ESCAPE) then raw[0 := Bswap(MAGIC)] else raw)
  }

  function Issue(s: Scan, w: DiskWrite, pos: int): Scan {
    Scan(Write(s.disk, w.block, w.data), s.writes + [w], pos)
  }

  /** With no visible flags, replay goes on to the last tag slot of the block. */
  lemma ReplayStep(c: Layout, s: Scan, desc: Block, j: int, sequence: Word, txn: seq<DiskWrite>)
    requires LayoutOk(c) && DescribesTxn(c, desc, sequence, txn) && 0 <= j && 3 + 2 * j < c.words
    ensures ReplayTags(c, s, desc, j) == ReplayTags(c, Issue(s, TagWrite(c, s, desc, j), Next(c, s.pos)), desc, j + 1)
  {
    var s' := Issue(s, TagWrite(c, s, desc, j), Next(c, s.pos));
    if 4 + 2 * j >= c.words {
      assert ReplayTags(c, s', desc, j + 1) == s';
    }
  }

  /** Tag j of a committed transaction replays its block j; later tags replay nothing. */
  lemma TagWriteIs(c: Layout, s: Scan, desc: Block, j: int, sequence: Word, txn: seq<DiskWrite>)
    requires LayoutOk(c) && DescribesTxn(c, desc, sequence, txn) && 0 <= j && 3 + 2 * j < c.words
    requires s.pos == j + 1 && CopiesOk(c, s.disk, txn)
    ensures Next(c, s.pos) == j + 2
    ensures if j < |txn| then TagWrite(c, s, desc, j) == txn[j] else TagWrite(c, s, desc, j).block == NIL
  {
    NextPlain(c, j + 1);
    if j < |txn| {
      assert Copy(c, s.disk, j) == txn[j].data;
      assert 4 + 2 * j < c.words;
    }
  }

  lemma NextPlain(c: Layout, pos: int)
    requires |c.blocks| >= 2 && 0 <= pos < |c.blocks| - 1
    ensures Next(c, pos) == pos + 1
  {
  }

  /** Writes outside the journal do not touch it. */
  lemma JournalIntact(c: Layout, d: Disk, w: DiskWrite, pos: int)
    requires c.words >= 0 && w.block !in c.blocks
    ensures Read(c, Write(d, w.block, w.data), Phys(c, pos)) == Read(c, d, Phys(c, pos))
  {
    if 0 <= pos < |c.blocks| { assert c.blocks[pos] in c.blocks; }
  }

  lemma CopiesIntact(c: Layout, d: Disk, w: DiskWrite, txn: seq<DiskWrite>)
    requires c.words >= 0 && w.block !in c.blocks && CopiesOk(c, d, txn)
    ensures CopiesOk(c, Write(d, w.block, w.data), txn)
  {
    forall i | 0 <= i < |txn| ensures Copy(c, Write(d, w.block, w.data), i) == txn[i].data {
      JournalIntact(c, d, w, 2 + i);
      assert Copy(c, d, i) == txn[i].data;
    }
  }

  function From(txn: seq<DiskWrite>, j: int): seq<DiskWrite>
    requires j >= 0
  {
    if j < |txn| then txn[j..] else []
  }

  /** Replay copies each journalled block home, in order, and issues only refused writes after that. */
  lemma {:induction false} ReplayTagsCorrect(c: Layout, s: Scan, desc: Block, j: int, sequence: Word, txn: seq<DiskWrite>)
    requires LayoutOk(c) && TxnOk(c, txn) && DescribesTxn(c, desc, sequence, txn)
    requires 0 <= j && 2 * j + 2 <= c.words && s.pos == j + 1 && CopiesOk(c, s.disk, txn)
    ensures ReplayTags(c, s, desc, j).pos == c.words / 2
    ensures ReplayTags(c, s, desc, j).disk == Apply(s.disk, From(txn, j))
    decreases c.words - 2 * j
  {
    if 3 + 2 * j < c.words {
      var w := TagWrite(c, s, desc, j);
      ReplayStep(c, s, desc, j, sequence, txn);
      TagWriteIs(c, s, desc, j, sequence, txn);
      if j < |txn| {
        assert From(txn, j)[1..] == From(txn, j + 1);
        CopiesIntact(c, s.disk, w, txn);
      }
      ReplayTagsCorrect(c, Issue(s, w, j + 2), desc, j + 1, sequence, txn);
    }
  }

  /** The scan reads the descriptor, replays it and stops at the resume position. */
  lemma ReplayTwoRounds(c: Layout, s: Scan, r: Scan, sequence: Word, txn: seq<DiskWrite>, rounds: nat)
    requires LayoutOk(c) && s.pos == 1 && rounds >= 2
    requires DescribesTxn(c, Read(c, s.disk, Phys(c, 1)), sequence, txn)
    requires r == ReplayTags(c, s, Read(c, s.disk, Phys(c, 1)), 0) && r.pos == c.words / 2
    requires NotLive(Read(c, r.disk, Phys(c, Resume(c))), sequence)
    ensures ReplayFrom(c, s, sequence, 1, rounds) == (r.(pos := Resume(c)), true)
  {
    NextPlain(c, c.words / 2);
  }

  /** Mounting a committed journal finishes the transaction and stops by itself. */
  lemma RecoverCommitted(c: Layout, d: Disk, sequence: Word, txn: seq<DiskWrite>, rounds: nat)
    requires LayoutOk(c) && TxnOk(c, txn) && Committed(c, d, sequence, txn) && rounds >= 2
    ensures Recover(c, d, rounds).1
    ensures Recover(c, d, rounds).0.disk == Apply(d, txn)
  {
    hide ReplayTags, ReplayFrom, Apply, NotLive, CopiesOk, DescribesTxn;
    var s := Scan(d, [], 1);
    var r := ReplayTags(c, s, Read(c, d, Phys(c, 1)), 0);
    ReplayTagsCorrect(c, s, Read(c, d, Phys(c, 1)), 0, sequence, txn);
    assert From(txn, 0) == txn;
    HomeWritesKeepJournal(c, d, txn, Resume(c));
    ReplayTwoRounds(c, s, r, sequence, txn, rounds);
  }

  /** Home writes leave every journal block alone. */
  lemma {:induction false} HomeWritesKeepJournal(c: Layout, d: Disk, ws: seq<DiskWrite>, pos: int)
    requires c.words >= 0 && (forall i :: 0 <= i < |ws| ==> ws[i].block !in c.blocks)
    ensures Read(c, Apply(d, ws), Phys(c, pos)) == Read(c, d, Phys(c, pos))
    decreases |ws|
  {
    if ws != [] {
      JournalIntact(c, d, ws[0], pos);
      HomeWritesKeepJournal(c, Write(d, ws[0].block, ws[0].data), ws[1..], pos);
    }
  }

  // ---------------------------------------------------------------- crash points

  /** A mounted journal with nothing to replay, and no header of this transaction where the scan after it goes on. */
  ghost predicate Clean(c: Layout, d: Disk, sequence: Word)
    requires c.words >= 8
  {
    var sb := Read(c, d, Phys(c, 0));
    && Bswap(sb[0]) == MAGIC && sb[S_START] == NIL && Bswap(sb[S_SEQUENCE]) == sequence
    && NotLive(Read(c, d, Phys(c, Resume(c))), sequence)
  }

  lemma {:induction false} LastDataUnique(ws: seq<DiskWrite>, i: int)
    requires 0 <= i < |ws| && (forall j :: i < j < |ws| ==> ws[j].block != ws[i].block)
    ensures LastData(ws, ws[i].block) == ws[i].data
    decreases |ws|
  {
    if i < |ws| - 1 { LastDataUnique(ws[..|ws| - 1], i); }
  }

  /** Where the i-th commit write goes: the data blocks, then descriptor, commit block and superblock. */
  function CommitPos(n: int, i: int): int {
    if i < n then 2 + i else if i == n then 1 else if i == n + 1 then n + 2 else 0
  }

  lemma CommitWriteAt(c: Layout, sb: Block, sequence: Word, txn: seq<DiskWrite>, i: int)
    requires LayoutOk(c) && TxnOk(c, txn) && |sb| == c.words && 0 <= i < |txn| + 3
    ensures 0 <= CommitPos(|txn|, i) < Resume(c)
    ensures CommitWrites(c, sb, sequence, txn)[i].block == c.blocks[CommitPos(|txn|, i)]
    ensures |CommitWrites(c, sb, sequence, txn)[i].data| == c.words
  {
  }

  /** The commit writes all land in distinct journal blocks below the resume position. */
  lemma CommitWritesShape(c: Layout, sb: Block, sequence: Word, txn: seq<DiskWrite>)
    requires LayoutOk(c) && TxnOk(c, txn) && |sb| == c.words
    ensures var ws := CommitWrites(c, sb, sequence, txn);
      && DataOk(c, ws)
      && (forall i :: 0 <= i < |ws| ==> ws[i].block in c.blocks && ws[i].block != Phys(c, Resume(c)))
      && (forall i, j :: 0 <= i < j < |ws| ==> ws[i].block != ws[j].block)
  {
    var ws := CommitWrites(c, sb, sequence, txn);
    forall i | 0 <= i < |ws|
      ensures |ws[i].data| == c.words && ws[i].block in c.blocks && ws[i].block != Phys(c, Resume(c))
    {
      CommitWriteAt(c, sb, sequence, txn, i);
    }
    forall i, j | 0 <= i < j < |ws| ensures ws[i].block != ws[j].block {
      CommitWriteAt(c, sb, sequence, txn, i);
      CommitWriteAt(c, sb, sequence, txn, j);
    }
  }

  lemma ReadCommitWrite(c: Layout, d: Disk, sb: Block, sequence: Word, txn: seq<DiskWrite>, i: int)
    requires LayoutOk(c) && TxnOk(c, txn) && |sb| == c.words && 0 <= i < |txn| + 3
    ensures var ws := CommitWrites(c, sb, sequence, txn);
      Read(c, Apply(d, ws), Phys(c, CommitPos(|txn|, i))) == ws[i].data
  {
    var ws := CommitWrites(c, sb, sequence, txn);
    CommitWritesShape(c, sb, sequence, txn);
    CommitWriteAt(c, sb, sequence, txn, i);
    ReadApply(c, d, ws, ws[i].block);
    LastDataUnique(ws, i);
    assert ws[i].block == Phys(c, CommitPos(|txn|, i)) != NIL;
  }

  lemma CommitCopies(c: Layout, d: Disk, sb: Block, sequence: Word, txn: seq<DiskWrite>)
    requires LayoutOk(c) && TxnOk(c, txn) && |sb| == c.words
    ensures CopiesOk(c, Apply(d, CommitWrites(c, sb, sequence, txn)), txn)
  {
    forall i | 0 <= i < |txn| ensures Copy(c, Apply(d, CommitWrites(c, sb, sequence, txn)), i) == txn[i].data {
      ReadCommitWrite(c, d, sb, sequence, txn, i);
    }
  }

  lemma CommitHeaders(c: Layout, d: Disk, sb: Block, sequence: Word, txn: seq<DiskWrite>)
    requires LayoutOk(c) && TxnOk(c, txn) && |sb| == c.words
    ensures var e := Apply(d, CommitWrites(c, sb, sequence, txn));
      && Read(c, e, Phys(c, 0)) == sb[S_START := Bswap(ONE)]
      && DescribesTxn(c, Read(c, e, Phys(c, 1)), sequence, txn)
      && Read(c, e, Phys(c, Resume(c))) == Read(c, d, Phys(c, Resume(c)))
  {
    ReadCommitWrite(c, d, sb, sequence, txn, |txn| + 2);
    ReadCommitWrite(c, d, sb, sequence, txn, |txn|);
    CommittedDescriptor(c, sequence, txn);
    CommitWritesShape(c, sb, sequence, txn);
    ReadApply(c, d, CommitWrites(c, sb, sequence, txn), Phys(c, Resume(c)));
  }

  /** After the commit writes, from a clean journal, the transaction is committed. */
  lemma CommitWritesCommit(c: Layout, d: Disk, sequence: Word, txn: seq<DiskWrite>)
    requires LayoutOk(c) && TxnOk(c, txn) && Clean(c, d, sequence)
    ensures Committed(c, Apply(d, CommitWrites(c, Read(c, d, Phys(c, 0)), sequence, txn)), sequence, txn)
  {
    CommitCopies(c, d, Read(c, d, Phys(c, 0)), sequence, txn);
    CommitHeaders(c, d, Read(c, d, Phys(c, 0)), sequence, txn);
  }

  /** Home writes keep a committed transaction committed. */
  lemma HomeWritesKeepCommitted(c: Layout, d: Disk, sequence: Word, txn: seq<DiskWrite>, ws: seq<DiskWrite>)
    requires LayoutOk(c) && Committed(c, d, sequence, txn)
    requires forall i :: 0 <= i < |ws| ==> ws[i].block !in c.blocks
    ensures Committed(c, Apply(d, ws), sequence, txn)
  {
    HomeWritesKeepJournal(c, d, ws, 0);
    HomeWritesKeepJournal(c, d, ws, 1);
    HomeWritesKeepJournal(c, d, ws, Resume(c));
    forall i | 0 <= i < |txn| ensures Copy(c, Apply(d, ws), i) == txn[i].data {
      HomeWritesKeepJournal(c, d, ws, 2 + i);
      assert Copy(c, d, i) == txn[i].data;
    }
  }

  // ---------------------------------------------------------------- crash atomicity

  /** The disk a crash leaves after the first k writes of a transaction. */
  function CrashDisk(c: Layout, d: Disk, sequence: Word, txn: seq<DiskWrite>, k: int): Disk
    requires c.words >= 8 && 0 <= k <= 2 * |txn| + 4
  {
    Apply(d, TxnWrites(c, Read(c, d, Phys(c, 0)), sequence, txn)[..k])
  }

  lemma CrashBeforeCommit(c: Layout, d: Disk, sequence: Word, txn: seq<DiskWrite>, k: int)
    requires LayoutOk(c) && TxnOk(c, txn) && Clean(c, d, sequence) && 0 <= k < |txn| + 3
    ensures SameHome(c, d, CrashDisk(c, d, sequence, txn, k))
    ensures Clean(c, CrashDisk(c, d, sequence, txn, k), sequence)
  {
    var sb := Read(c, d, Phys(c, 0));
    var ws := CommitWrites(c, sb, sequence, txn)[..k];
    assert TxnWrites(c, sb, sequence, txn)[..k] == ws;
    CommitWritesShape(c, sb, sequence, txn);
    JournalOnly(c, d, ws);
    forall i | 0 <= i < k ensures ws[i].block != Phys(c, 0) && ws[i].block != Phys(c, Resume(c)) {
      CommitWriteAt(c, sb, sequence, txn, i);
    }
    ReadApply(c, d, ws, Phys(c, 0));
    ReadApply(c, d, ws, Phys(c, Resume(c)));
  }

  lemma CrashAfterCommit(c: Layout, d: Disk, sequence: Word, txn: seq<DiskWrite>, k: int)
    requires LayoutOk(c) && TxnOk(c, txn) && Clean(c, d, sequence) && |txn| + 3 <= k < 2 * |txn| + 4
    ensures Committed(c, CrashDisk(c, d, sequence, txn, k), sequence, txn)
    ensures SameHome(c, Apply(CrashDisk(c, d, sequence, txn, k), txn), Apply(d, txn))
  {
    var sb := Read(c, d, Phys(c, 0));
    var cw := CommitWrites(c, sb, sequence, txn);
    var j := k - |cw|;
    assert TxnWrites(c, sb, sequence, txn)[..k] == cw + txn[..j];
    ApplyAppend(d, cw, txn[..j]);
    CommitWritesCommit(c, d, sequence, txn);
    HomeWritesKeepCommitted(c, Apply(d, cw), sequence, txn, txn[..j]);
    CommitWritesShape(c, sb, sequence, txn);
    JournalOnly(c, d, cw);
    ReplayPrefix(c, d, Apply(d, cw), txn, j);
  }

  /** A finished transaction has updated its home blocks and left the journal clean again. */
  lemma TxnCompletes(c: Layout, d: Disk, sequence: Word, txn: seq<DiskWrite>)
    requires LayoutOk(c) && TxnOk(c, txn) && Clean(c, d, sequence)
    ensures SameHome(c, CrashDisk(c, d, sequence, txn, 2 * |txn| + 4), Apply(d, txn))
    ensures Idle(c, CrashDisk(c, d, sequence, txn, 2 * |txn| + 4))
    ensures NotLive(Read(c, d, Phys(c, Resume(c))), Succ(sequence)) ==>
      Clean(c, CrashDisk(c, d, sequence, txn, 2 * |txn| + 4), Succ(sequence))
    ensures Read(c, CrashDisk(c, d, sequence, txn, 2 * |txn| + 4), Phys(c, Resume(c))) == Read(c, d, Phys(c, Resume(c)))
    ensures var sb := Read(c, CrashDisk(c, d, sequence, txn, 2 * |txn| + 4), Phys(c, 0));
      Value(Bswap(sb[S_SEQUENCE])) == (Value(sequence) + 1) % 0x1_0000_0000 && sb[S_START] == NIL
  {
    hide Apply, NotLive, TxnOk, SameHome, CommitWrites, Value, Succ;
    SuccValue(sequence);
    var n := |txn|;
    var sb := Read(c, d, Phys(c, 0));
    var ws := TxnWrites(c, sb, sequence, txn);
    var w := ws[2 * n + 3];
    var e := CrashDisk(c, d, sequence, txn, 2 * n + 3);
    assert ws[..2 * n + 4] == ws[..2 * n + 3] + [w];
    ApplyAppend(d, ws[..2 * n + 3], [w]);
    CrashHomes(c, d, sequence, txn, e);
    JournalOnly(c, e, [w]);
    SameHomeTrans(c, Apply(e, [w]), e, Apply(d, txn));
    ReadApply(c, e, [w], Phys(c, 0));
    ReadApply(c, e, [w], Phys(c, Resume(c)));
    LastDataUnique([w], 0);
  }

  lemma CrashHomes(c: Layout, d: Disk, sequence: Word, txn: seq<DiskWrite>, e: Disk)
    requires LayoutOk(c) && TxnOk(c, txn) && Clean(c, d, sequence)
    requires e == CrashDisk(c, d, sequence, txn, 2 * |txn| + 3)
    ensures SameHome(c, e, Apply(d, txn))
    ensures Read(c, e, Phys(c, Resume(c))) == Read(c, d, Phys(c, Resume(c)))
  {
    hide Apply, NotLive, SameHome, Bswap, Descriptor;
    var sb := Read(c, d, Phys(c, 0));
    var cw := CommitWrites(c, sb, sequence, txn);
    assert TxnWrites(c, sb, sequence, txn)[..2 * |txn| + 3] == cw + txn;
    ApplyAppend(d, cw, txn);
    CommitWritesShape(c, sb, sequence, txn);
    JournalOnly(c, d, cw);
    ReplayPrefix(c, d, Apply(d, cw), txn, 0);
    HomeWritesKeepJournal(c, Apply(d, cw), txn, Resume(c));
    ReadApply(c, d, cw, Phys(c, Resume(c)));
  }

  // ---------------------------------------------------------------- crashes during recovery

  /** Nothing to replay: mounting leaves the disk as it is. */
  ghost predicate Idle(c: Layout, d: Disk)
    requires c.words >= 8
  {
    Read(c, d, Phys(c, 0))[S_START] == NIL
  }

  /** The disk after a series of mounts, each cut short after the given number of recovery writes. */
  function RebootDisk(c: Layout, d: Disk, rounds: nat, cuts: seq<nat>): Disk
    requires c.words >= 8 && |c.blocks| >= 2
    decreases |cuts|
  {
    if cuts == [] then d
    else
      var ws := Recover(c, d, rounds).0.writes;
      RebootDisk(c, Apply(d, if cuts[0] < |ws| then ws[..cuts[0]] else ws), rounds, cuts[1..])
  }

  /** `ws` is the transaction followed by writes that the disk refuses. */
  ghost predicate Padded(ws: seq<DiskWrite>, txn: seq<DiskWrite>) {
    && |txn| <= |ws| && ws[..|txn|] == txn
    && (forall i :: |txn| <= i < |ws| ==> ws[i].block == NIL)
  }

  /** The writes issued once tag j is reached. */
  ghost predicate IssuedTo(ws: seq<DiskWrite>, txn: seq<DiskWrite>, j: int)
    requires j >= 0
  {
    if j < |txn| then ws == txn[..j] else Padded(ws, txn)
  }

  lemma IssuedStep(ws: seq<DiskWrite>, w: DiskWrite, txn: seq<DiskWrite>, j: int)
    requires j >= 0 && IssuedTo(ws, txn, j) && (if j < |txn| then w == txn[j] else w.block == NIL)
    ensures IssuedTo(ws + [w], txn, j + 1)
  {
    if j < |txn| { assert txn[..j] + [txn[j]] == txn[..j + 1]; }
  }

  lemma {:induction false} ReplayTagsWrites(c: Layout, s: Scan, desc: Block, j: int, sequence: Word, txn: seq<DiskWrite>)
    requires LayoutOk(c) && TxnOk(c, txn) && DescribesTxn(c, desc, sequence, txn)
    requires 0 <= j && 2 * j + 2 <= c.words && s.pos == j + 1 && CopiesOk(c, s.disk, txn)
    requires IssuedTo(s.writes, txn, j)
    ensures Padded(ReplayTags(c, s, desc, j).writes, txn)
    decreases c.words - 2 * j
  {
    if 3 + 2 * j < c.words {
      var w := TagWrite(c, s, desc, j);
      ReplayStep(c, s, desc, j, sequence, txn);
      TagWriteIs(c, s, desc, j, sequence, txn);
      if j < |txn| { CopiesIntact(c, s.disk, w, txn); }
      IssuedStep(s.writes, w, txn, j);
      ReplayTagsWrites(c, Issue(s, w, j + 2), desc, j + 1, sequence, txn);
    }
  }

  lemma NothingIssued(txn: seq<DiskWrite>)
    ensures IssuedTo([], txn, 0)
  {
  }

  lemma RecoverWrites(c: Layout, d: Disk, sequence: Word, txn: seq<DiskWrite>, rounds: nat)
    requires LayoutOk(c) && TxnOk(c, txn) && Committed(c, d, sequence, txn) && rounds >= 2
    ensures Padded(Recover(c, d, rounds).0.writes, txn)
  {
    hide ReplayTags, ReplayFrom, Read, CopiesOk, DescribesTxn, NotLive, TxnOk, Padded;
    NotJournal(c, txn);
    NothingIssued(txn);
    var s := Scan(d, [], 1);
    var r := ReplayTags(c, s, Read(c, d, Phys(c, 1)), 0);
    ReplayTagsCorrect(c, s, Read(c, d, Phys(c, 1)), 0, sequence, txn);
    ReplayTagsWrites(c, s, Read(c, d, Phys(c, 1)), 0, sequence, txn);
    assert From(txn, 0) == txn;
    HomeWritesKeepJournal(c, d, txn, Resume(c));
    ReplayTwoRounds(c, s, r, sequence, txn, rounds);
  }

  lemma {:induction false} RefusedWrites(d: Disk, ws: seq<DiskWrite>)
    requires forall i :: 0 <= i < |ws| ==> ws[i].block == NIL
    ensures Apply(d, ws) == d
    decreases |ws|
  {
    if ws != [] { RefusedWrites(d, ws[1..]); }
  }

  /** Any prefix of the recovery writes acts as a prefix of the transaction. */
  lemma PaddedPrefix(d: Disk, ws: seq<DiskWrite>, txn: seq<DiskWrite>, m: int)
    requires Padded(ws, txn) && 0 <= m <= |ws|
    ensures Apply(d, ws[..m]) == Apply(d, txn[..if m < |txn| then m else |txn|])
  {
    var n := |txn|;
    if m < n {
      assert ws[..m] == txn[..m];
    } else {
      assert ws[..m] == txn + ws[n..m];
      ApplyAppend(d, txn, ws[n..m]);
      RefusedWrites(Apply(d, txn), ws[n..m]);
      assert txn[..n] == txn;
    }
  }

  /** Interrupted recoveries keep the transaction committed, and lose nothing of it. */
  lemma {:induction false} RebootCommitted(c: Layout, d: Disk, sequence: Word, txn: seq<DiskWrite>, rounds: nat, cuts: seq<nat>)
    requires LayoutOk(c) && TxnOk(c, txn) && Committed(c, d, sequence, txn) && rounds >= 2
    ensures Committed(c, RebootDisk(c, d, rounds, cuts), sequence, txn)
    ensures SameHome(c, Apply(RebootDisk(c, d, rounds, cuts), txn), Apply(d, txn))
    decreases |cuts|
  {
    if cuts != [] {
      var ws := Recover(c, d, rounds).0.writes;
      var m := if cuts[0] < |ws| then cuts[0] else |ws|;
      assert ws[..|ws|] == ws;
      var j := if m < |txn| then m else |txn|;
      RecoverWrites(c, d, sequence, txn, rounds);
      PaddedPrefix(d, ws, txn, m);
      HomeWritesKeepCommitted(c, d, sequence, txn, txn[..j]);
      ReplayPrefix(c, d, d, txn, j);
      RebootCommitted(c, Apply(d, txn[..j]), sequence, txn, rounds, cuts[1..]);
    }
  }

  lemma {:induction false} RebootIdle(c: Layout, d: Disk, rounds: nat, cuts: seq<nat>)
    requires LayoutOk(c) && Idle(c, d)
    ensures RebootDisk(c, d, rounds, cuts) == d && Recover(c, d, rounds).1 && Recover(c, d, rounds).0.disk == d
    decreases |cuts|
  {
    if cuts != [] { RebootIdle(c, d, rounds, cuts[1..]); }
  }

  /** The file system a machine comes back with: any number of interrupted mounts, then a full one. */
  function Restart(c: Layout, d: Disk, rounds: nat, cuts: seq<nat>): (Scan, bool)
    requires c.words >= 8 && |c.blocks| >= 2
  {
    Recover(c, RebootDisk(c, d, rounds, cuts), rounds)
  }

  /** However often recovery is interrupted, a committed transaction ends up complete. */
  lemma RestartCommitted(c: Layout, e: Disk, sequence: Word, txn: seq<DiskWrite>, rounds: nat, cuts: seq<nat>)
    requires LayoutOk(c) && TxnOk(c, txn) && Committed(c, e, sequence, txn) && rounds >= 2
    ensures Restart(c, e, rounds, cuts).1
    ensures SameHome(c, Restart(c, e, rounds, cuts).0.disk, Apply(e, txn))
  {
    RebootCommitted(c, e, sequence, txn, rounds, cuts);
    RecoverCommitted(c, RebootDisk(c, e, rounds, cuts), sequence, txn, rounds);
  }

  /**
   Crash atomicity: from a clean journal, a crash after any number k of the transaction's writes,
   followed by any number of crashes during recovery, leaves every home block old (before the
   superblock write that commits) or every home block new (from that write on).
   */
  lemma CrashAtomic(c: Layout, d: Disk, sequence: Word, txn: seq<DiskWrite>, k: int, rounds: nat, cuts: seq<nat>)
    requires LayoutOk(c) && TxnOk(c, txn) && Clean(c, d, sequence)
    requires 0 <= k <= 2 * |txn| + 4 && rounds >= 2
    ensures Restart(c, CrashDisk(c, d, sequence, txn, k), rounds, cuts).1
    ensures SameHome(c, Restart(c, CrashDisk(c, d, sequence, txn, k), rounds, cuts).0.disk,
                     if k < |txn| + 3 then d else Apply(d, txn))
  {
    hide Apply, Recover, Read, CrashDisk, DescribesTxn, CopiesOk, NotLive, TxnOk, RebootDisk;
    var e := CrashDisk(c, d, sequence, txn, k);
    if k < |txn| + 3 {
      CrashBeforeCommit(c, d, sequence, txn, k);
      RebootIdle(c, e, rounds, cuts);
    } else if k < 2 * |txn| + 4 {
      CrashAfterCommit(c, d, sequence, txn, k);
      RestartCommitted(c, e, sequence, txn, rounds, cuts);
    } else {
      TxnCompletes(c, d, sequence, txn);
      RebootIdle(c, e, rounds, cuts);
    }
  }

  // ---------------------------------------------------------------- runs of transactions

  /** The disk after completing a list of transactions, and the sequence number then in use. */
  function RunTxns(c: Layout, d: Disk, sequence: Word, txns: seq<seq<DiskWrite>>): (Disk, Word)
    requires c.words >= 8
    decreases |txns|
  {
    if txns == [] then (d, sequence)
    else RunTxns(c, CrashDisk(c, d, sequence, txns[0], 2 * |txns[0]| + 4), Succ(sequence), txns[1..])
  }

  /** The same transactions applied straight to their home blocks. */
  function ApplyAll(d: Disk, txns: seq<seq<DiskWrite>>): Disk
    decreases |txns|
  {
    if txns == [] then d else ApplyAll(Apply(d, txns[0]), txns[1..])
  }

  /** The block at the resume position is no header of this or any of the next n transactions. */
  ghost predicate Quiet(r: Block, sequence: Word, n: nat)
    decreases n
  {
    NotLive(r, sequence) && (n > 0 ==> Quiet(r, Succ(sequence), n - 1))
  }

  lemma {:induction false} ApplyAllSameHome(c: Layout, d: Disk, e: Disk, txns: seq<seq<DiskWrite>>)
    requires c.words >= 0 && SameHome(c, d, e) && (forall i :: 0 <= i < |txns| ==> DataOk(c, txns[i]))
    ensures SameHome(c, ApplyAll(d, txns), ApplyAll(e, txns))
    decreases |txns|
  {
    if txns != [] {
      ReplayPrefix(c, e, d, txns[0], 0);
      ApplyAllSameHome(c, Apply(d, txns[0]), Apply(e, txns[0]), txns[1..]);
    }
  }

  lemma {:induction false} RunStaysClean(c: Layout, d: Disk, sequence: Word, txns: seq<seq<DiskWrite>>)
    requires LayoutOk(c) && Clean(c, d, sequence) && Quiet(Read(c, d, Phys(c, Resume(c))), sequence, |txns|)
    requires forall i :: 0 <= i < |txns| ==> TxnOk(c, txns[i])
    ensures var (e, q) := RunTxns(c, d, sequence, txns); Clean(c, e, q) && SameHome(c, e, ApplyAll(d, txns))
    decreases |txns|
  {
    hide Apply, NotLive, SameHome, Read, CrashDisk;
    if txns != [] {
      var e := CrashDisk(c, d, sequence, txns[0], 2 * |txns[0]| + 4);
      TxnCompletes(c, d, sequence, txns[0]);
      RunStaysClean(c, e, Succ(sequence), txns[1..]);
      ApplyAllSameHome(c, e, Apply(d, txns[0]), txns[1..]);
      SameHomeTrans(c, RunTxns(c, d, sequence, txns).0, ApplyAll(e, txns[1..]), ApplyAll(d, txns));
    } else {
      SameHomeSelf(c, d);
    }
  }

  /** After any run of transactions a crash in the next one still leaves all of it or none of it. */
  lemma RunCrashAtomic(c: Layout, d: Disk, sequence: Word, txns: seq<seq<DiskWrite>>, txn: seq<DiskWrite>,
                       k: int, rounds: nat, cuts: seq<nat>)
    requires LayoutOk(c) && Clean(c, d, sequence) && Quiet(Read(c, d, Phys(c, Resume(c))), sequence, |txns|)
    requires (forall i :: 0 <= i < |txns| ==> TxnOk(c, txns[i])) && TxnOk(c, txn)
    requires 0 <= k <= 2 * |txn| + 4 && rounds >= 2
    ensures var (e, q) := RunTxns(c, d, sequence, txns);
      SameHome(c, Restart(c, CrashDisk(c, e, q, txn, k), rounds, cuts).0.disk,
               if k < |txn| + 3 then ApplyAll(d, txns) else Apply(ApplyAll(d, txns), txn))
  {
    var (e, q) := RunTxns(c, d, sequence, txns);
    RunStaysClean(c, d, sequence, txns);
    CrashAtomic(c, e, q, txn, k, rounds, cuts);
    ReplayPrefix(c, ApplyAll(d, txns), e, txn, 0);
  }

  // ---------------------------------------------------------------- a stale header where the scan goes on

  lemma {:induction false} ReplayTagsGrows(c: Layout, s: Scan, desc: Block, j: int)
    requires c.words >= 3 && |desc| == c.words && |c.blocks| >= 2 && j >= 0
    ensures s.writes <= ReplayTags(c, s, desc, j).writes
    decreases c.words - 2 * j
  {
    hide Read, Write, HasBits;
    if 3 + 2 * j < c.words { ReplayTagsGrows(c, Issue(s, TagWrite(c, s, desc, j), Next(c, s.pos)), desc, j + 1); }
  }

  lemma {:induction false} ReplayFromGrows(c: Layout, s: Scan, sequence: Word, start: int, rounds: nat)
    requires c.words >= 3 && |c.blocks| >= 2
    ensures s.writes <= ReplayFrom(c, s, sequence, start, rounds).0.writes
    decreases rounds
  {
    hide ReplayTags;
    if rounds > 0 {
      var desc := Read(c, s.disk, Phys(c, s.pos));
      ReplayTagsGrows(c, s, desc, 0);
      var s' := if Bswap(desc[1]) == DESCRIPTOR then ReplayTags(c, s, desc, 0) else s;
      var sequence' := if Bswap(desc[1]) == DESCRIPTOR then sequence else Succ(sequence);
      ReplayFromGrows(c, s'.(pos := Next(c, s'.pos)), sequence', start, rounds - 1);
    }
  }

  /** A descriptor of this transaction. */
  predicate LiveDescriptor(r: Block, sequence: Word) {
    |r| >= 4 && Bswap(r[0]) == MAGIC && Bswap(r[1]) == DESCRIPTOR && Bswap(r[2]) == sequence
  }

  /** A live descriptor at the scan position is replayed, from its first tag on. */
  lemma LiveReplayed(c: Layout, s: Scan, sequence: Word, start: int, rounds: nat)
    requires c.words >= 4 && |c.blocks| >= 2 && rounds >= 1 && LiveDescriptor(Read(c, s.disk, Phys(c, s.pos)), sequence)
    ensures var desc := Read(c, s.disk, Phys(c, s.pos));
      s.writes + [TagWrite(c, s, desc, 0)] <= ReplayFrom(c, s, sequence, start, rounds).0.writes
  {
    hide Read, Write, HasBits;
    var desc := Read(c, s.disk, Phys(c, s.pos));
    var r := ReplayTags(c, s, desc, 0);
    ReplayTagsGrows(c, Issue(s, TagWrite(c, s, desc, 0), Next(c, s.pos)), desc, 1);
    assert s.writes + [TagWrite(c, s, desc, 0)] <= r.writes;
    ReplayFromGrows(c, r.(pos := Next(c, r.pos)), sequence, start, rounds - 1);
  }

  /**
   With a stale descriptor of the same sequence number where the scan goes on, recovery does not stop after the
   transaction: it issues a write beyond those of the transaction.
   */
  lemma StaleHeaderReplayed(c: Layout, d: Disk, sequence: Word, txn: seq<DiskWrite>, rounds: nat)
    requires LayoutOk(c) && TxnOk(c, txn) && Recorded(c, d, sequence, txn) && rounds >= 2
    requires var r := Read(c, d, Phys(c, Resume(c))); LiveDescriptor(r, sequence) && Bswap(r[3]) != NIL
    ensures !Padded(Recover(c, d, rounds).0.writes, txn)
  {
    hide ReplayTags, ReplayFrom, Read, CopiesOk, DescribesTxn, LiveDescriptor, TxnOk;
    var s, first := Scan(d, [], 1), Read(c, d, Phys(c, 1));
    var r, ws := ReplayTags(c, s, first, 0), Recover(c, d, rounds).0.writes;
    ReplayTagsCorrect(c, s, first, 0, sequence, txn);
    ReplayTagsWrites(c, s, first, 0, sequence, txn);
    assert From(txn, 0) == txn;
    NotJournal(c, txn);
    HomeWritesKeepJournal(c, d, txn, Resume(c));
    var u := r.(pos := Resume(c));
    OneRound(c, s, r, sequence, txn, rounds);
    LiveReplayed(c, u, sequence, 1, rounds - 1);
    var w := TagWrite(c, u, Read(c, u.disk, Phys(c, Resume(c))), 0);
    assert ws == ReplayFrom(c, s, sequence, 1, rounds).0.writes;
    Unpadded(r.writes, w, ws, txn);
  }

  /** The first round replays the descriptor and moves on to the resume position. */
  lemma OneRound(c: Layout, s: Scan, r: Scan, sequence: Word, txn: seq<DiskWrite>, rounds: nat)
    requires LayoutOk(c) && s.pos == 1 && rounds >= 1
    requires DescribesTxn(c, Read(c, s.disk, Phys(c, 1)), sequence, txn)
    requires r == ReplayTags(c, s, Read(c, s.disk, Phys(c, 1)), 0) && r.pos == c.words / 2
    ensures ReplayFrom(c, s, sequence, 1, rounds) == ReplayFrom(c, r.(pos := Resume(c)), sequence, 1, rounds - 1)
  {
    hide ReplayTags, Read;
    NextPlain(c, c.words / 2);
  }

  lemma NotJournal(c: Layout, txn: seq<DiskWrite>)
    requires TxnOk(c, txn)
    ensures forall i :: 0 <= i < |txn| ==> txn[i].block !in c.blocks
  {
  }

  lemma Unpadded(ws: seq<DiskWrite>, w: DiskWrite, all: seq<DiskWrite>, txn: seq<DiskWrite>)
    requires Padded(ws, txn) && w.block != NIL && ws + [w] <= all
    ensures !Padded(all, txn)
  {
    assert all[|ws|] == w;
  }

  // ---------------------------------------------------------------- a journal left dirty by recovery

  /** After a crash that left disk e, recovery comes to its end, and all of the transaction is home or none of it. */
  ghost predicate AtomicAt(c: Layout, d: Disk, txn: seq<DiskWrite>, e: Disk)
    requires LayoutOk(c)
  {
    exists rounds: nat :: rounds >= 2 && Settles(c, d, txn, Restart(c, e, rounds, []))
  }

  ghost predicate Settles(c: Layout, d: Disk, txn: seq<DiskWrite>, end: (Scan, bool))
    requires c.words >= 0
  {
    end.1 && (SameHome(c, end.0.disk, d) || SameHome(c, end.0.disk, Apply(d, txn)))
  }

  /** Every crash point of the transaction leaves all of it or none of it. */
  ghost predicate AtomicFor(c: Layout, d: Disk, sequence: Word, txn: seq<DiskWrite>)
    requires LayoutOk(c)
  {
    forall k :: 0 <= k <= 2 * |txn| + 4 ==> AtomicAt(c, d, txn, CrashDisk(c, d, sequence, txn, k))
  }

  /** Recovery leaves the transaction marked for replay. */
  lemma RecoveryStaysDirty(c: Layout, d: Disk, sequence: Word, txn: seq<DiskWrite>, rounds: nat)
    requires LayoutOk(c) && TxnOk(c, txn) && Committed(c, d, sequence, txn) && rounds >= 2
    ensures Committed(c, Recover(c, d, rounds).0.disk, sequence, txn)
  {
    RecoverCommitted(c, d, sequence, txn, rounds);
    HomeWritesKeepCommitted(c, d, sequence, txn, txn);
  }

  lemma OneWriteReads(c: Layout, d: Disk, pos: int, data: Block, p: int)
    requires LayoutOk(c) && 0 <= pos < |c.blocks| && 0 <= p < |c.blocks| && |data| == c.words
    ensures Read(c, Apply(d, [DiskWrite(c.blocks[pos], data)]), Phys(c, p)) == if p == pos then data else Read(c, d, Phys(c, p))
  {
    ReadApply(c, d, [DiskWrite(c.blocks[pos], data)], Phys(c, p));
    LastDataUnique([DiskWrite(c.blocks[pos], data)], 0);
  }

  /** The first data write of a new transaction replaces the data of the old one's first block. */
  lemma OverwrittenCopy(c: Layout, d: Disk, sequence: Word, old_: seq<DiskWrite>, data: Block, e: Disk)
    requires LayoutOk(c) && TxnOk(c, old_) && Committed(c, d, sequence, old_) && |old_| > 0 && |data| == c.words
    requires e == Apply(d, [DiskWrite(Phys(c, 2), data)])
    ensures Committed(c, e, sequence, old_[0 := old_[0].(data := data)])
  {
    var torn := old_[0 := old_[0].(data := data)];
    OneWriteReads(c, d, 2, data, 0);
    OneWriteReads(c, d, 2, data, 1);
    OneWriteReads(c, d, 2, data, Resume(c));
    forall i | 0 <= i < |torn| ensures Copy(c, e, i) == torn[i].data {
      OneWriteReads(c, d, 2, data, 2 + i);
      assert Copy(c, d, i) == old_[i].data;
    }
    assert forall i :: 0 <= i < |torn| ==> torn[i].block == old_[i].block;
  }

  lemma FirstWrite(c: Layout, d: Disk, sequence: Word, txn: seq<DiskWrite>)
    requires c.words >= 8 && |txn| > 0
    ensures CrashDisk(c, d, sequence, txn, 1) == Apply(d, [DiskWrite(Phys(c, 2), txn[0].data)])
  {
    assert TxnWrites(c, Read(c, d, Phys(c, 0)), sequence, txn)[..1] == [DiskWrite(Phys(c, 2), txn[0].data)];
  }

  /** Recovery puts the first block's data in its home, when no later block has the same home. */
  lemma TornRead(c: Layout, e: Disk, sequence: Word, torn: seq<DiskWrite>, rounds: nat)
    requires LayoutOk(c) && TxnOk(c, torn) && Committed(c, e, sequence, torn) && |torn| > 0 && rounds >= 2
    requires torn[0].block != NIL && (forall i :: 0 < i < |torn| ==> torn[i].block != torn[0].block)
    ensures Read(c, Recover(c, e, rounds).0.disk, torn[0].block) == torn[0].data
  {
    RecoverCommitted(c, e, sequence, torn, rounds);
    LastDataUnique(torn, 0);
    ReadApply(c, e, torn, torn[0].block);
  }

  /** A journal still marked for replay of `old_`, whose first home block the next transaction leaves alone. */
  ghost predicate DirtyCase(c: Layout, d: Disk, sequence: Word, old_: seq<DiskWrite>, txn: seq<DiskWrite>)
    requires LayoutOk(c)
  {
    && TxnOk(c, old_) && Committed(c, d, sequence, old_) && |old_| > 0 && |txn| > 0
    && var h := old_[0].block;
      && h != NIL && (forall i :: 0 < i < |old_| ==> old_[i].block != h)
      && Read(c, d, h) == old_[0].data != txn[0].data && (forall i :: 0 <= i < |txn| ==> txn[i].block != h)
  }

  /**
   A transaction begun on a journal still marked for replay is torn: a crash after its first write makes
   recovery copy its first block over the old transaction's first home block.
   */
  lemma DirtyStartTears(c: Layout, d: Disk, sequence: Word, old_: seq<DiskWrite>, txn: seq<DiskWrite>)
    requires LayoutOk(c) && TxnOk(c, txn) && DirtyCase(c, d, sequence, old_, txn)
    ensures !AtomicFor(c, d, sequence, txn)
  {
    hide Recover, Apply;
    var h := old_[0].block;
    var e := CrashDisk(c, d, sequence, txn, 1);
    var torn := old_[0 := old_[0].(data := txn[0].data)];
    FirstWrite(c, d, sequence, txn);
    OverwrittenCopy(c, d, sequence, old_, txn[0].data, e);
    ReadApply(c, d, txn, h);
    forall rounds: nat | rounds >= 2 ensures !Settles(c, d, txn, Restart(c, e, rounds, [])) {
      TornRead(c, e, sequence, torn, rounds);
    }
  }

  // ---------------------------------------------------------------- what a stale descriptor does

  /** An idle journal ready for the transaction of this number, whatever lies where the scan after it goes on. */
  ghost predicate Prepared(c: Layout, d: Disk, sequence: Word)
    requires c.words >= 8
  {
    var sb := Read(c, d, Phys(c, 0));
    Bswap(sb[0]) == MAGIC && sb[S_START] == NIL && Bswap(sb[S_SEQUENCE]) == sequence
  }

  /** The scan position after the tags of a descriptor from tag j on. */
  function Skip(c: Layout, pos: int, j: int): int
    requires |c.blocks| >= 2 && j >= 0
    decreases c.words - 2 * j
  {
    if 3 + 2 * j >= c.words then pos else Skip(c, Next(c, pos), j + 1)
  }

  /** The copies that a descriptor for `stale` found at position pos makes from tag j on, from whatever follows it. */
  function Replayed(c: Layout, d: Disk, stale: seq<Word>, pos: int, j: int): (ws: seq<DiskWrite>)
    requires c.words >= 0 && |c.blocks| >= 2 && j >= 0
    ensures |ws| > 0 ==> ws[0].block == (if j < |stale| then stale[j] else NIL) && ws[0].data == Read(c, d, Phys(c, Next(c, pos)))
    ensures 3 + 2 * j < c.words ==> |ws| > 0
    decreases c.words - 2 * j
  {
    if 3 + 2 * j >= c.words then []
    else
      [DiskWrite(if j < |stale| then stale[j] else NIL, Read(c, d, Phys(c, Next(c, pos))))]
      + Replayed(c, d, stale, Next(c, pos), j + 1)
  }

  /** They depend on the journal blocks only. */
  lemma {:induction false} ReplayedSame(c: Layout, d: Disk, e: Disk, stale: seq<Word>, pos: int, j: int)
    requires c.words >= 0 && |c.blocks| >= 2 && j >= 0 && forall q :: Read(c, e, Phys(c, q)) == Read(c, d, Phys(c, q))
    ensures Replayed(c, e, stale, pos, j) == Replayed(c, d, stale, pos, j)
    decreases c.words - 2 * j
  {
    hide Read;
    if 3 + 2 * j < c.words { ReplayedSame(c, d, e, stale, Next(c, pos), j + 1); }
  }

  lemma {:induction false} ReplayedAt(c: Layout, d: Disk, stale: seq<Word>, pos: int, j: int, i: int)
    requires c.words >= 0 && |c.blocks| >= 2 && j >= 0 && 0 <= i < |Replayed(c, d, stale, pos, j)|
    ensures var w := Replayed(c, d, stale, pos, j)[i]; w.block == (if i + j < |stale| then stale[i + j] else NIL) && |w.data| == c.words
    decreases c.words - 2 * j
  {
    hide Read;
    if i > 0 { ReplayedAt(c, d, stale, Next(c, pos), j + 1, i - 1); }
  }

  /** A descriptor for these blocks, data aside. */
  ghost predicate Names(c: Layout, r: Block, sequence: Word, stale: seq<Word>) {
    DescribesTxn(c, r, sequence, seq(|stale|, i requires 0 <= i < |stale| => DiskWrite(stale[i], [])))
  }

  lemma StaleTag(c: Layout, s: Scan, desc: Block, j: int, sequence: Word, stale: seq<Word>)
    requires LayoutOk(c) && Names(c, desc, sequence, stale) && 0 <= j && 3 + 2 * j < c.words
    ensures var w := TagWrite(c, s, desc, j); w.block == if j < |stale| then stale[j] else NIL
    ensures j < |stale| ==> TagWrite(c, s, desc, j).data == Read(c, s.disk, Phys(c, Next(c, s.pos)))
    ensures ReplayTags(c, s, desc, j) == ReplayTags(c, Issue(s, TagWrite(c, s, desc, j), Next(c, s.pos)), desc, j + 1)
  {
    hide ReplayTags, Read;
    var t := seq(|stale|, i requires 0 <= i < |stale| => DiskWrite(stale[i], []));
    ReplayStep(c, s, desc, j, sequence, t);
    if j < |stale| { assert t[j].block == stale[j] && 4 + 2 * j < c.words; }
  }

  /** Replaying a descriptor for blocks outside the journal makes exactly those copies. */
  lemma {:induction false} ReplayStale(c: Layout, s: Scan, desc: Block, j: int, sequence: Word, stale: seq<Word>)
    requires LayoutOk(c) && Names(c, desc, sequence, stale) && |desc| == c.words && j >= 0 && forall i :: 0 <= i < |stale| ==> stale[i] !in c.blocks
    ensures ReplayTags(c, s, desc, j).pos == Skip(c, s.pos, j)
    ensures ReplayTags(c, s, desc, j).disk == Apply(s.disk, Replayed(c, s.disk, stale, s.pos, j))
    decreases c.words - 2 * j
  {
    hide Read, Names, ReplayTags, TagWrite, Apply, Write;
    if 3 + 2 * j < c.words {
      StaleTag(c, s, desc, j, sequence, stale);
      var w, u := TagWrite(c, s, desc, j), Issue(s, TagWrite(c, s, desc, j), Next(c, s.pos));
      ReplayStale(c, u, desc, j + 1, sequence, stale);
      forall q ensures Read(c, u.disk, Phys(c, q)) == Read(c, s.disk, Phys(c, q)) {
        if w.block == NIL { RefusedWrite(s.disk, w.data); } else { JournalIntact(c, s.disk, w, q); }
      }
      ReplayedSame(c, s.disk, u.disk, stale, Next(c, s.pos), j + 1);
      var ws := Replayed(c, s.disk, stale, s.pos, j);
      assert ws[1..] == Replayed(c, s.disk, stale, Next(c, s.pos), j + 1);
      ApplyFirst(s.disk, w, ws);
    } else {
      NoTagLeft(c, s, desc, j);
      ApplyNothing(s.disk);
    }
  }

  lemma RefusedWrite(d: Disk, data: Block)
    ensures Write(d, NIL, data) == d
  {
  }

  lemma NoTagLeft(c: Layout, s: Scan, desc: Block, j: int)
    requires c.words >= 3 && |desc| == c.words && |c.blocks| >= 2 && j >= 0 && 3 + 2 * j >= c.words
    ensures ReplayTags(c, s, desc, j) == s
  {
  }

  lemma ApplyNothing(d: Disk)
    ensures Apply(d, []) == d
  {
  }

  /** A write may be swapped for another to the same block with the same data, or for another that is refused. */
  lemma ApplyFirst(d: Disk, w: DiskWrite, ws: seq<DiskWrite>)
    requires ws != [] && ws[0].block == w.block && (w.block == NIL || ws[0].data == w.data)
    ensures Apply(d, ws) == Apply(Write(d, w.block, w.data), ws[1..])
  {
    RefusedWrite(d, w.data);
    RefusedWrite(d, ws[0].data);
  }

  /** An idle journal with a stale descriptor of the same number where the scan goes on; e is the disk right after the commit. */
  ghost predicate StaleCase(c: Layout, d: Disk, sequence: Word, stale: seq<Word>, txn: seq<DiskWrite>, e: Disk)
    requires LayoutOk(c)
  {
    && Prepared(c, d, sequence) && Names(c, Read(c, d, Phys(c, Resume(c))), sequence, stale) && |stale| > 0
    && (forall i :: 0 <= i < |stale| ==> stale[i] !in c.blocks)
    && var h, q := stale[0], Next(c, Skip(c, Resume(c), 0));
      && h != NIL && (forall i :: 0 < i < |stale| ==> stale[i] != h) && (forall i :: 0 <= i < |txn| ==> txn[i].block != h)
      && Read(c, e, Phys(c, Next(c, Resume(c)))) != Read(c, d, h)
      && (q == 1 || NotLive(Read(c, e, Phys(c, q)), sequence))
  }

  /** Right after the commit the transaction is recorded, and the block where the scan goes on is untouched. */
  lemma CommitRecords(c: Layout, d: Disk, sequence: Word, txn: seq<DiskWrite>)
    requires LayoutOk(c) && TxnOk(c, txn) && Prepared(c, d, sequence)
    ensures var e := CrashDisk(c, d, sequence, txn, |txn| + 3);
      Recorded(c, e, sequence, txn) && Read(c, e, Phys(c, Resume(c))) == Read(c, d, Phys(c, Resume(c)))
  {
    var sb := Read(c, d, Phys(c, 0));
    assert TxnWrites(c, sb, sequence, txn)[..|txn| + 3] == CommitWrites(c, sb, sequence, txn);
    CommitCopies(c, d, sb, sequence, txn);
    CommitHeaders(c, d, sb, sequence, txn);
  }

  /** Recovery of a recorded transaction followed by a stale descriptor: the copies of both, wherever the scan stops by itself. */
  lemma RecoverStale(c: Layout, e: Disk, sequence: Word, txn: seq<DiskWrite>, stale: seq<Word>, rounds: nat)
    requires LayoutOk(c) && TxnOk(c, txn) && Recorded(c, e, sequence, txn) && rounds >= 2
    requires Names(c, Read(c, e, Phys(c, Resume(c))), sequence, stale) && forall i :: 0 <= i < |stale| ==> stale[i] !in c.blocks
    requires var q := Next(c, Skip(c, Resume(c), 0)); q == 1 || NotLive(Read(c, e, Phys(c, q)), sequence)
    ensures Recover(c, e, rounds).1 ==> Recover(c, e, rounds).0.disk == Apply(Apply(e, txn), Replayed(c, e, stale, Resume(c), 0))
  {
    hide ReplayTags, ReplayFrom, Recover, Read, CopiesOk, DescribesTxn, NotLive, TxnOk, Names, Apply, Replayed, Skip;
    var s, first := Scan(e, [], 1), Read(c, e, Phys(c, 1));
    var r := ReplayTags(c, s, first, 0);
    RecoverIs(c, e, sequence, txn, rounds);
    ReplayTagsCorrect(c, s, first, 0, sequence, txn);
    assert From(txn, 0) == txn;
    NotJournal(c, txn);
    forall q ensures Read(c, r.disk, Phys(c, q)) == Read(c, e, Phys(c, q)) { HomeWritesKeepJournal(c, e, txn, q); }
    OneRound(c, s, r, sequence, txn, rounds);
    var u := r.(pos := Resume(c));
    var desc := Read(c, u.disk, Phys(c, Resume(c)));
    ReplayStale(c, u, desc, 0, sequence, stale);
    ReplayedSame(c, e, u.disk, stale, Resume(c), 0);
    ReplayedKeepsJournal(c, u.disk, stale, Resume(c), Next(c, Skip(c, Resume(c), 0)));
    StaleRound(c, u, sequence, stale, rounds - 1);
  }

  lemma ReplayedKeepsJournal(c: Layout, d: Disk, stale: seq<Word>, pos: int, q: int)
    requires LayoutOk(c) && forall i :: 0 <= i < |stale| ==> stale[i] !in c.blocks
    ensures Read(c, Apply(d, Replayed(c, d, stale, pos, 0)), Phys(c, q)) == Read(c, d, Phys(c, q))
  {
    hide Read, Apply;
    var ws := Replayed(c, d, stale, pos, 0);
    forall i | 0 <= i < |ws| ensures ws[i].block !in c.blocks { ReplayedAt(c, d, stale, pos, 0, i); }
    HomeWritesKeepJournal(c, d, ws, q);
  }

  lemma RecoverIs(c: Layout, e: Disk, sequence: Word, txn: seq<DiskWrite>, rounds: nat)
    requires LayoutOk(c) && Recorded(c, e, sequence, txn)
    ensures Recover(c, e, rounds) == ReplayFrom(c, Scan(e, [], 1), sequence, 1, rounds)
  {
    hide ReplayFrom, Read, CopiesOk, DescribesTxn;
  }

  /** One more round over a stale descriptor, and the end. */
  lemma StaleRound(c: Layout, u: Scan, sequence: Word, stale: seq<Word>, rounds: nat)
    requires LayoutOk(c) && rounds >= 1 && Names(c, Read(c, u.disk, Phys(c, u.pos)), sequence, stale)
    requires var r := ReplayTags(c, u, Read(c, u.disk, Phys(c, u.pos)), 0);
      Next(c, r.pos) == 1 || NotLive(Read(c, r.disk, Phys(c, Next(c, r.pos))), sequence)
    ensures var r := ReplayTags(c, u, Read(c, u.disk, Phys(c, u.pos)), 0);
      ReplayFrom(c, u, sequence, 1, rounds).1 ==> ReplayFrom(c, u, sequence, 1, rounds).0.disk == r.disk
  {
    hide ReplayTags, Read;
    var desc := Read(c, u.disk, Phys(c, u.pos));
    var r := ReplayTags(c, u, desc, 0);
    assert Bswap(desc[0]) == MAGIC && Bswap(desc[1]) == DESCRIPTOR && Bswap(desc[2]) == sequence;
    if Next(c, r.pos) != 1 {
      assert ReplayFrom(c, u, sequence, 1, rounds) == ReplayFrom(c, r.(pos := Next(c, r.pos)), sequence, 1, rounds - 1);
    }
  }

  /** The first block of the stale descriptor ends up with what happens to follow the descriptor. */
  lemma StaleHome(c: Layout, d: Disk, e: Disk, txn: seq<DiskWrite>, stale: seq<Word>)
    requires LayoutOk(c) && DataOk(c, txn) && |stale| > 0 && stale[0] != NIL && forall i :: 0 < i < |stale| ==> stale[i] != stale[0]
    ensures Read(c, Apply(e, Replayed(c, d, stale, Resume(c), 0)), stale[0]) == Read(c, d, Phys(c, Next(c, Resume(c))))
  {
    hide Read;
    var ws := Replayed(c, d, stale, Resume(c), 0);
    forall i | 0 <= i < |ws| ensures |ws[i].data| == c.words && (i > 0 ==> ws[i].block != stale[0]) { ReplayedAt(c, d, stale, Resume(c), 0, i); }
    ReadApply(c, e, ws, stale[0]);
    LastDataUnique(ws, 0);
    assert ws[0].block == stale[0];
  }

  /**
   A transaction begun on an idle journal that carries a stale descriptor of its number where the scan goes on is torn:
   a crash right after its commit makes recovery overwrite a block it does not contain.
   */
  lemma StaleHeaderTears(c: Layout, d: Disk, sequence: Word, stale: seq<Word>, txn: seq<DiskWrite>)
    requires LayoutOk(c) && TxnOk(c, txn) && StaleCase(c, d, sequence, stale, txn, CrashDisk(c, d, sequence, txn, |txn| + 3))
    ensures !AtomicFor(c, d, sequence, txn)
  {
    hide Recover, Read, Apply, Replayed, Names, CopiesOk, NotLive, CrashDisk;
    var e, h := CrashDisk(c, d, sequence, txn, |txn| + 3), stale[0];
    CommitRecords(c, d, sequence, txn);
    StaleHome(c, e, Apply(e, txn), txn, stale);
    ReadApply(c, d, txn, h);
    assert !Writes(txn, h);
    forall rounds: nat | rounds >= 2 ensures !Settles(c, d, txn, Restart(c, e, rounds, [])) {
      RecoverStale(c, e, sequence, txn, stale, rounds);
      if Recover(c, e, rounds).1 {
        assert h !in c.blocks;
      }
    }
    assert !AtomicAt(c, d, txn, e);
  }

  /**
   A transaction is crash atomic exactly when the journal it starts on has nothing to replay and no header of the same
   number lies where the scan after it goes on. The hypotheses only keep the two failing cases from copying equal data.
   */
  lemma AtomicIff(c: Layout, d: Disk, sequence: Word, old_: seq<DiskWrite>, stale: seq<Word>, txn: seq<DiskWrite>)
    requires LayoutOk(c) && TxnOk(c, txn)
    requires if Idle(c, d) then Prepared(c, d, sequence) else DirtyCase(c, d, sequence, old_, txn)
    requires Idle(c, d) && !NotLive(Read(c, d, Phys(c, Resume(c))), sequence) ==>
      StaleCase(c, d, sequence, stale, txn, CrashDisk(c, d, sequence, txn, |txn| + 3))
    ensures AtomicFor(c, d, sequence, txn) <==> Idle(c, d) && NotLive(Read(c, d, Phys(c, Resume(c))), sequence)
  {
    hide CrashDisk, Restart, DirtyCase, StaleCase, NotLive;
    if !Idle(c, d) {
      DirtyStartTears(c, d, sequence, old_, txn);
    } else if !NotLive(Read(c, d, Phys(c, Resume(c))), sequence) {
      StaleHeaderTears(c, d, sequence, stale, txn);
    } else {
      forall k | 0 <= k <= 2 * |txn| + 4 ensures AtomicAt(c, d, txn, CrashDisk(c, d, sequence, txn, k)) {
        CrashAtomic(c, d, sequence, txn, k, 2, []);
        assert Settles(c, d, txn, Restart(c, CrashDisk(c, d, sequence, txn, k), 2, []));
      }
    }
  }
}
