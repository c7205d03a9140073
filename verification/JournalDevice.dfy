/**
 The journal code as it runs: a transaction record and a descriptor buffer changed step by
 step, ordered disk writes, and the recovery scan as nested loops.
 */
module Ext3 {
  import opened Journal

  class JournalDevice {
    const c: Layout
    var disk: Disk
    var active: bool
    var sequence: Word
    var startBlock: int
    var desc: Block
    var count: int
    /** The disk when the transaction started (or at mount), and every write issued since, in order. */
    ghost var base: Disk
    ghost var issued: seq<DiskWrite>
    /** The blocks journalled by the open transaction. */
    ghost var txn: seq<DiskWrite>

    /** The disk is what the issued writes made of it, so every prefix of them is a crash point. */
    ghost predicate Logged()
      reads this
    {
      LayoutOk(c) && disk == Apply(base, issued)
    }

    ghost predicate Valid()
      reads this
    {
      && Logged()
      && (active ==>
            && startBlock == 1 && count == |txn| && TxnOk(c, txn)
            && desc == Descriptor(c, sequence, txn)
            && issued == DataWrites(c, txn))
    }

    constructor (c: Layout, disk: Disk, sequence: Word)
      requires LayoutOk(c)
      ensures Valid() && !active && this.c == c && this.disk == disk && this.sequence == sequence
    {
      this.c, this.disk, this.sequence := c, disk, sequence;
      active, startBlock, desc, count := false, 0, [], 0;
      issued, txn, base := [], [], disk;
    }

    method WriteBlock(b: Word, data: Block)
      requires Logged()
      modifies `disk, `issued
      ensures Logged() && issued == old(issued) + [DiskWrite(b, data)] && disk == Write(old(disk), b, data)
    {
      ghost var w := DiskWrite(b, data);
      ApplyAppend(base, issued, [w]);
      ApplyOne(disk, w);
      if b != NIL { disk := disk[b := data]; }
      issued := issued + [w];
    }

    /** Opens a transaction; refused while one is open. */
    method Start() returns (ok: bool)
      requires Valid()
      modifies this
      ensures Valid() && ok == !old(active) && active && disk == old(disk) && sequence == old(sequence)
      ensures ok ==> txn == [] && base == old(disk)
      ensures !ok ==> txn == old(txn) && base == old(base)
    {
      if active { return false; }
      active, count, startBlock := true, 0, 1;
      desc := Zero(c);
      desc := desc[0 := Bswap(MAGIC)];
      desc := desc[1 := Bswap(DESCRIPTOR)];
      desc := desc[2 := Bswap(sequence)];
      txn, base, issued := [], disk, [];
      ok := true;
    }

    /** Fills in the descriptor's next tag. */
    method AddTag(b: Word, data: Block)
      requires c.words >= 3 && 0 <= count && 4 + 2 * count < c.words && |desc| == c.words && |data| > 0
      modifies `desc
      ensures desc == old(desc)[3 + 2 * count := Bswap(b)][4 + 2 * count := TagFlags(data)]
    {
      desc := desc[3 + 2 * count := Bswap(b)];
      desc := desc[4 + 2 * count := NIL];
      if data[0] == Bswap(MAGIC) { desc := desc[4 + 2 * count := Or(NIL, Bswap(FLAG_ESCAPE))]; }
    }

    /** Journals one block, or writes it straight home when no transaction is open. */
    method JournalBlock(b: Word, data: Block) returns (ok: bool)
      requires Valid() && |data| == c.words && b !in c.blocks
      modifies this
      ensures Valid() && active == old(active) && sequence == old(sequence) && base == old(base)
      ensures !active ==> ok && disk == Write(old(disk), b, data)
      ensures active ==> (ok <==> 6 + 2 * |old(txn)| <= c.words)
      ensures active && ok ==> txn == old(txn) + [DiskWrite(b, data)]
      ensures active && !ok ==> txn == old(txn) && disk == old(disk) && issued == old(issued)
    {
      hide Descriptor, DataWrites, Apply;
      ok := true;
      if !active {
        WriteBlock(b, data);
      } else if 3 + 2 * count + 2 > c.words {
        ok := false;
      } else {
        Record(b, data);
      }
    }

    /** Adds the tag and writes the data to the next journal position. */
    method Record(b: Word, data: Block)
      requires Valid() && active && |data| == c.words && b !in c.blocks && 6 + 2 * |txn| <= c.words
      modifies `desc, `disk, `issued, `txn, `count
      ensures Valid() && txn == old(txn) + [DiskWrite(b, data)] && base == old(base)
    {
      hide Descriptor, DataWrites, Apply;
      TxnSnoc(c, sequence, txn, DiskWrite(b, data));
      AddTag(b, data);
      WriteBlock(Phys(c, startBlock + 1 + count), data);
      txn, count := txn + [DiskWrite(b, data)], count + 1;
    }

    /** The descriptor with its last tag marked, then the commit block. */
    method Seal()
      requires Valid() && active
      modifies `disk, `issued, `desc
      ensures Logged() && desc == MarkLast(Descriptor(c, sequence, txn), |txn|)
      ensures issued == old(issued) + [DiskWrite(Phys(c, 1), desc)] + [DiskWrite(Phys(c, 2 + |txn|), CommitBlock(c, sequence))]
    {
      hide Descriptor, DataWrites, Apply, CommitBlock;
      if count > 0 {
        desc := desc[2 + 2 * count := Or(desc[2 + 2 * count], Bswap(FLAG_LAST_TAG))];
      }
      WriteBlock(Phys(c, startBlock), desc);
      WriteBlock(Phys(c, startBlock + 1 + count), CommitBlock(c, sequence));
    }

    /** The superblock update that commits: from here on recovery replays the transaction. */
    method MarkStart() returns (sb: Block)
      requires Logged() && active && startBlock == 1 && TxnOk(c, txn)
      requires issued == CommitWrites(c, Read(c, base, Phys(c, 0)), sequence, txn)[..|txn| + 2]
      modifies `disk, `issued
      ensures Logged() && sb == Read(c, base, Phys(c, 0))[S_START := Bswap(ONE)]
      ensures issued == CommitWrites(c, Read(c, base, Phys(c, 0)), sequence, txn)
    {
      SuperblockIntact(c, base, sequence, txn);
      sb := Read(c, disk, Phys(c, 0));
      sb := sb[S_START := Bswap(ONE)];
      WriteBlock(Phys(c, 0), sb);
    }

    /** Copies every journalled block to its home, reading it back from the journal. */
    method CopyHome(ghost cw: seq<DiskWrite>)
      requires Logged() && startBlock == 1 && count == |txn| && 4 + 2 * |txn| <= c.words && |desc| == c.words
      requires forall i :: 0 <= i < |txn| ==> Bswap(desc[3 + 2 * i]) == txn[i].block
      requires issued == cw && Readable(c, base, cw, txn)
      modifies `disk, `issued
      ensures Logged() && issued == cw + txn
    {
      var i := 0;
      while i < count
        invariant 0 <= i <= count && Logged() && issued == cw + txn[..i]
      {
        var target := Bswap(desc[3 + 2 * i]);
        var data := Read(c, disk, Phys(c, startBlock + 1 + i));
        assert data == CopyAfter(c, base, cw, txn, i);
        WriteBlock(target, data);
        assert cw + txn[..i] + [txn[i]] == cw + txn[..i + 1];
        i := i + 1;
      }
      assert txn[..count] == txn;
    }

    /** Commits the open transaction: journal, superblock, home blocks, superblock, in that order. */
    method Stop()
      requires Valid()
      modifies this
      ensures Valid() && !active && base == old(base)
      ensures !old(active) ==> disk == old(disk) && issued == old(issued) && sequence == old(sequence)
      ensures old(active) ==> sequence == Succ(old(sequence)) && Value(sequence) == (Value(old(sequence)) + 1) % 0x1_0000_0000
      ensures old(active) ==> issued == TxnWrites(c, Read(c, base, Phys(c, 0)), old(sequence), old(txn))
    {
      hide Descriptor, DataWrites, Apply, CommitWrites, CommitBlock, Value, Succ;
      if active {
        var sb := Commit();
        SuccValue(sequence);
        sequence := Succ(sequence);
        active := false;
        sb := sb[S_SEQUENCE := Bswap(sequence)];
        sb := sb[S_START := NIL];
        RestartedFields(Read(c, base, Phys(c, 0)), Bswap(ONE), Bswap(sequence));
        WriteBlock(Phys(c, 0), sb);
      }
    }

    /** Everything up to the last home write; returns the superblock buffer. */
    method Commit() returns (sb: Block)
      requires Valid() && active
      modifies `disk, `issued, `desc
      ensures Logged() && sb == Read(c, base, Phys(c, 0))[S_START := Bswap(ONE)]
      ensures issued == CommitWrites(c, Read(c, base, Phys(c, 0)), sequence, txn) + txn
    {
      hide Descriptor, DataWrites, Apply, CommitWrites, CommitBlock;
      Seal();
      CommitPrefix(c, Read(c, base, Phys(c, 0)), sequence, txn);
      sb := MarkStart();
      AllReadable(c, base, Read(c, base, Phys(c, 0)), sequence, txn);
      CommittedDescriptor(c, sequence, txn);
      CopyHome(issued);
    }

    /** Replays one descriptor block: copies each tagged block home until the block's last tag slot. */
    method ReplayDescriptor(tags: Block, from: int) returns (pos: int)
      requires Logged() && |tags| == c.words
      modifies `disk, `issued
      ensures Logged() && Scan(disk, issued, pos) == ReplayTags(c, Scan(old(disk), old(issued), from), tags, 0)
    {
      ghost var goal := ReplayTags(c, Scan(disk, issued, from), tags, 0);
      pos := from;
      var j, last := 0, false;
      while 3 + 2 * j < c.words && !last
        invariant 0 <= j && Logged()
        invariant !last ==> ReplayTags(c, Scan(disk, issued, pos), tags, j) == goal
        invariant last ==> Scan(disk, issued, pos) == goal
        decreases c.words - 2 * j, !last
      {
        var flags := if 4 + 2 * j < c.words then tags[4 + 2 * j] else c.stray;
        pos := Next(c, pos);
        var data := Read(c, disk, Phys(c, pos));
        if HasBits(Bswap(Bswap(flags)), FLAG_ESCAPE) { data := data[0 := Bswap(MAGIC)]; }
        WriteBlock(Bswap(tags[3 + 2 * j]), data);
        last := HasBits(Bswap(Bswap(flags)), FLAG_LAST_TAG);
        j := j + 1;
      }
    }

    /** The recovery scan, at most `rounds` header blocks long; `done` tells whether it stopped by itself. */
    method ReplayLog(start: int, seq0: Word, rounds: nat) returns (done: bool)
      requires Logged()
      modifies `disk, `issued
      ensures Logged()
      ensures var (s, ok) := ReplayFrom(c, Scan(old(disk), old(issued), start), seq0, start, rounds);
        disk == s.disk && issued == s.writes && done == ok
    {
      hide ReplayTags, Apply;
      ghost var goal := ReplayFrom(c, Scan(disk, issued, start), seq0, start, rounds);
      var pos, seq_, n := start, seq0, rounds;
      done := false;
      while n > 0 && !done
        invariant Logged()
        invariant !done ==> ReplayFrom(c, Scan(disk, issued, pos), seq_, start, n) == goal
        invariant done ==> (Scan(disk, issued, pos), true) == goal
        decreases n, !done
      {
        var header := Read(c, disk, Phys(c, pos));
        if Bswap(header[0]) != MAGIC || Bswap(header[2]) != seq_ {
          done := true;
        } else if Bswap(header[1]) != DESCRIPTOR && Bswap(header[1]) != COMMIT {
          done := true;
        } else {
          if Bswap(header[1]) == DESCRIPTOR {
            pos := ReplayDescriptor(header, pos);
          } else {
            seq_ := Succ(seq_);
          }
          pos := Next(c, pos);
          if pos == start { done := true; }
          n := n - 1;
        }
      }
    }

    /** What mounting does: recover when the superblock is marked, otherwise nothing. */
    method Mount(rounds: nat) returns (done: bool)
      requires Valid() && !active
      modifies this
      ensures Valid() && !active && base == old(disk)
      ensures disk == Recover(c, old(disk), rounds).0.disk && done == Recover(c, old(disk), rounds).1
      ensures issued == Recover(c, old(disk), rounds).0.writes
      ensures var sb := Read(c, old(disk), Phys(c, 0)); sequence == if Bswap(sb[0]) == MAGIC then Bswap(sb[S_SEQUENCE]) else old(sequence)
    {
      base, issued := disk, [];
      var sb := Read(c, disk, Phys(c, 0));
      if Bswap(sb[0]) != MAGIC { return true; }
      sequence := Bswap(sb[S_SEQUENCE]);
      var start := Bswap(sb[S_START]);
      if start == NIL { return true; }
      done := ReplayLog(Value(start), sequence, rounds);
    }
  }

  lemma CommitPrefix(c: Layout, sb: Block, sequence: Word, txn: seq<DiskWrite>)
    requires c.words >= 8 && |sb| == c.words
    ensures CommitWrites(c, sb, sequence, txn)[..|txn| + 2]
         == DataWrites(c, txn) + [DiskWrite(Phys(c, 1), MarkLast(Descriptor(c, sequence, txn), |txn|))]
            + [DiskWrite(Phys(c, 2 + |txn|), CommitBlock(c, sequence))]
  {
  }

  lemma RestartedFields(sb: Block, start: Word, sequence: Word)
    requires |sb| >= 8
    ensures sb[S_START := start][S_SEQUENCE := sequence][S_START := NIL] == sb[S_SEQUENCE := sequence][S_START := NIL]
  {
  }

  lemma ApplyOne(d: Disk, w: DiskWrite)
    ensures Apply(d, [w]) == Write(d, w.block, w.data)
  {
    assert [w][1..] == [];
  }

  lemma TxnSnoc(c: Layout, sequence: Word, txn: seq<DiskWrite>, w: DiskWrite)
    requires LayoutOk(c) && TxnOk(c, txn) && |w.data| == c.words && w.block !in c.blocks && 6 + 2 * |txn| <= c.words
    ensures TxnOk(c, txn + [w])
    ensures var n := |txn|;
      Descriptor(c, sequence, txn + [w])
      == Descriptor(c, sequence, txn)[3 + 2 * n := Bswap(w.block)][4 + 2 * n := TagFlags(w.data)]
    ensures DataWrites(c, txn + [w]) == DataWrites(c, txn) + [DiskWrite(Phys(c, 2 + |txn|), w.data)]
  {
    DescriptorStep(c, sequence, txn, w);
    assert (txn + [w])[..|txn|] == txn;
  }

  /** The superblock is still as it was when its buffer is read at commit. */
  lemma SuperblockIntact(c: Layout, d: Disk, sequence: Word, txn: seq<DiskWrite>)
    requires LayoutOk(c) && TxnOk(c, txn)
    ensures var sb := Read(c, d, Phys(c, 0));
      Read(c, Apply(d, CommitWrites(c, sb, sequence, txn)[..|txn| + 2]), Phys(c, 0)) == sb
  {
    var sb := Read(c, d, Phys(c, 0));
    var ws := CommitWrites(c, sb, sequence, txn)[..|txn| + 2];
    CommitWritesShape(c, sb, sequence, txn);
    forall i | 0 <= i < |ws| ensures ws[i].block != Phys(c, 0) { CommitWriteAt(c, sb, sequence, txn, i); }
    ReadApply(c, d, ws, Phys(c, 0));
  }

  /** What the journal's copy of block i reads as after the commit writes and i home writes. */
  function CopyAfter(c: Layout, d: Disk, cw: seq<DiskWrite>, txn: seq<DiskWrite>, i: int): Block
    requires c.words >= 0 && 0 <= i <= |txn|
  {
    Read(c, Apply(d, cw + txn[..i]), Phys(c, 2 + i))
  }

  ghost predicate Readable(c: Layout, d: Disk, cw: seq<DiskWrite>, txn: seq<DiskWrite>)
    requires c.words >= 0
  {
    forall i :: 0 <= i < |txn| ==> CopyAfter(c, d, cw, txn, i) == txn[i].data
  }

  lemma AllReadable(c: Layout, d: Disk, sb: Block, sequence: Word, txn: seq<DiskWrite>)
    requires LayoutOk(c) && TxnOk(c, txn) && |sb| == c.words
    ensures Readable(c, d, CommitWrites(c, sb, sequence, txn), txn)
  {
    var cw := CommitWrites(c, sb, sequence, txn);
    forall i | 0 <= i < |txn| ensures CopyAfter(c, d, cw, txn, i) == txn[i].data {
      ReadCommitWrite(c, d, sb, sequence, txn, i);
      CopyKept(c, d, cw, txn, i);
    }
  }

  lemma CopyKept(c: Layout, d: Disk, cw: seq<DiskWrite>, txn: seq<DiskWrite>, i: int)
    requires c.words >= 0 && TxnOk(c, txn) && 0 <= i < |txn|
    ensures CopyAfter(c, d, cw, txn, i) == Read(c, Apply(d, cw), Phys(c, 2 + i))
  {
    ApplyAppend(d, cw, txn[..i]);
    HomeWritesKeepJournal(c, Apply(d, cw), txn[..i], 2 + i);
  }
}
