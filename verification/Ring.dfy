/**
 The ring buffers between the two sides of a pseudoterminal, kept in arrays with a head and a tail.
 */
module Ring {
  const SIZE: int := 4096

  /** The bytes from tail round to head. */
  function Unroll(b: seq<int>, head: int, tail: int): (r: seq<int>)
    requires |b| == SIZE && 0 <= head < SIZE && 0 <= tail < SIZE
    ensures |r| == Used(head, tail)
  {
    if head >= tail then b[tail..head] else b[tail..] + b[..head]
  }

  /** The position i places after p. */
  function Slot(p: int, i: int): int { if p + i < SIZE then p + i else p + i - SIZE }

  function Used(head: int, tail: int): int {
    if head >= tail then head - tail else SIZE - tail + head
  }

  function Free(head: int, tail: int): int { SIZE - Used(head, tail) - 1 }

  class Ring {
    const buffer: array<int>
    var head: int
    var tail: int

    ghost predicate Valid()
      reads this
    {
      buffer.Length == SIZE && 0 <= head < SIZE && 0 <= tail < SIZE
    }

    ghost function Contents(): seq<int>
      requires Valid()
      reads this, buffer
    {
      Unroll(buffer[..], head, tail)
    }

    constructor ()
      ensures Valid() && fresh(buffer) && Contents() == []
    {
      buffer := new int[SIZE];
      head, tail := 0, 0;
    }

    /** Appends as much of data as fits, in two copies when it wraps around. */
    method Write(data: seq<int>) returns (n: int)
      requires Valid()
      modifies this, buffer
      ensures Valid() && tail == old(tail)
      ensures n == if |data| < SIZE - 1 - |old(Contents())| then |data| else SIZE - 1 - |old(Contents())|
      ensures 0 <= n <= |data| && Contents() == old(Contents()) + data[..n]
    {
      var free := Free(head, tail);
      if free == 0 { return 0; }
      n := if |data| < free then |data| else free;
      ghost var b := buffer[..];
      CopyIn(head, data[..n]);
      WriteUnrolled(b, buffer[..], head, tail, data[..n]);
      head := (head + n) % SIZE;
    }

    /** Copies data to position h and, past the end of the buffer, to its start. */
    method CopyIn(h: int, data: seq<int>)
      requires Valid() && 0 <= h < SIZE && |data| < SIZE
      modifies buffer
      ensures forall i :: 0 <= i < |data| ==> buffer[..][Slot(h, i)] == data[i]
      ensures forall j :: 0 <= j < SIZE && !(h <= j < h + |data|) && !(j < h + |data| - SIZE) ==> buffer[..][j] == old(buffer[..])[j]
    {
      var first := SIZE - h;
      if first > |data| { first := |data|; }
      forall i | 0 <= i < first { buffer[h + i] := data[i]; }
      forall i | 0 <= i < |data| - first { buffer[i] := data[first + i]; }
    }

    /** Removes up to len bytes from the front. */
    method Read(len: int) returns (data: seq<int>)
      requires Valid() && len >= 0
      modifies `tail
      ensures Valid() && |data| == if len < |old(Contents())| then len else |old(Contents())|
      ensures old(Contents()) == data + Contents()
    {
      var used := Used(head, tail);
      if used == 0 { return []; }
      var n := if len < used then len else used;
      var first := SIZE - tail;
      if first > n { first := n; }
      data := buffer[tail..tail + first] + buffer[..n - first];
      ReadUnrolled(buffer[..], head, tail, n);
      tail := (tail + n) % SIZE;
    }

    /** The last byte queued. */
    method Last() returns (c: int)
      requires Valid() && Contents() != []
      ensures c == Contents()[|Contents()| - 1]
    {
      UnrollAt(buffer[..], head, tail, Used(head, tail) - 1);
      c := buffer[(head + SIZE - 1) % SIZE];
    }

    /** Takes the last byte back. */
    method DropLast()
      requires Valid() && Contents() != []
      modifies `head
      ensures Valid() && Contents() == old(Contents())[..|old(Contents())| - 1]
    {
      ghost var h := head;
      head := (head + SIZE - 1) % SIZE;
      assert Used(head, tail) == Used(h, tail) - 1;
    }
  }

  lemma UnrollAt(b: seq<int>, head: int, tail: int, i: int)
    requires |b| == SIZE && 0 <= head < SIZE && 0 <= tail < SIZE && 0 <= i < Used(head, tail)
    ensures Unroll(b, head, tail)[i] == b[Slot(tail, i)]
  {
  }

  /** What writing from the old head on, around the end of the buffer, does to the contents. */
  lemma WriteUnrolled(b: seq<int>, c: seq<int>, head: int, tail: int, data: seq<int>)
    requires |b| == |c| == SIZE && 0 <= head < SIZE && 0 <= tail < SIZE && |data| <= Free(head, tail)
    requires forall i :: 0 <= i < |data| ==> c[Slot(head, i)] == data[i]
    requires forall j :: 0 <= j < SIZE && !(head <= j < head + |data|) && !(j < head + |data| - SIZE) ==> c[j] == b[j]
    ensures Unroll(c, (head + |data|) % SIZE, tail) == Unroll(b, head, tail) + data
  {
    var h, used := (head + |data|) % SIZE, Used(head, tail);
    assert h == Slot(head, |data|);
    assert Used(h, tail) == used + |data|;
    forall i | 0 <= i < used + |data| ensures Unroll(c, h, tail)[i] == (Unroll(b, head, tail) + data)[i] {
      UnrollAt(c, h, tail, i);
      if i >= used { assert Slot(tail, i) == Slot(head, i - used); } else { UnrollAt(b, head, tail, i); }
    }
  }

  /** Advancing the tail by n splits the contents after the first n bytes, which lie in one or two stretches. */
  lemma ReadUnrolled(b: seq<int>, head: int, tail: int, n: int)
    requires |b| == SIZE && 0 <= head < SIZE && 0 <= tail < SIZE && 0 <= n <= Used(head, tail)
    ensures var first := if SIZE - tail > n then n else SIZE - tail;
      Unroll(b, head, tail) == b[tail..tail + first] + b[..n - first] + Unroll(b, head, (tail + n) % SIZE)
  {
    var first := if SIZE - tail > n then n else SIZE - tail;
    var t := (tail + n) % SIZE;
    assert t == Slot(tail, n);
    var r := b[tail..tail + first] + b[..n - first] + Unroll(b, head, t);
    assert Used(head, t) == Used(head, tail) - n;
    forall i | 0 <= i < |r| ensures r[i] == Unroll(b, head, tail)[i] {
      UnrollAt(b, head, tail, i);
      if i >= n {
        UnrollAt(b, head, t, i - n);
        assert Slot(t, i - n) == Slot(tail, i);
      }
    }
  }
}
