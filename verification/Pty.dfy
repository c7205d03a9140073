/**
 The line discipline of a pseudoterminal: input with erase and echo, canonical and raw reads, output with
 newline expansion, and the count of newlines that canonical reads depend on.
 */
module Pty {
  import R = Ring

  const CAPACITY: int := 4095
  const NL: int := 10
  const CR: int := 13
  const BS: int := 8
  const SPACE: int := 32

  datatype Mode = Mode(icanon: bool, echo: bool, icrnl: bool, opost: bool, onlcr: bool, erase: int)

  /** What is queued in both directions, and the count of newlines queued for the slave. */
  datatype Line = Line(m2s: seq<int>, s2m: seq<int>, newlines: int)

  function Newlines(s: seq<int>): (n: nat) {
    if s == [] then 0 else Newlines(s[..|s| - 1]) + if s[|s| - 1] == NL then 1 else 0
  }

  /** A ring with as much of d appended as fits. */
  function Push(s: seq<int>, d: seq<int>): seq<int> {
    s + d[..if |d| < CAPACITY - |s| then |d| else if CAPACITY < |s| then 0 else CAPACITY - |s|]
  }

  // ---------------------------------------------------------------- input

  datatype Fed = Taken | Ignored | Full

  function Translate(mode: Mode, c: int): int { if c == CR && mode.icrnl then NL else c }

  /** One input byte: erase, or queue and echo. */
  function Feed(l: Line, mode: Mode, b: int): (Line, Fed) {
    var c := Translate(mode, b);
    if mode.icanon && c == mode.erase then
      if l.m2s != [] && l.m2s[|l.m2s| - 1] != NL then
        (l.(m2s := l.m2s[..|l.m2s| - 1], s2m := if mode.echo then Push(l.s2m, [BS, SPACE, BS]) else l.s2m), Taken)
      else (l, Ignored)
    else if |l.m2s| >= CAPACITY then (l, Full)
    else
      var echoed := if !mode.echo then l.s2m else Push(if c == NL && mode.onlcr then Push(l.s2m, [CR]) else l.s2m, [c]);
      (Line(l.m2s + [c], echoed, l.newlines + if c == NL then 1 else 0), Taken)
  }

  /** Input bytes one by one until the ring is full; also how many were taken. */
  function Input(l: Line, mode: Mode, data: seq<int>): (Line, int)
    decreases |data|
  {
    if data == [] then (l, 0)
    else
      match Feed(l, mode, data[0])
      case (_, Full) => (l, 0)
      case (l', fed) =>
        var (l'', n) := Input(l', mode, data[1..]);
        (l'', n + if fed == Taken then 1 else 0)
  }

  lemma FullUnchanged(l: Line, mode: Mode, b: int)
    requires Feed(l, mode, b).1 == Full
    ensures Feed(l, mode, b).0 == l
  {
  }

  /** In canonical mode the count is exact. */
  ghost predicate Counted(l: Line, mode: Mode) {
    mode.icanon ==> l.newlines == Newlines(l.m2s)
  }

  lemma NewlinesSnoc(s: seq<int>, c: int)
    ensures Newlines(s + [c]) == Newlines(s) + if c == NL then 1 else 0
  {
    assert (s + [c])[..|s|] == s;
  }

  lemma FeedCounted(l: Line, mode: Mode, b: int)
    requires Counted(l, mode)
    ensures Counted(Feed(l, mode, b).0, mode)
  {
    NewlinesSnoc(l.m2s, Translate(mode, b));
  }

  /** Erases, partial queues and echoes keep the count exact. */
  lemma {:induction false} InputCounted(l: Line, mode: Mode, data: seq<int>)
    requires Counted(l, mode)
    ensures Counted(Input(l, mode, data).0, mode)
    decreases |data|
  {
    if data != [] {
      FeedCounted(l, mode, data[0]);
      InputCounted(Feed(l, mode, data[0]).0, mode, data[1..]);
    }
  }

  /** What is queued for input bytes, none of which is an erase: each byte, a carriage return as newline under ICRNL. */
  function Typed(mode: Mode, data: seq<int>): (r: seq<int>)
    ensures |r| == |data| && forall i :: 0 <= i < |data| ==> r[i] == if data[i] == CR && mode.icrnl then NL else data[i]
  {
    seq(|data|, i requires 0 <= i < |data| => if data[i] == CR && mode.icrnl then NL else data[i])
  }

  /** What echoing bytes adds to the output: the bytes, as the slave's own output of them would be expanded. */
  function Echoed(mode: Mode, s: seq<int>): seq<int> {
    if !mode.echo then [] else if mode.onlcr then Expand(s) else s
  }

  ghost predicate NoErase(mode: Mode, data: seq<int>) {
    mode.icanon ==> forall i :: 0 <= i < |data| ==> Typed(mode, data)[i] != mode.erase
  }

  lemma FeedQueues(l: Line, mode: Mode, b: int)
    requires |l.m2s| < CAPACITY && (mode.icanon ==> Typed(mode, [b])[0] != mode.erase)
    ensures var (r, fed) := Feed(l, mode, b); var c := Typed(mode, [b]);
      && fed == Taken && r.m2s == l.m2s + c
      && (|l.s2m| + |Echoed(mode, c)| <= CAPACITY ==> r.s2m == l.s2m + Echoed(mode, c))
  {
    var c := Typed(mode, [b]);
    assert c == [Translate(mode, b)];
    assert Expand(c) == ExpandByte(c[0]) by { assert c[..0] == [] && Expand([]) == []; }
    assert c[..1] == c && [CR][..1] == [CR] && (l.s2m + [CR]) + c == l.s2m + ([CR] + c);
  }

  lemma EchoedSplit(mode: Mode, a: seq<int>, b: seq<int>)
    ensures Echoed(mode, a + b) == Echoed(mode, a) + Echoed(mode, b)
  {
    ExpandSplit(a, b);
  }

  /**
   In every mode, input without erases is queued byte for byte as far as it fits, and that many bytes are taken; with
   room in the other ring its echo is exactly what was queued.
   */
  lemma {:induction false} InputQueues(l: Line, mode: Mode, data: seq<int>)
    requires |l.m2s| <= CAPACITY && NoErase(mode, data)
    ensures var (r, n) := Input(l, mode, data);
      && r.m2s == Push(l.m2s, Typed(mode, data)) && |r.m2s| == |l.m2s| + n && 0 <= n <= |data|
      && (|l.s2m| + |Echoed(mode, Typed(mode, data)[..n])| <= CAPACITY ==> r.s2m == l.s2m + Echoed(mode, Typed(mode, data)[..n]))
    decreases |data|
  {
    hide Feed, Expand, Translate, Typed, Echoed, Push;
    if data == [] || |l.m2s| >= CAPACITY {
      NothingQueued(l, mode, data);
    } else {
      var t, rest := Typed(mode, data), data[1..];
      TypedSplit(mode, data);
      FeedQueues(l, mode, data[0]);
      var u := Feed(l, mode, data[0]).0;
      InputQueues(u, mode, rest);
      var (r, n) := Input(u, mode, rest);
      assert Input(l, mode, data) == (r, n + 1);
      PushSplit(l.m2s, t);
      assert t[..n + 1] == t[..1] + t[1..][..n];
      EchoMore(mode, l.s2m, u.s2m, r.s2m, t[..1], t[1..][..n]);
    }
  }

  lemma TypedSplit(mode: Mode, data: seq<int>)
    requires data != []
    ensures Typed(mode, [data[0]]) == Typed(mode, data)[..1] && Typed(mode, data[1..]) == Typed(mode, data)[1..]
  {
  }

  lemma PushSplit(s: seq<int>, t: seq<int>)
    requires t != [] && |s| < CAPACITY
    ensures Push(s + t[..1], t[1..]) == Push(s, t)
  {
  }

  /** Two echoes one after the other, in a ring with room for both. */
  lemma EchoMore(mode: Mode, s: seq<int>, u: seq<int>, r: seq<int>, a: seq<int>, b: seq<int>)
    requires |s| + |Echoed(mode, a)| <= CAPACITY ==> u == s + Echoed(mode, a)
    requires |u| + |Echoed(mode, b)| <= CAPACITY ==> r == u + Echoed(mode, b)
    ensures |s| + |Echoed(mode, a + b)| <= CAPACITY ==> r == s + Echoed(mode, a + b)
  {
    hide Echoed;
    EchoedSplit(mode, a, b);
  }

  lemma NothingQueued(l: Line, mode: Mode, data: seq<int>)
    requires |l.m2s| <= CAPACITY && NoErase(mode, data) && (data == [] || |l.m2s| >= CAPACITY)
    ensures Input(l, mode, data) == (l, 0) && Push(l.m2s, Typed(mode, data)) == l.m2s && Echoed(mode, []) == []
  {
    if data != [] { assert Translate(mode, data[0]) == Typed(mode, data)[0]; }
  }

  /** A byte typed and erased leaves the queue as it was, and with room its echo is the byte rubbed out. */
  lemma EraseUndoes(l: Line, mode: Mode, b: int, e: int)
    requires mode.icanon && |l.m2s| < CAPACITY && Typed(mode, [e])[0] == mode.erase
    requires var c := Typed(mode, [b])[0]; c != mode.erase && c != NL
    ensures var r := Feed(Feed(l, mode, b).0, mode, e);
      && Input(l, mode, [b, e]) == (r.0, 2)
      && r.1 == Taken && r.0.m2s == l.m2s && r.0.newlines == l.newlines
      && (|l.s2m| + 4 <= CAPACITY ==> r.0.s2m == l.s2m + if mode.echo then [Typed(mode, [b])[0], BS, SPACE, BS] else [])
  {
    var c := Translate(mode, b);
    assert Typed(mode, [b]) == [c] && Typed(mode, [e]) == [Translate(mode, e)];
    assert (l.m2s + [c])[..|l.m2s|] == l.m2s && [c][..1] == [c] && [BS, SPACE, BS][..3] == [BS, SPACE, BS];
    assert (l.s2m + [c]) + [BS, SPACE, BS] == l.s2m + [c, BS, SPACE, BS];
    InputTwo(l, mode, b, e);
  }

  lemma InputTwo(l: Line, mode: Mode, b: int, e: int)
    requires Feed(l, mode, b).1 == Taken && Feed(Feed(l, mode, b).0, mode, e).1 == Taken
    ensures Input(l, mode, [b, e]) == (Feed(Feed(l, mode, b).0, mode, e).0, 2)
  {
    hide Feed;
    assert [b, e][1..] == [e] && [e][1..] == [];
    assert Input(Feed(l, mode, b).0, mode, [e]) == (Feed(Feed(l, mode, b).0, mode, e).0, 1);
  }

  /** An erase with nothing to take back, at the start of the queue or of a line, does nothing at all. */
  lemma EraseStops(l: Line, mode: Mode, e: int)
    requires mode.icanon && Typed(mode, [e])[0] == mode.erase && (l.m2s == [] || l.m2s[|l.m2s| - 1] == NL)
    ensures Feed(l, mode, e) == (l, Ignored) && Input(l, mode, [e]) == (l, 0)
  {
    assert Typed(mode, [e]) == [Translate(mode, e)];
    assert [e][1..] == [];
  }

  /** The raw fast path queues exactly what the byte-by-byte path would. */
  lemma {:induction false} RawSame(l: Line, mode: Mode, data: seq<int>)
    requires !mode.icanon && !mode.echo && !mode.icrnl && |l.m2s| <= CAPACITY
    ensures Input(l, mode, data).0.m2s == Push(l.m2s, data) && Input(l, mode, data).0.s2m == l.s2m
    ensures Input(l, mode, data).1 == |Push(l.m2s, data)| - |l.m2s|
    decreases |data|
  {
    if data != [] && |l.m2s| < CAPACITY {
      RawSame(Feed(l, mode, data[0]).0, mode, data[1..]);
      assert Push(l.m2s + [data[0]], data[1..]) == Push(l.m2s, data);
    }
  }

  /** Erase never takes back a line that was ended: the lines up to the last newline stay. */
  lemma EraseKeepsLines(l: Line, mode: Mode, b: int, n: int)
    requires 0 < n <= |l.m2s| && l.m2s[n - 1] == NL
    ensures n <= |Feed(l, mode, b).0.m2s| && Feed(l, mode, b).0.m2s[..n] == l.m2s[..n]
  {
  }

  // ---------------------------------------------------------------- canonical reads

  /** How far a canonical read goes: through the first newline, or to the size asked for. */
  function LineLength(s: seq<int>, size: int): (n: int)
    requires size >= 0
    ensures 0 <= n <= |s| && n <= size
  {
    if s == [] || size == 0 then 0 else if s[0] == NL then 1 else 1 + LineLength(s[1..], size - 1)
  }

  /** Only the last byte of what a canonical read takes can be a newline, and it is one if anything was left. */
  lemma {:induction false} LineShape(s: seq<int>, size: int)
    requires size >= 0
    ensures var n := LineLength(s, size);
      && (forall i :: 0 <= i < n - 1 ==> s[i] != NL)
      && (n < |s| && n < size ==> n > 0 && s[n - 1] == NL)
  {
    if s != [] && size > 0 && s[0] != NL { LineShape(s[1..], size - 1); }
  }

  lemma LineStep(s: seq<int>, size: int)
    requires size >= 0
    ensures s == [] || size == 0 ==> LineLength(s, size) == 0
    ensures s != [] && size > 0 ==> LineLength(s, size) == if s[0] == NL then 1 else 1 + LineLength(s[1..], size - 1)
  {
  }

  lemma {:induction false} NewlinesSplit(a: seq<int>, b: seq<int>)
    ensures Newlines(a + b) == Newlines(a) + Newlines(b)
    decreases |b|
  {
    if b == [] {
      assert a + b == a;
    } else {
      var c := b[..|b| - 1];
      assert (a + b)[..|a + b| - 1] == a + c;
      NewlinesSplit(a, c);
    }
  }

  lemma {:induction false} NewlinesNone(s: seq<int>)
    requires forall i :: 0 <= i < |s| ==> s[i] != NL
    ensures Newlines(s) == 0
  {
    if s != [] { NewlinesNone(s[..|s| - 1]); }
  }

  /** Something a slave may read at once. */
  ghost predicate Readable(s: seq<int>, mode: Mode) { s != [] && (mode.icanon ==> NL in s) }

  lemma {:induction false} NewlineQueued(s: seq<int>)
    ensures Newlines(s) > 0 <==> NL in s
  {
    if s != [] {
      NewlineQueued(s[..|s| - 1]);
      assert s == s[..|s| - 1] + [s[|s| - 1]];
    }
  }

  /** With a newline queued, a canonical read ends with it unless the buffer is full before. */
  lemma WholeLine(s: seq<int>, size: int)
    requires size >= 0 && NL in s
    ensures var n := LineLength(s, size); n > 0 ==> s[n - 1] == NL || n == size
  {
    LineShape(s, size);
  }

  /** A canonical read takes out one newline, its last byte, or none. */
  lemma LineNewlines(s: seq<int>, size: int)
    requires size >= 0
    ensures var n := LineLength(s, size);
      Newlines(s[n..]) == Newlines(s) - if n > 0 && s[n - 1] == NL then 1 else 0
  {
    var n := LineLength(s, size);
    LineShape(s, size);
    assert s == s[..n] + s[n..];
    NewlinesSplit(s[..n], s[n..]);
    if n > 0 {
      NewlinesNone(s[..n - 1]);
      assert s[..n] == s[..n - 1] + [s[n - 1]];
      NewlinesSnoc(s[..n - 1], s[n - 1]);
    }
  }

  // ---------------------------------------------------------------- output

  /** Output with each newline turned into carriage return and newline. */
  function Expand(s: seq<int>): seq<int> {
    if s == [] then [] else Expand(s[..|s| - 1]) + ExpandByte(s[|s| - 1])
  }

  function ExpandByte(c: int): seq<int> { if c == NL then [CR, NL] else [c] }

  lemma ExpandSnoc(s: seq<int>, c: int)
    ensures Expand(s + [c]) == Expand(s) + ExpandByte(c)
  {
    assert (s + [c])[..|s|] == s;
  }

  /** Writing in several pieces expands to the same output as writing at once. */
  lemma {:induction false} ExpandSplit(a: seq<int>, b: seq<int>)
    ensures Expand(a + b) == Expand(a) + Expand(b)
    decreases |b|
  {
    if b == [] {
      assert a + b == a;
    } else {
      var c := b[..|b| - 1];
      assert (a + b)[..|a + b| - 1] == a + c;
      ExpandSplit(a, c);
    }
  }

  /** Output with the carriage return before each newline taken out again. */
  function Collapse(s: seq<int>): seq<int> {
    if s == [] then []
    else if s[|s| - 1] == NL && |s| >= 2 && s[|s| - 2] == CR then Collapse(s[..|s| - 2]) + [NL]
    else Collapse(s[..|s| - 1]) + [s[|s| - 1]]
  }

  /** Expansion puts a carriage return before every newline, and taking them out gives what was written. */
  lemma {:induction false} ExpandCollapse(s: seq<int>)
    ensures forall i :: 0 <= i < |Expand(s)| && Expand(s)[i] == NL ==> i > 0 && Expand(s)[i - 1] == CR
    ensures CR !in s ==> Collapse(Expand(s)) == s
  {
    hide Collapse, Expand;
    if s == [] {
      NothingExpanded();
      NothingCollapsed();
    } else {
      var a, c := s[..|s| - 1], s[|s| - 1];
      ExpandCollapse(a);
      assert s == a + [c];
      ExpandSnoc(a, c);
      CollapseSnoc(Expand(a), c);
    }
  }

  lemma NothingCollapsed()
    ensures Collapse([]) == []
  {
  }

  lemma CollapseSnoc(x: seq<int>, c: int)
    ensures c != NL ==> Collapse(x + [c]) == Collapse(x) + [c]
    ensures Collapse(x + [CR, NL]) == Collapse(x) + [NL]
  {
    assert (x + [c])[..|x|] == x && (x + [CR, NL])[..|x|] == x;
  }

  // ---------------------------------------------------------------- the pair

  class Pair {
    const m2s: R.Ring
    const s2m: R.Ring
    var newlines: int
    var mode: Mode
    var slaves: int
    var masterOpen: bool

    ghost predicate Valid()
      reads this, m2s, s2m, m2s.buffer, s2m.buffer
    {
      && m2s != s2m && m2s.buffer != s2m.buffer && m2s.Valid() && s2m.Valid()
      && Counted(Now(), mode)
    }

    ghost function Now(): Line
      requires m2s.Valid() && s2m.Valid()
      reads this, m2s, s2m, m2s.buffer, s2m.buffer
    {
      Line(m2s.Contents(), s2m.Contents(), newlines)
    }

    constructor (mode: Mode)
      ensures Valid() && Now() == Line([], [], 0) && this.mode == mode
    {
      m2s := new R.Ring();
      s2m := new R.Ring();
      newlines, this.mode, slaves, masterOpen := 0, mode, 0, true;
    }

    /** Queues one input byte, or erases one. */
    method FeedByte(b: int) returns (fed: Fed)
      requires Valid()
      modifies `newlines, m2s, s2m, m2s.buffer, s2m.buffer
      ensures Valid() && (Now(), fed) == Feed(old(Now()), mode, b)
    {
      hide R.Unroll, Newlines;
      ghost var l := Now();
      FeedCounted(l, mode, b);
      var c := Translate(mode, b);
      if mode.icanon && c == mode.erase {
        if m2s.head == m2s.tail { return Ignored; }
        var last := m2s.Last();
        if last == NL { return Ignored; }
        m2s.DropLast();
        if mode.echo {
          var n := s2m.Write([BS, SPACE, BS]);
        }
        return Taken;
      }
      var n := m2s.Write([c]);
      if n == 0 {
        assert m2s.Contents() == l.m2s;
        return Full;
      }
      assert [c][..1] == [c];
      if c == NL { newlines := newlines + 1; }
      if mode.echo {
        if c == NL && mode.onlcr {
          n := s2m.Write([CR]);
        }
        n := s2m.Write([c]);
      }
      fed := Taken;
    }

    /** Input from the master: at once when nothing has to be looked at, else byte by byte. */
    method MasterWrite(data: seq<int>) returns (written: int)
      requires Valid()
      modifies `newlines, m2s, s2m, m2s.buffer, s2m.buffer
      ensures Valid()
      ensures slaves == 0 ==> written == 0 && Now() == old(Now())
      ensures slaves != 0 ==> written == Input(old(Now()), mode, data).1
      ensures slaves != 0 ==> Now().m2s == Input(old(Now()), mode, data).0.m2s && Now().s2m == Input(old(Now()), mode, data).0.s2m
      ensures slaves != 0 && NoErase(mode, data) ==> Now().m2s == Push(old(Now()).m2s, Typed(mode, data)) && |Now().m2s| == |old(Now()).m2s| + written
    {
      hide R.Unroll, Newlines, Feed, Input, Typed, Push, NoErase, Echoed;
      ghost var l := Now();
      written := TakeInput(data);
      if slaves != 0 && NoErase(mode, data) { InputQueues(l, mode, data); }
    }

    /** The same, by the model's byte loop. */
    method TakeInput(data: seq<int>) returns (written: int)
      requires Valid()
      modifies `newlines, m2s, s2m, m2s.buffer, s2m.buffer
      ensures Valid()
      ensures slaves == 0 ==> written == 0 && Now() == old(Now())
      ensures slaves != 0 ==> written == Input(old(Now()), mode, data).1
      ensures slaves != 0 ==> Now().m2s == Input(old(Now()), mode, data).0.m2s && Now().s2m == Input(old(Now()), mode, data).0.s2m
    {
      hide R.Unroll, Newlines, Feed;
      if slaves == 0 { return 0; }
      ghost var l := Now();
      if !mode.icanon && !mode.echo && !mode.icrnl {
        written := m2s.Write(data);
        RawSame(l, mode, data);
        return;
      }
      written := 0;
      var i := 0;
      while i < |data|
        invariant 0 <= i <= |data| && Valid() && mode == old(mode)
        invariant Input(l, mode, data).0 == Input(Now(), mode, data[i..]).0
        invariant Input(l, mode, data).1 == written + Input(Now(), mode, data[i..]).1
      {
        ghost var before := Now();
        var fed := FeedByte(data[i]);
        assert data[i..][0] == data[i] && data[i..][1..] == data[i + 1..];
        if fed == Full {
          FullUnchanged(before, mode, data[i]);
          return;
        }
        if fed == Taken { written := written + 1; }
        i := i + 1;
      }
    }

    /** Whether a read need not wait: in canonical mode a whole line is queued, otherwise anything is. */
    method CanRead() returns (ok: bool)
      requires Valid()
      ensures ok <==> Readable(Now().m2s, mode)
    {
      hide R.Unroll, Newlines;
      NewlineQueued(m2s.Contents());
      ok := m2s.head != m2s.tail && (!mode.icanon || newlines > 0);
    }

    /**
     A read by the slave that finds something to read: one line or part of it in canonical mode, whatever is there
     otherwise; with nothing to read it waits, or ends if the master is closed.
     */
    method SlaveRead(size: int) returns (waits: bool, data: seq<int>)
      requires Valid() && size >= 0
      modifies `newlines, m2s
      ensures Valid() && old(Now()).m2s == data + Now().m2s && Now().s2m == old(Now()).s2m
      ensures waits <==> masterOpen && !Readable(old(Now()).m2s, mode)
      ensures |data| == if !Readable(old(Now()).m2s, mode) then 0 else if mode.icanon then LineLength(old(Now()).m2s, size) else Min(size, |old(Now()).m2s|)
      ensures data != [] && mode.icanon ==> data[|data| - 1] == NL || |data| == size
    {
      hide R.Unroll, Newlines, LineLength;
      var ok := CanRead();
      if !ok { return masterOpen, []; }
      waits := false;
      if !mode.icanon {
        data := m2s.Read(size);
        return;
      }
      ghost var s := m2s.Contents();
      LineNewlines(s, size);
      WholeLine(s, size);
      data := ReadLine(size);
      assert s[|data|..] == m2s.Contents();
    }

    /** Takes bytes one by one through the first newline, or up to size. */
    method ReadLine(size: int) returns (data: seq<int>)
      requires m2s.Valid() && size >= 0
      modifies `newlines, m2s
      ensures m2s.Valid() && old(m2s.Contents()) == data + m2s.Contents() && |data| == LineLength(old(m2s.Contents()), size)
      ensures newlines == old(newlines) - if data != [] && data[|data| - 1] == NL then 1 else 0
    {
      hide R.Unroll, LineLength, Newlines, Push, Counted;
      ghost var s := m2s.Contents();
      data := [];
      while |data| < size && m2s.head != m2s.tail
        invariant m2s.Valid() && s == data + m2s.Contents() && |data| <= size && newlines == old(newlines)
        invariant LineLength(s, size) == |data| + LineLength(m2s.Contents(), size - |data|)
        invariant forall i :: 0 <= i < |data| ==> data[i] != NL
        decreases size - |data|
      {
        ghost var rest := m2s.Contents();
        LineStep(rest, size - |data|);
        var c := m2s.Read(1);
        assert rest[0] == c[0] && rest[1..] == m2s.Contents();
        data := data + c;
        if c[0] == NL {
          newlines := newlines - 1;
          return;
        }
      }
      LineStep(m2s.Contents(), size - |data|);
    }

    /** Counts the newlines queued, walking from tail to head. */
    method RescanNewlines()
      requires m2s.Valid()
      modifies `newlines
      ensures newlines == Newlines(m2s.Contents())
    {
      hide R.Unroll, Newlines;
      NoneCounted();
      newlines := 0;
      ghost var s := m2s.Contents();
      ghost var n := 0;
      var curr := m2s.tail;
      while curr != m2s.head
        invariant 0 <= n <= |s| && curr == R.Slot(m2s.tail, n) && newlines == Newlines(s[..n])
        decreases |s| - n
      {
        R.UnrollAt(m2s.buffer[..], m2s.head, m2s.tail, n);
        assert m2s.buffer[curr] == s[n];
        assert s[..n + 1] == s[..n] + [s[n]];
        NewlinesSnoc(s[..n], s[n]);
        if m2s.buffer[curr] == NL { newlines := newlines + 1; }
        curr := (curr + 1) % R.SIZE;
        n := n + 1;
      }
      assert s[..n] == s;
    }

    /** New terminal settings; going to canonical mode recounts the newlines. */
    method SetMode(m: Mode)
      requires Valid()
      modifies `newlines, `mode
      ensures Valid() && mode == m && Now().m2s == old(Now()).m2s && Now().s2m == old(Now()).s2m
    {
      var was := mode.icanon;
      mode := m;
      if !was && mode.icanon { RescanNewlines(); }
    }

    /** Output by the slave while it holds the lock once: the expansion of the prefix that fits. */
    method SlaveWrite(data: seq<int>) returns (k: int)
      requires Valid()
      modifies s2m, s2m.buffer
      ensures Valid() && Now().m2s == old(Now()).m2s && 0 <= k <= |data|
      ensures !masterOpen ==> k == 0
      ensures mode.opost && mode.onlcr ==> Now().s2m == old(Now()).s2m + Expand(data[..k])
      ensures !(mode.opost && mode.onlcr) ==> Now().s2m == old(Now()).s2m + data[..k]
      ensures masterOpen && k < |data| ==> CAPACITY - |Now().s2m| < if mode.opost && mode.onlcr then |ExpandByte(data[k])| else 1
    {
      hide R.Unroll, Newlines, Expand;
      k := 0;
      NothingExpanded();
      if !masterOpen { return; }
      if !(mode.opost && mode.onlcr) {
        k := s2m.Write(data);
        return;
      }
      ghost var s := s2m.Contents();
      while k < |data|
        invariant 0 <= k <= |data| && Valid() && m2s.Contents() == old(m2s.Contents())
        invariant s2m.Contents() == s + Expand(data[..k])
      {
        var free := R.Free(s2m.head, s2m.tail);
        if free == 0 { return; }
        var c := data[k];
        assert data[..k + 1] == data[..k] + [c];
        ExpandSnoc(data[..k], c);
        if c == NL {
          if free < 2 { return; }
          var n := s2m.Write([CR, NL]);
          assert [CR, NL][..2] == [CR, NL];
        } else {
          var n := s2m.Write([c]);
          assert [c][..1] == [c];
        }
        k := k + 1;
      }
    }
  }

  function Min(a: int, b: int): int { if a < b then a else b }

  lemma NoneCounted()
    ensures Newlines([]) == 0
  {
  }

  lemma NothingExpanded()
    ensures Expand([]) == []
  {
  }
}
