/**
 Directory blocks as bytes: chains of variable-length records that tile a block, and what splitting a
 record, merging one into its predecessor or clearing its inode number does to the names in the block.
 */
module Directory {
  import opened Basics

  /** A name and the inode it stands for. */
  datatype Link = Link(name: seq<int>, ino: int, kind: int)

  // ---------------------------------------------------------------- fields of a record

  ghost predicate Bytes(b: seq<int>) {
    forall i :: 0 <= i < |b| ==> 0 <= b[i] < 0x100
  }

  function U16(b: seq<int>, p: int): int
    requires 0 <= p && p + 2 <= |b|
  {
    b[p] + 0x100 * b[p + 1]
  }

  function U32(b: seq<int>, p: int): int
    requires 0 <= p && p + 4 <= |b|
  {
    b[p] + 0x100 * b[p + 1] + 0x1_0000 * b[p + 2] + 0x100_0000 * b[p + 3]
  }

  function PutU16(b: seq<int>, p: int, x: int): (r: seq<int>)
    requires 0 <= p && p + 2 <= |b| && 0 <= x < 0x1_0000
    ensures |r| == |b| && U16(r, p) == x && (Bytes(b) ==> Bytes(r))
    ensures forall i :: 0 <= i < |b| && !(p <= i < p + 2) ==> r[i] == b[i]
  {
    b[p := x % 0x100][p + 1 := x / 0x100]
  }

  function PutU32(b: seq<int>, p: int, x: int): (r: seq<int>)
    requires 0 <= p && p + 4 <= |b| && 0 <= x < 0x1_0000_0000
    ensures |r| == |b| && U32(r, p) == x && (Bytes(b) ==> Bytes(r))
    ensures forall i :: 0 <= i < |b| && !(p <= i < p + 4) ==> r[i] == b[i]
  {
    var y := x / 0x100;
    var z := y / 0x100;
    b[p := x % 0x100][p + 1 := y % 0x100][p + 2 := z % 0x100][p + 3 := z / 0x100]
  }

  /** The bytes a record with a name of k bytes needs: header and name, rounded up to four. */
  function Real(k: int): (r: int)
    requires k >= 0
    ensures 8 + k <= r < 8 + k + 4 && r % 4 == 0
  {
    (8 + k + 3) / 4 * 4
  }

  function Ino(b: seq<int>, p: int): int
    requires 0 <= p && p + 8 <= |b|
  {
    U32(b, p)
  }

  function Len(b: seq<int>, p: int): int
    requires 0 <= p && p + 8 <= |b|
  {
    U16(b, p + 4)
  }

  function NameLen(b: seq<int>, p: int): int
    requires 0 <= p && p + 8 <= |b|
  {
    b[p + 6]
  }

  function Kind(b: seq<int>, p: int): int
    requires 0 <= p && p + 8 <= |b|
  {
    b[p + 7]
  }

  /** A record starts at p, is long enough for its name and ends inside the block. */
  predicate RecOk(b: seq<int>, p: int) {
    0 <= p && p + 8 <= |b| && 0 <= NameLen(b, p) < 0x100 && Real(NameLen(b, p)) <= Len(b, p) && p + Len(b, p) <= |b|
  }

  function Name(b: seq<int>, p: int): (s: seq<int>)
    requires RecOk(b, p)
  {
    b[p + 8..p + 8 + NameLen(b, p)]
  }

  /** The link a record holds, if it is in use. */
  function Own(b: seq<int>, p: int): seq<Link>
    requires RecOk(b, p)
  {
    if Ino(b, p) != 0 then [Link(Name(b, p), Ino(b, p), Kind(b, p))] else []
  }

  // ---------------------------------------------------------------- chains

  /** Records follow one another from p exactly to q. */
  predicate Chain(b: seq<int>, p: int, q: int)
    decreases q - p
  {
    p == q || (p < q && RecOk(b, p) && p + Len(b, p) <= q && Chain(b, p + Len(b, p), q))
  }

  /** The links in the records from p to q. */
  function Links(b: seq<int>, p: int, q: int): seq<Link>
    requires Chain(b, p, q)
    decreases q - p
  {
    if p == q then [] else Own(b, p) + Links(b, p + Len(b, p), q)
  }

  /** The records tile the whole block. */
  ghost predicate BlockOk(b: seq<int>) {
    Bytes(b) && Chain(b, 0, |b|) && |b| < 0x1_0000
  }

  function BlockLinks(b: seq<int>): seq<Link>
    requires Chain(b, 0, |b|)
  {
    Links(b, 0, |b|)
  }

  lemma {:induction false} ChainJoin(b: seq<int>, p: int, q: int, r: int)
    requires Chain(b, p, q) && Chain(b, q, r)
    ensures p <= q <= r && Chain(b, p, r) && Links(b, p, r) == Links(b, p, q) + Links(b, q, r)
    decreases q - p
  {
    hide Own;
    ChainOrder(b, q, r);
    if p < q { ChainJoin(b, p + Len(b, p), q, r); }
  }

  lemma ChainOrder(b: seq<int>, q: int, r: int)
    requires Chain(b, q, r)
    ensures q <= r
  {
  }

  /** A chain reads only its own bytes. */
  lemma {:induction false} ChainLocal(b: seq<int>, c: seq<int>, p: int, q: int)
    requires Chain(b, p, q) && |c| == |b| && 0 <= p && q <= |b| && forall i :: p <= i < q ==> c[i] == b[i]
    ensures Chain(c, p, q) && Links(c, p, q) == Links(b, p, q)
    decreases q - p
  {
    if p < q {
      RecLocal(b, c, p, q);
      ChainLocal(b, c, p + Len(b, p), q);
    }
  }

  lemma RecLocal(b: seq<int>, c: seq<int>, p: int, q: int)
    requires RecOk(b, p) && p + Len(b, p) <= q <= |b| && |c| == |b| && forall i :: p <= i < q ==> c[i] == b[i]
    ensures RecOk(c, p) && Len(c, p) == Len(b, p) && Own(c, p) == Own(b, p)
  {
    assert Name(c, p) == Name(b, p);
  }

  // ---------------------------------------------------------------- adding

  /** The name as stored: its length is kept in one byte. */
  function Stored(name: seq<int>): seq<int> { name[..|name| % 0x100] }

  /** The link a new entry amounts to. */
  function NewLink(name: seq<int>, child: int, kind: int): seq<Link> { if child != 0 then [Link(Stored(name), child, kind)] else [] }

  /** Writes a whole record at p. */
  function WriteRec(b: seq<int>, p: int, child: int, len: int, name: seq<int>, kind: int): (r: seq<int>)
    requires 0 <= p && p + 8 + |name| <= |b| && 0 <= child < 0x1_0000_0000 && 0 <= len < 0x1_0000
    ensures |r| == |b| && (Bytes(b) && Bytes(name) && 0 <= kind < 0x100 ==> Bytes(r))
    ensures forall i :: 0 <= i < |b| && !(p <= i < p + 8 + |name|) ==> r[i] == b[i]
  {
    Overlay(PutU16(PutU32(b, p, child), p + 4, len)[p + 6 := |name| % 0x100][p + 7 := kind], p + 8, name)
  }

  /** The record on disk: inode number and length with the low byte first, then name length, kind and name. */
  lemma WriteRecBytes(b: seq<int>, p: int, child: int, len: int, name: seq<int>, kind: int)
    requires 0 <= p && p + 8 + |name| <= |b| && 0 <= child < 0x1_0000_0000 && 0 <= len < 0x1_0000
    ensures var r := WriteRec(b, p, child, len, name, kind);
      && child == r[p] + 0x100 * r[p + 1] + 0x1_0000 * r[p + 2] + 0x100_0000 * r[p + 3]
      && (forall i :: p <= i < p + 6 ==> 0 <= r[i] < 0x100) && len == r[p + 4] + 0x100 * r[p + 5]
      && r[p + 6] == |name| % 0x100 && r[p + 7] == kind && r[p + 8..p + 8 + |name|] == name
  {
    var y := child / 0x100;
    assert child == child % 0x100 + 0x100 * y && y == y % 0x100 + 0x100 * (y / 0x100);
  }

  lemma WriteRecFields(b: seq<int>, p: int, child: int, len: int, name: seq<int>, kind: int)
    requires 0 <= p && p + 8 + |name| <= |b| && 0 <= child < 0x1_0000_0000 && Real(|name|) <= len < 0x1_0000 && p + len <= |b|
    ensures var r := WriteRec(b, p, child, len, name, kind);
      RecOk(r, p) && Len(r, p) == len && Own(r, p) == NewLink(name, child, kind)
  {
    hide Real;
    var r := WriteRec(b, p, child, len, name, kind);
    WriteHeader(b, p, child, len, name, kind);
    ShorterReal(|name| % 0x100, |name|);
    assert Name(r, p) == Stored(name);
  }

  lemma ShorterReal(j: int, k: int)
    requires 0 <= j <= k
    ensures Real(j) <= Real(k)
  {
  }

  lemma WriteHeader(b: seq<int>, p: int, child: int, len: int, name: seq<int>, kind: int)
    requires 0 <= p && p + 8 + |name| <= |b| && 0 <= child < 0x1_0000_0000 && 0 <= len < 0x1_0000
    ensures var r := WriteRec(b, p, child, len, name, kind);
      && Ino(r, p) == child && Len(r, p) == len && NameLen(r, p) == |name| % 0x100 && r[p + 8..p + 8 + |name|] == name
  {
    var b1 := PutU32(b, p, child);
    var b2 := PutU16(b1, p + 4, len);
    var b3 := b2[p + 6 := |name| % 0x100][p + 7 := kind];
    var r := Overlay(b3, p + 8, name);
    assert r == WriteRec(b, p, child, len, name, kind);
    assert forall i :: p <= i < p + 4 ==> r[i] == b1[i];
  }

  /** Splits the record at p: it keeps what it needs, the rest becomes a new record. */
  function SplitRec(b: seq<int>, p: int, child: int, name: seq<int>, kind: int): (r: seq<int>)
    requires RecOk(b, p) && |b| < 0x1_0000 && Len(b, p) - Real(NameLen(b, p)) >= Real(|name|) && 0 <= child < 0x1_0000_0000
    ensures |r| == |b|
  {
    var keep := Real(NameLen(b, p));
    WriteRec(PutU16(b, p + 4, keep), p + keep, child, Len(b, p) - keep, name, kind)
  }

  lemma SplitRecords(b: seq<int>, p: int, child: int, name: seq<int>, kind: int)
    requires RecOk(b, p) && |b| < 0x1_0000 && Len(b, p) - Real(NameLen(b, p)) >= Real(|name|) && 0 <= child < 0x1_0000_0000
    ensures var r := SplitRec(b, p, child, name, kind); var q := p + Real(NameLen(b, p));
      && RecOk(r, p) && p + Len(r, p) == q && Own(r, p) == Own(b, p)
      && RecOk(r, q) && q + Len(r, q) == p + Len(b, p) && Own(r, q) == NewLink(name, child, kind)
      && (forall i :: 0 <= i < |b| && !(p <= i < p + Len(b, p)) ==> r[i] == b[i])
  {
    hide Real, WriteRec;
    var keep := Real(NameLen(b, p));
    var b1 := PutU16(b, p + 4, keep);
    WriteRecFields(b1, p + keep, child, Len(b, p) - keep, name, kind);
    var r := SplitRec(b, p, child, name, kind);
    assert forall i :: p <= i < p + keep ==> r[i] == b1[i];
    assert Len(r, p) == keep && NameLen(r, p) == NameLen(b, p) && Ino(r, p) == Ino(b, p) && Kind(r, p) == Kind(b, p);
    assert Name(r, p) == Name(b, p);
  }

  /** A record at p of a well-formed block. */
  ghost predicate Record(b: seq<int>, p: int) {
    BlockOk(b) && Chain(b, 0, p) && RecOk(b, p) && Chain(b, p + Len(b, p), |b|)
  }

  /** The links of the block with those of the record at p replaced by `mid`. */
  ghost function With(b: seq<int>, p: int, mid: seq<Link>): seq<Link>
    requires Record(b, p)
  {
    Links(b, 0, p) + mid + Links(b, p + Len(b, p), |b|)
  }

  /** A well-formed block that holds exactly these links. */
  ghost predicate Holds(b: seq<int>, links: seq<Link>) { BlockOk(b) && BlockLinks(b) == links }

  /** A block holds the links before, in and after each of its records. */
  lemma RecordHolds(b: seq<int>, p: int)
    requires Record(b, p)
    ensures Holds(b, With(b, p, Own(b, p)))
  {
    hide Own, U16, U32, Real, Chain, Links;
    var e := p + Len(b, p);
    OneRecord(b, p);
    ChainJoin(b, 0, p, e);
    ChainJoin(b, 0, e, |b|);
  }

  /** Splitting adds exactly the new link, right after the links up to the record that was split. */
  lemma SplitBlock(b: seq<int>, p: int, child: int, name: seq<int>, kind: int)
    requires Record(b, p) && Len(b, p) - Real(NameLen(b, p)) >= Real(|name|)
    requires 0 <= child < 0x1_0000_0000 && Bytes(name) && 0 <= kind < 0x100
    ensures Holds(SplitRec(b, p, child, name, kind), With(b, p, Own(b, p) + NewLink(name, child, kind)))
    ensures Holds(b, With(b, p, Own(b, p)))
  {
    hide Own, U16, U32, Real, Holds, With, SplitRec, NewLink, Chain, Bytes;
    var r, q := SplitRec(b, p, child, name, kind), p + Real(NameLen(b, p));
    SplitRecords(b, p, child, name, kind);
    SplitBytes(b, p, child, name, kind);
    RecordHolds(b, p);
    SplitChain(b, r, p, q);
  }

  lemma SplitBytes(b: seq<int>, p: int, child: int, name: seq<int>, kind: int)
    requires Bytes(b) && RecOk(b, p) && |b| < 0x1_0000 && Len(b, p) - Real(NameLen(b, p)) >= Real(|name|)
    requires 0 <= child < 0x1_0000_0000 && Bytes(name) && 0 <= kind < 0x100
    ensures Bytes(SplitRec(b, p, child, name, kind))
  {
    hide WriteRec;
  }

  /** A block whose record at p was replaced by two. */
  lemma SplitChain(b: seq<int>, r: seq<int>, p: int, q: int)
    requires Record(b, p) && |r| == |b| && Bytes(r)
    requires RecOk(r, p) && p + Len(r, p) == q && RecOk(r, q) && q + Len(r, q) == p + Len(b, p)
    requires forall i :: 0 <= i < |b| && !(p <= i < p + Len(b, p)) ==> r[i] == b[i]
    ensures Holds(r, With(b, p, Own(r, p) + Own(r, q)))
  {
    hide Own, U16, U32, Real, Bytes, Chain, Links;
    OneRecord(r, p);
    OneRecord(r, q);
    ChainJoin(r, p, q, p + Len(b, p));
    ChainEnds(b, 0, p);
    Rechain(b, r, p, p + Len(b, p));
  }

  lemma ChainEnds(b: seq<int>, p: int, q: int)
    requires Chain(b, p, q)
    ensures p <= q
  {
  }

  /** A block whose records from r to e were replaced by others. */
  lemma Rechain(b: seq<int>, c: seq<int>, r: int, e: int)
    requires 0 <= r <= e <= |b| == |c| && Chain(b, 0, r) && Chain(b, e, |b|) && Chain(c, r, e)
    requires forall i :: 0 <= i < |b| && !(r <= i < e) ==> c[i] == b[i]
    ensures Chain(c, 0, |c|) && BlockLinks(c) == Links(b, 0, r) + Links(c, r, e) + Links(b, e, |b|)
  {
    hide Chain, Links;
    ChainLocal(b, c, 0, r);
    ChainLocal(b, c, e, |b|);
    ChainJoin(c, 0, r, e);
    ChainJoin(c, 0, e, |c|);
  }

  lemma OneRecord(b: seq<int>, p: int)
    requires RecOk(b, p)
    ensures Len(b, p) >= 8 && Chain(b, p, p + Len(b, p)) && Links(b, p, p + Len(b, p)) == Own(b, p)
  {
    var e := p + Len(b, p);
    assert Chain(b, e, e) && Links(b, e, e) == [];
  }

  /** A new directory block with a single record. */
  function FreshBlock(n: int, child: int, name: seq<int>, kind: int): (r: seq<int>)
    requires Real(|name|) <= n < 0x1_0000 && 0 <= child < 0x1_0000_0000
    ensures |r| == n
  {
    WriteRec(seq(n, _ => 0), 0, child, n, name, kind)
  }

  lemma FreshLinks(n: int, child: int, name: seq<int>, kind: int)
    requires Real(|name|) <= n < 0x1_0000 && 0 <= child < 0x1_0000_0000 && Bytes(name) && 0 <= kind < 0x100
    ensures var r := FreshBlock(n, child, name, kind); BlockOk(r) && BlockLinks(r) == NewLink(name, child, kind)
  {
    hide WriteRec;
    var z := seq(n, _ => 0);
    assert Bytes(z);
    WriteRecFields(z, 0, child, n, name, kind);
    OneRecord(FreshBlock(n, child, name, kind), 0);
  }

  // ---------------------------------------------------------------- alignment

  /** Every record from p to q has a length divisible by four. */
  ghost predicate Fours(b: seq<int>, p: int, q: int)
    requires Chain(b, p, q)
    decreases q - p
  {
    p == q || (Len(b, p) % 4 == 0 && Fours(b, p + Len(b, p), q))
  }

  lemma {:induction false} FoursJoin(b: seq<int>, p: int, q: int, r: int)
    requires Chain(b, p, q) && Chain(b, q, r)
    ensures Chain(b, p, r) && (Fours(b, p, r) <==> Fours(b, p, q) && Fours(b, q, r))
    decreases q - p
  {
    hide Links;
    ChainJoin(b, p, q, r);
    if p < q { FoursJoin(b, p + Len(b, p), q, r); }
  }

  lemma {:induction false} FoursLocal(b: seq<int>, c: seq<int>, p: int, q: int)
    requires Chain(b, p, q) && |c| == |b| && 0 <= p && q <= |b| && forall i :: p <= i < q ==> c[i] == b[i]
    ensures Chain(c, p, q) && (Fours(c, p, q) <==> Fours(b, p, q))
    decreases q - p
  {
    hide Links, Own;
    ChainLocal(b, c, p, q);
    if p < q {
      RecLocal(b, c, p, q);
      FoursLocal(b, c, p + Len(b, p), q);
    }
  }

  /** With lengths divisible by four, every record starts at a multiple of four. */
  lemma {:induction false} FoursStart(b: seq<int>, p: int, q: int)
    requires Chain(b, p, q) && Fours(b, p, q)
    ensures q % 4 == p % 4
    decreases q - p
  {
    hide Real, U16, U32;
    if p < q { FoursStart(b, p + Len(b, p), q); }
  }

  /** A block whose records from r to e were replaced keeps its alignment if the new ones have it. */
  lemma FoursRechain(b: seq<int>, c: seq<int>, r: int, e: int)
    requires 0 <= r <= e <= |b| == |c| && Chain(b, 0, r) && Chain(b, r, e) && Chain(b, e, |b|) && Chain(c, r, e)
    requires forall i :: 0 <= i < |b| && !(r <= i < e) ==> c[i] == b[i]
    requires Chain(b, 0, |b|) && Fours(b, 0, |b|) && (Fours(b, r, e) ==> Fours(c, r, e))
    ensures Chain(c, 0, |c|) && Fours(c, 0, |c|)
  {
    hide Chain, Fours, Links;
    FoursJoin(b, 0, r, e);
    FoursJoin(b, 0, e, |b|);
    FoursLocal(b, c, 0, r);
    FoursLocal(b, c, e, |b|);
    FoursJoin(c, 0, r, e);
    FoursJoin(c, 0, e, |c|);
  }

  lemma OneFour(b: seq<int>, p: int)
    requires RecOk(b, p)
    ensures Chain(b, p, p + Len(b, p)) && (Fours(b, p, p + Len(b, p)) <==> Len(b, p) % 4 == 0)
  {
    OneRecord(b, p);
    var e := p + Len(b, p);
    assert Chain(b, e, e) && Fours(b, e, e);
  }

  /** Splitting a record of an aligned block leaves both parts aligned. */
  lemma SplitAligned(b: seq<int>, p: int, child: int, name: seq<int>, kind: int)
    requires Record(b, p) && Len(b, p) - Real(NameLen(b, p)) >= Real(|name|) && 0 <= child < 0x1_0000_0000
    requires Fours(b, 0, |b|)
    ensures var r := SplitRec(b, p, child, name, kind); Chain(r, 0, |r|) && Fours(r, 0, |r|)
  {
    hide Own, U16, U32, SplitRec, Bytes, Chain, Fours, NewLink, Links;
    var r, q, e := SplitRec(b, p, child, name, kind), p + Real(NameLen(b, p)), p + Len(b, p);
    SplitRecords(b, p, child, name, kind);
    OneFour(b, p);
    OneFour(r, p);
    OneFour(r, q);
    FoursJoin(r, p, q, e);
    ChainEnds(b, 0, p);
    FoursRechain(b, r, p, e);
  }

  lemma FreshAligned(n: int, child: int, name: seq<int>, kind: int)
    requires Real(|name|) <= n < 0x1_0000 && 0 <= child < 0x1_0000_0000 && n % 4 == 0
    ensures var r := FreshBlock(n, child, name, kind); Chain(r, 0, |r|) && Fours(r, 0, |r|)
  {
    hide WriteRec;
    WriteRecFields(seq(n, _ => 0), 0, child, n, name, kind);
    OneFour(FreshBlock(n, child, name, kind), 0);
  }

  /** Clearing a record of an aligned block keeps it aligned. */
  lemma ClearAligned(b: seq<int>, p: int)
    requires Record(b, p) && Fours(b, 0, |b|)
    ensures var c := PutU32(b, p, 0); Chain(c, 0, |c|) && Fours(c, 0, |c|)
  {
    hide Own, U16, U32, Bytes, Chain, Fours, Links, Real;
    var c, e := PutU32(b, p, 0), p + Len(b, p);
    ChainEnds(b, 0, p);
    OneFour(b, p);
    ClearRec(b, p);
    OneFour(c, p);
    FoursRechain(b, c, p, e);
  }

  /** Merging two records of an aligned block keeps it aligned. */
  lemma MergeAligned(b: seq<int>, r: int, p: int)
    requires Record(b, p) && Fours(b, 0, |b|) && Chain(b, 0, r) && RecOk(b, r) && r + Len(b, r) == p
    ensures Len(b, r) + Len(b, p) < 0x1_0000
    ensures var c := PutU16(b, r + 4, Len(b, r) + Len(b, p)); Chain(c, 0, |c|) && Fours(c, 0, |c|)
  {
    hide Own, U16, U32, Bytes, Chain, Fours, Links, Real;
    MergeRec(b, r, p);
    var c, e := PutU16(b, r + 4, Len(b, r) + Len(b, p)), p + Len(b, p);
    ChainEnds(b, 0, r);
    OneFour(b, r);
    OneFour(b, p);
    FoursJoin(b, r, p, e);
    OneFour(c, r);
    FoursRechain(b, c, r, e);
  }

  // ---------------------------------------------------------------- removing

  /** Removing merges the record at p into its predecessor at r: exactly the link at p is gone. */
  lemma MergeBlock(b: seq<int>, r: int, p: int)
    requires Record(b, p) && Chain(b, 0, r) && RecOk(b, r) && r + Len(b, r) == p
    ensures Len(b, r) + Len(b, p) < 0x1_0000
    ensures Holds(PutU16(b, r + 4, Len(b, r) + Len(b, p)), With(b, p, []))
    ensures Holds(b, With(b, p, Own(b, p)))
  {
    hide Own, U16, U32, Real, Holds, With, Chain;
    MergeRec(b, r, p);
    RecordHolds(b, p);
    MergeChain(b, PutU16(b, r + 4, Len(b, r) + Len(b, p)), r, p);
  }

  lemma MergeChain(b: seq<int>, c: seq<int>, r: int, p: int)
    requires Record(b, p) && Chain(b, 0, r) && RecOk(b, r) && r + Len(b, r) == p && |c| == |b| && Bytes(c)
    requires RecOk(c, r) && r + Len(c, r) == p + Len(b, p) && Own(c, r) == Own(b, r)
    requires forall i :: 0 <= i < |b| && !(r <= i < p + Len(b, p)) ==> c[i] == b[i]
    ensures Holds(c, With(b, p, []))
  {
    hide Own, U16, U32, Real, Bytes, Chain, Links;
    OneRecord(c, r);
    ChainEnds(b, 0, r);
    Rechain(b, c, r, p + Len(b, p));
    OneRecord(b, r);
    ChainJoin(b, 0, r, p);
  }

  lemma MergeRec(b: seq<int>, r: int, p: int)
    requires RecOk(b, r) && r + Len(b, r) == p && RecOk(b, p) && |b| < 0x1_0000
    ensures 0 <= Len(b, r) + Len(b, p) < 0x1_0000
    ensures var c := PutU16(b, r + 4, Len(b, r) + Len(b, p));
      RecOk(c, r) && r + Len(c, r) == p + Len(b, p) && Own(c, r) == Own(b, r)
  {
    var c := PutU16(b, r + 4, Len(b, r) + Len(b, p));
    assert Ino(c, r) == Ino(b, r) && NameLen(c, r) == NameLen(b, r);
    assert Name(c, r) == Name(b, r);
  }

  lemma ClearRec(b: seq<int>, p: int)
    requires RecOk(b, p)
    ensures var c := PutU32(b, p, 0); RecOk(c, p) && Len(c, p) == Len(b, p) && Own(c, p) == []
  {
    var c := PutU32(b, p, 0);
    assert Ino(c, p) == 0 && NameLen(c, p) == NameLen(b, p);
  }

  /** Removing without a live predecessor clears the inode number: exactly the link at p is gone. */
  lemma ClearBlock(b: seq<int>, p: int)
    requires Record(b, p)
    ensures Holds(PutU32(b, p, 0), With(b, p, [])) && Holds(b, With(b, p, Own(b, p)))
  {
    hide Own, U16, U32, Real, Chain, Links;
    var c := PutU32(b, p, 0);
    ClearRec(b, p);
    RecordHolds(b, p);
    OneRecord(c, p);
    Rechain(b, c, p, p + Len(b, p));
  }
}
