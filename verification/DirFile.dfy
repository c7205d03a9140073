/**
 A directory as a list of blocks: lookup, insertion and removal of names over all of them.
 */
module DirFile {
  import opened Basics
  import opened Directory

  /** The inode of the first link with that name, or 0. */
  function Lookup(s: seq<Link>, name: seq<int>): int {
    if s == [] then 0 else if s[0].name == name then s[0].ino else Lookup(s[1..], name)
  }

  ghost predicate AllChains(blocks: seq<seq<int>>) {
    forall i :: 0 <= i < |blocks| ==> Chain(blocks[i], 0, |blocks[i]|)
  }

  /** The links of a directory, block after block. */
  ghost function AllLinks(blocks: seq<seq<int>>): seq<Link>
    requires AllChains(blocks)
  {
    if blocks == [] then [] else BlockLinks(blocks[0]) + AllLinks(blocks[1..])
  }

  lemma {:induction false} LinksJoin(a: seq<seq<int>>, b: seq<seq<int>>)
    requires AllChains(a) && AllChains(b)
    ensures AllChains(a + b) && AllLinks(a + b) == AllLinks(a) + AllLinks(b)
  {
    if a == [] {
      assert a + b == b;
    } else {
      assert (a + b)[1..] == a[1..] + b;
      LinksJoin(a[1..], b);
    }
  }

  lemma LinksMiddle(a: seq<seq<int>>, c: seq<int>, b: seq<seq<int>>)
    requires AllChains(a) && AllChains(b) && Chain(c, 0, |c|)
    ensures AllChains(a + [c] + b) && AllLinks(a + [c] + b) == AllLinks(a) + BlockLinks(c) + AllLinks(b)
  {
    hide Chain, AllLinks, BlockLinks, AllChains;
    OneBlock(c);
    LinksJoin(a, [c]);
    LinksJoin(a + [c], b);
  }

  /** The links before, in and after block i, which may be replaced. */
  lemma LinksAround(blocks: seq<seq<int>>, i: int, c: seq<int>)
    requires AllChains(blocks) && 0 <= i < |blocks| && Chain(c, 0, |c|)
    ensures AllChains(blocks[..i]) && AllChains(blocks[i + 1..]) && AllChains(blocks[i := c])
    ensures AllLinks(blocks[i := c]) == AllLinks(blocks[..i]) + BlockLinks(c) + AllLinks(blocks[i + 1..])
  {
    hide Chain, AllLinks, BlockLinks;
    LinksMiddle(blocks[..i], c, blocks[i + 1..]);
    assert blocks[i := c] == blocks[..i] + [c] + blocks[i + 1..];
  }

  lemma OneBlock(b: seq<int>)
    requires Chain(b, 0, |b|)
    ensures AllChains([b]) && AllLinks([b]) == BlockLinks(b)
  {
    hide Chain, BlockLinks;
    assert [b][1..] == [];
  }

  /** No link of that name. */
  ghost predicate Absent(s: seq<Link>, name: seq<int>) {
    forall l :: l in s ==> l.name != name
  }

  lemma {:induction false} LookupAfter(a: seq<Link>, b: seq<Link>, name: seq<int>)
    requires Absent(a, name)
    ensures Lookup(a + b, name) == Lookup(b, name)
  {
    if a == [] {
      assert a + b == b;
    } else {
      assert a[0] in a;
      assert (a + b)[1..] == a[1..] + b;
      LookupAfter(a[1..], b, name);
    }
  }

  lemma {:induction false} LookupSkips(a: seq<Link>, l: Link, b: seq<Link>, name: seq<int>)
    requires l.name != name
    ensures Lookup(a + [l] + b, name) == Lookup(a + b, name)
  {
    if a == [] {
      assert a + [l] + b == [l] + b && ([l] + b)[1..] == b && a + b == b;
    } else {
      assert (a + [l] + b)[1..] == a[1..] + [l] + b;
      assert (a + b)[1..] == a[1..] + b;
      LookupSkips(a[1..], l, b, name);
    }
  }

  lemma {:induction false} LookupAbsent(s: seq<Link>, name: seq<int>)
    requires Absent(s, name)
    ensures Lookup(s, name) == 0
  {
    if s != [] {
      assert s[0] in s;
      LookupAbsent(s[1..], name);
    }
  }

  /** Adding a new name makes exactly it findable. */
  lemma AddLookup(a: seq<Link>, b: seq<Link>, name: seq<int>, child: int, kind: int, n: seq<int>)
    requires child != 0 && Absent(a + b, Stored(name))
    ensures Lookup(a + NewLink(name, child, kind) + b, n) == if n == Stored(name) then child else Lookup(a + b, n)
  {
    var l := Link(Stored(name), child, kind);
    if n == l.name {
      assert forall x :: x in a ==> x in a + b;
      LookupAfter(a, [l] + b, n);
      assert a + [l] + b == a + ([l] + b);
    } else {
      LookupSkips(a, l, b, n);
    }
  }

  /** The name asked for is the name that can be found exactly when it has at most 255 bytes. */
  lemma StoredIff(name: seq<int>)
    ensures Stored(name) == name <==> |name| <= 0xFF
  {
  }

  /** A name of 256 bytes is stored with length 0, and cannot be found under what was asked for. */
  lemma LongNameLost(name: seq<int>, child: int, kind: int)
    requires |name| == 0x100 && child != 0
    ensures Stored(name) == [] && Lookup(NewLink(name, child, kind), name) == 0 && Lookup(NewLink(name, child, kind), []) == child
  {
  }

  /** Removing the first link of a name makes exactly that name unfindable, unless it occurs again. */
  lemma RemoveLookup(a: seq<Link>, l: Link, b: seq<Link>, n: seq<int>)
    requires Absent(a, l.name) && l.ino != 0
    ensures Lookup(a + b, n) == if n == l.name then Lookup(b, n) else Lookup(a + [l] + b, n)
    ensures Absent(b, l.name) ==> Lookup(a + b, l.name) == 0
  {
    LookupAfter(a, b, l.name);
    if Absent(b, l.name) { LookupAbsent(b, l.name); }
    if n != l.name { LookupSkips(a, l, b, n); }
  }

  /** What a scan for a name in one block finds: the first live record of that name and its live predecessor. */
  ghost predicate FoundAt(b: seq<int>, name: seq<int>, p: int, prev: int) {
    && RecOk(b, p) && Chain(b, 0, p) && Chain(b, p + Len(b, p), |b|) && Ino(b, p) != 0 && Name(b, p) == name
    && Absent(Links(b, 0, p), name)
    && (prev >= 0 ==> LiveBefore(b, prev, p))
    && (prev < 0 ==> forall r :: !LiveBefore(b, r, p))
  }

  /** The record before p starts at r and is in use. */
  ghost predicate LiveBefore(b: seq<int>, r: int, p: int) {
    RecOk(b, r) && r + Len(b, r) == p && Chain(b, 0, r) && Ino(b, r) != 0
  }

  /** A block with the entry at p taken out: merged into the live record before it, or with its inode number cleared. */
  function Erased(b: seq<int>, p: int, prev: int): seq<int>
    requires RecOk(b, p) && (prev >= 0 ==> RecOk(b, prev) && Len(b, prev) + Len(b, p) < 0x1_0000)
  {
    if prev >= 0 then PutU16(b, prev + 4, Len(b, prev) + Len(b, p)) else PutU32(b, p, 0)
  }

  /** Exactly the entry of that name at place p of block i was taken out. */
  ghost predicate ErasedAt(before: seq<seq<int>>, after: seq<seq<int>>, name: seq<int>, i: int, p: int, prev: int) {
    && 0 <= i < |before| && FoundAt(before[i], name, p, prev)
    && (prev >= 0 ==> Len(before[i], prev) + Len(before[i], p) < 0x1_0000)
    && after == before[i := Erased(before[i], p, prev)]
  }

  /** Of two records that end at the same place, both on the chain, there is one. */
  lemma OneBefore(b: seq<int>, r: int, q: int, p: int)
    requires Chain(b, 0, r) && RecOk(b, r) && r + Len(b, r) == p && Chain(b, 0, q) && RecOk(b, q) && q + Len(b, q) == p
    ensures r == q
  {
    hide U16, U32, Real, Chain;
    RecShape(b, r);
    RecShape(b, q);
    if r < q { NoneBetween(b, 0, r, q); }
    if q < r { NoneBetween(b, 0, q, r); }
  }


  /** Steps from one record to the next. */
  lemma NextRecord(b: seq<int>, p: int)
    requires Chain(b, 0, p) && Chain(b, p, |b|) && p < |b|
    ensures RecOk(b, p) && Len(b, p) >= 8 && Chain(b, p + Len(b, p), |b|)
    ensures Chain(b, 0, p + Len(b, p)) && Links(b, 0, p + Len(b, p)) == Links(b, 0, p) + Own(b, p)
  {
    OneRecord(b, p);
    ChainJoin(b, 0, p, p + Len(b, p));
  }

  method ScanBlock(b: seq<int>, name: seq<int>) returns (p: int, prev: int)
    requires BlockOk(b)
    ensures p < 0 ==> Absent(BlockLinks(b), name)
    ensures p >= 0 ==> FoundAt(b, name, p, prev)
  {
    hide Own, U16, U32, Bytes, Name, Real, Chain, Links;
    p, prev := 0, -1;
    EmptyChain(b);
    while p < |b|
      invariant 0 <= p <= |b| && Chain(b, 0, p) && Chain(b, p, |b|) && Absent(Links(b, 0, p), name)
      invariant prev >= 0 ==> LiveBefore(b, prev, p)
      invariant prev < 0 ==> forall r :: !LiveBefore(b, r, p)
      decreases |b| - p
    {
      NextRecord(b, p);
      ChainOrder(b, p + Len(b, p), |b|);
      RecShape(b, p);
      if Ino(b, p) != 0 && NameLen(b, p) == |name| && Name(b, p) == name { return; }
      ghost var e := p + Len(b, p);
      forall r | LiveBefore(b, r, e) ensures r == p { OneBefore(b, r, p, e); }
      prev := if Ino(b, p) != 0 then p else -1;
      p := p + Len(b, p);
    }
    p := -1;
  }

  lemma EmptyChain(b: seq<int>)
    ensures Chain(b, 0, 0) && Links(b, 0, 0) == []
  {
  }

  lemma RecShape(b: seq<int>, p: int)
    requires RecOk(b, p)
    ensures 0 <= p && p + 8 <= |b| && |Name(b, p)| == NameLen(b, p)
    ensures Own(b, p) == if Ino(b, p) != 0 then [Link(Name(b, p), Ino(b, p), Kind(b, p))] else []
  {
  }

  class DirFile {
    const size: int
    var blocks: seq<seq<int>>

    ghost predicate Valid()
      reads this
    {
      0 <= size < 0x1_0000 && forall i :: 0 <= i < |blocks| ==> BlockOk(blocks[i]) && |blocks[i]| == size
    }

    /** Blocks of whole words in which every record starts at one. */
    ghost predicate Aligned()
      requires Valid()
      reads this
    {
      size % 4 == 0 && forall i :: 0 <= i < |blocks| ==> Fours(blocks[i], 0, |blocks[i]|)
    }

    ghost function Contents(): seq<Link>
      requires Valid()
      reads this
    {
      AllLinks(blocks)
    }

    constructor (size: int, blocks: seq<seq<int>>)
      requires 0 <= size < 0x1_0000 && forall i :: 0 <= i < |blocks| ==> BlockOk(blocks[i]) && |blocks[i]| == size
      ensures Valid() && this.size == size && this.blocks == blocks
    {
      this.size, this.blocks := size, blocks;
    }

    /** The block and record of the first live entry of that name; -1 when there is none. */
    method Locate(name: seq<int>) returns (i: int, p: int, prev: int)
      requires Valid()
      ensures AllChains(blocks)
      ensures i < 0 ==> Absent(Contents(), name)
      ensures i >= 0 ==> i < |blocks| && FoundAt(blocks[i], name, p, prev) && AllChains(blocks[..i]) && Absent(AllLinks(blocks[..i]), name)
    {
      hide FoundAt, Chain, Absent, AllLinks;
      i, p, prev := 0, -1, -1;
      NoLinks(name);
      while i < |blocks|
        invariant 0 <= i <= |blocks| && AllChains(blocks) && AllChains(blocks[..i]) && Absent(AllLinks(blocks[..i]), name)
      {
        p, prev := ScanBlock(blocks[i], name);
        if p >= 0 { return; }
        MoreAbsent(blocks[..i], blocks[i], name);
        assert blocks[..i + 1] == blocks[..i] + [blocks[i]];
        i := i + 1;
      }
      assert blocks[..i] == blocks;
      i := -1;
    }

    /** The inode of a name, or 0. */
    method Find(name: seq<int>) returns (ino: int)
      requires Valid()
      ensures ino == Lookup(Contents(), name)
    {
      hide Chain, Links, Lookup, AllLinks, Bytes;
      var i, p, prev := Locate(name);
      if i < 0 {
        LookupAbsent(Contents(), name);
        return 0;
      }
      FoundLinks(blocks, i, name, p, prev);
      ino := Ino(blocks[i], p);
    }

    /** Removes the first live entry of a name; false when there is none. */
    method Remove(name: seq<int>) returns (ok: bool, ghost a: seq<Link>, ghost l: Link, ghost b: seq<Link>)
      requires Valid()
      modifies this
      ensures Valid() && (old(Aligned()) ==> Aligned())
      ensures ok ==> exists i, p, prev :: ErasedAt(old(blocks), blocks, name, i, p, prev)
      ensures !ok ==> blocks == old(blocks) && Absent(Contents(), name)
      ensures ok ==> l.name == name && l.ino != 0 && Absent(a, name) && old(Contents()) == a + [l] + b && Contents() == a + b
    {
      hide Chain, Links, Lookup, AllLinks, Bytes, Own, U16, U32, Real;
      l := Link(name, 0, 0);
      var i, p, prev := Locate(name);
      if i < 0 { return false, [], l, []; }
      ghost var before := blocks;
      FoundLinks(blocks, i, name, p, prev);
      l := Link(name, Ino(blocks[i], p), Kind(blocks[i], p));
      a, b := Before(blocks, i, p), After(blocks, i, p + Len(blocks[i], p));
      if prev >= 0 {
        MergeBlock(blocks[i], prev, p);
        if Aligned() { MergeAligned(blocks[i], prev, p); }
        blocks := blocks[i := PutU16(blocks[i], prev + 4, Len(blocks[i], prev) + Len(blocks[i], p))];
      } else {
        ClearBlock(blocks[i], p);
        if Aligned() { ClearAligned(blocks[i], p); }
        blocks := blocks[i := PutU32(blocks[i], p, 0)];
      }
      LinksAround(before, i, blocks[i]);
      assert Contents() == a + b;
      assert ErasedAt(before, blocks, name, i, p, prev);
      ok := true;
    }

    /** The first record with room for another entry behind it; i is -1 when there is none. */
    method FindSlack(needed: int) returns (i: int, p: int)
      requires Valid()
      ensures i >= 0 ==> i < |blocks| && HasSlack(blocks[i], p, needed)
      ensures i < 0 ==> forall k, q :: 0 <= k < |blocks| ==> !HasSlack(blocks[k], q, needed)
    {
      hide Chain, Links, Bytes, U16, U32, Real;
      i, p := 0, 0;
      while i < |blocks|
        invariant 0 <= i <= |blocks| && forall k, q :: 0 <= k < i ==> !HasSlack(blocks[k], q, needed)
      {
        var c := blocks[i];
        p := 0;
        EmptyChain(c);
        while p < |c|
          invariant 0 <= p <= |c| && Chain(c, 0, p) && Chain(c, p, |c|)
          invariant forall q :: q < p ==> !HasSlack(c, q, needed)
          decreases |c| - p
        {
          NextRecord(c, p);
          if Len(c, p) - Real(NameLen(c, p)) >= needed { return; }
          forall q | p < q < p + Len(c, p) ensures !HasSlack(c, q, needed) {
            if Chain(c, 0, q) { NoneBetween(c, 0, p, q); }
          }
          p := p + Len(c, p);
        }
        i := i + 1;
      }
      i := -1;
    }

    /**
     Adds an entry: behind some record with enough slack, or in a new block if one can be had. The directory
     then holds exactly one more link, with the name cut to what a one-byte length can express.
     */
    method Add(name: seq<int>, child: int, kind: int, canGrow: bool) returns (ok: bool, ghost a: seq<Link>, ghost b: seq<Link>)
      requires Valid() && Bytes(name) && Real(|name|) <= size && 0 <= child < 0x1_0000_0000 && 0 <= kind < 0x100
      modifies this
      ensures Valid() && (old(Aligned()) ==> Aligned())
      ensures !ok ==> !canGrow && blocks == old(blocks)
      ensures ok ==> old(Contents()) == a + b && Contents() == a + NewLink(name, child, kind) + b
      ensures ok ==> |blocks| == |old(blocks)| + if HasRoom(old(blocks), Real(|name|)) then 0 else 1
    {
      hide Chain, Links, AllLinks, Bytes, Own, U16, U32, Real, SplitRec, FreshBlock, NewLink;
      var i, p := FindSlack(Real(|name|));
      if i >= 0 {
        ghost var before := blocks;
        var c := blocks[i];
        SplitBlock(c, p, child, name, kind);
        if Aligned() { SplitAligned(c, p, child, name, kind); }
        LinksAround(before, i, c);
        assert before[i := c] == before;
        blocks := blocks[i := SplitRec(c, p, child, name, kind)];
        LinksAround(before, i, blocks[i]);
        a := AllLinks(before[..i]) + (Links(c, 0, p) + Own(c, p));
        b := Links(c, p + Len(c, p), |c|) + AllLinks(before[i + 1..]);
        ok := true;
        return;
      }
      if !canGrow { return false, [], []; }
      FreshLinks(size, child, name, kind);
      if Aligned() { FreshAligned(size, child, name, kind); }
      OneBlock(FreshBlock(size, child, name, kind));
      LinksJoin(blocks, [FreshBlock(size, child, name, kind)]);
      a, b := Contents(), [];
      blocks := blocks + [FreshBlock(size, child, name, kind)];
      ok := true;
    }
  }

  ghost predicate HasSlack(b: seq<int>, p: int, needed: int) {
    RecOk(b, p) && Chain(b, 0, p) && Chain(b, p + Len(b, p), |b|) && Len(b, p) - Real(NameLen(b, p)) >= needed
  }

  /** Some record of the directory has that much slack. */
  ghost predicate HasRoom(blocks: seq<seq<int>>, needed: int) {
    exists k, p :: 0 <= k < |blocks| && HasSlack(blocks[k], p, needed)
  }

  /** No chain from s stops inside a record of another. */
  lemma {:induction false} NoneBetween(b: seq<int>, s: int, p: int, q: int)
    requires Chain(b, s, p) && Chain(b, s, q) && p < q && RecOk(b, p)
    ensures p + Len(b, p) <= q
    decreases p - s
  {
    hide U16, U32, Real;
    if s < p { NoneBetween(b, s + Len(b, s), p, q); }
  }

  lemma NoLinks(name: seq<int>)
    ensures AllChains([]) && Absent(AllLinks([]), name)
  {
  }

  lemma MoreAbsent(a: seq<seq<int>>, c: seq<int>, name: seq<int>)
    requires AllChains(a) && Chain(c, 0, |c|) && Absent(AllLinks(a), name) && Absent(BlockLinks(c), name)
    ensures AllChains(a + [c]) && Absent(AllLinks(a + [c]), name)
  {
    hide Chain, AllLinks, BlockLinks;
    OneBlock(c);
    LinksJoin(a, [c]);
  }

  /** The links before, at and after a located entry. */
  ghost function Before(blocks: seq<seq<int>>, i: int, p: int): seq<Link>
    requires 0 <= i < |blocks| && AllChains(blocks[..i]) && Chain(blocks[i], 0, p)
  {
    AllLinks(blocks[..i]) + Links(blocks[i], 0, p)
  }

  ghost function After(blocks: seq<seq<int>>, i: int, e: int): seq<Link>
    requires 0 <= i < |blocks| && AllChains(blocks[i + 1..]) && Chain(blocks[i], e, |blocks[i]|)
  {
    Links(blocks[i], e, |blocks[i]|) + AllLinks(blocks[i + 1..])
  }

  lemma FoundLinks(blocks: seq<seq<int>>, i: int, name: seq<int>, p: int, prev: int)
    requires AllChains(blocks) && 0 <= i < |blocks| && FoundAt(blocks[i], name, p, prev)
    requires AllChains(blocks[..i]) && Absent(AllLinks(blocks[..i]), name)
    ensures AllChains(blocks[i + 1..])
    ensures var l := Link(name, Ino(blocks[i], p), Kind(blocks[i], p));
      && Absent(Before(blocks, i, p), name)
      && AllLinks(blocks) == Before(blocks, i, p) + [l] + After(blocks, i, p + Len(blocks[i], p))
      && Lookup(AllLinks(blocks), name) == l.ino
  {
    hide Chain, Links, AllLinks, U16, U32, Real, Lookup;
    var c := blocks[i];
    OneRecord(c, p);
    ChainJoin(c, 0, p, p + Len(c, p));
    ChainJoin(c, 0, p + Len(c, p), |c|);
    LinksAround(blocks, i, c);
    assert blocks[i := c] == blocks;
    var l := Link(name, Ino(c, p), Kind(c, p));
    var a, b := Before(blocks, i, p), After(blocks, i, p + Len(c, p));
    assert AllLinks(blocks) == a + [l] + b;
    LookupAfter(a, [l] + b, name);
    assert a + [l] + b == a + ([l] + b);
    HeadLookup(l, b);
  }

  lemma HeadLookup(l: Link, b: seq<Link>)
    ensures Lookup([l] + b, l.name) == l.ino
  {
  }
}
