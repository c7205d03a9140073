/**
 The theory of the binary buddy system: aligned blocks of page frames, the split and
 coalesce steps on sets of free blocks, and why the set of free pages alone determines
 the free lists.
 */
module Buddy {

  const MAX_ORDER: int := 20

  /** 2^k */
  function Pow2(k: int): (r: int)
    requires k >= 0
    ensures r >= 1
  {
    if k == 0 then 1 else 2 * Pow2(k - 1)
  }

  /** The number of the order-k block that holds page p. */
  function Index(p: int, k: int): int
    requires k >= 0
  {
    if k == 0 then p else Index(p, k - 1) / 2
  }

  /** The `idx`-th block of 2^order pages. */
  datatype Block = Block(idx: int, order: int)

  predicate Covers(b: Block, p: int)
    requires b.order >= 0
  {
    Index(p, b.order) == b.idx
  }

  function Head(b: Block): int
    requires b.order >= 0
  {
    b.idx * Pow2(b.order)
  }

  function Sibling(b: Block): Block {
    if b.idx % 2 == 0 then b.(idx := b.idx + 1) else b.(idx := b.idx - 1)
  }

  function Parent(b: Block): Block { Block(b.idx / 2, b.order + 1) }

  function Left(b: Block): Block { Block(2 * b.idx, b.order - 1) }

  function Right(b: Block): Block { Block(2 * b.idx + 1, b.order - 1) }

  // ---------------------------------------------------------------- arithmetic of blocks

  lemma {:induction false} IndexCompose(p: int, j: int, k: int)
    requires 0 <= j && 0 <= k
    ensures Index(p, j + k) == Index(Index(p, j), k)
    decreases k
  {
    if k > 0 { IndexCompose(p, j, k - 1); }
  }

  /** The pages of a block are exactly the 2^order pages from its head on. */
  lemma {:induction false} CoversInterval(b: Block, p: int)
    requires b.order >= 0
    ensures Covers(b, p) <==> Head(b) <= p < Head(b) + Pow2(b.order)
    decreases b.order
  {
    if b.order > 0 {
      CoversInterval(Left(b), p);
      CoversInterval(Right(b), p);
      var i := Index(p, b.order - 1);
      assert i / 2 == b.idx <==> i == 2 * b.idx || i == 2 * b.idx + 1;
      assert Head(b) == Head(Left(b)) && Head(Right(b)) == Head(Left(b)) + Pow2(b.order - 1) by {
        HalvesHeads(b.idx, Pow2(b.order - 1));
      }
    }
  }

  lemma HalvesHeads(i: int, n: int)
    ensures i * (2 * n) == 2 * i * n && (2 * i + 1) * n == 2 * i * n + n
  {
  }

  lemma HeadCovered(b: Block)
    requires b.order >= 0
    ensures Covers(b, Head(b))
  {
    CoversInterval(b, Head(b));
  }

  /** Two blocks that share a page are nested: the smaller lies inside the larger. */
  lemma Nested(a: Block, b: Block, p: int, q: int)
    requires 0 <= a.order <= b.order && Covers(a, p) && Covers(b, p) && Covers(a, q)
    ensures Covers(b, q)
  {
    IndexCompose(p, a.order, b.order - a.order);
    IndexCompose(q, a.order, b.order - a.order);
  }

  /** A block splits into its two halves, and a block and its sibling make up their parent. */
  lemma Halves(b: Block, p: int)
    requires b.order > 0
    ensures Covers(b, p) <==> Covers(Left(b), p) || Covers(Right(b), p)
    ensures !(Covers(Left(b), p) && Covers(Right(b), p))
    ensures Sibling(Left(b)) == Right(b) && Sibling(Right(b)) == Left(b)
    ensures Parent(Left(b)) == b && Parent(Right(b)) == b
  {
  }

  lemma ParentOrder(b: Block)
    ensures Parent(b).order == b.order + 1 && Sibling(b).order == b.order
  {
  }

  lemma Siblings(b: Block, p: int)
    requires b.order >= 0
    ensures Covers(Parent(b), p) <==> Covers(b, p) || Covers(Sibling(b), p)
    ensures !(Covers(b, p) && Covers(Sibling(b), p))
    ensures Sibling(Sibling(b)) == b && Sibling(b) != b && Parent(Sibling(b)) == Parent(b)
  {
  }

  // ---------------------------------------------------------------- free sets

  /** The blocks of F are disjoint and cover exactly the pages of P. */
  ghost predicate Partition(F: set<Block>, P: iset<int>) {
    && (forall b :: b in F ==> 0 <= b.order < MAX_ORDER)
    && (forall b, p {:trigger b in F, p in P} :: b in F && Covers(b, p) ==> p in P)
    && (forall p :: p in P ==> exists b :: b in F && Covers(b, p))
    && (forall b, c, p {:trigger Covers(b, p), Covers(c, p)} :: b in F && c in F && Covers(b, p) && Covers(c, p) ==> b == c)
  }

  /** No two free siblings below the top order. */
  ghost predicate NoSiblings(F: set<Block>) {
    forall b :: b in F && b.order < MAX_ORDER - 1 ==> Sibling(b) !in F
  }

  /** The pages of a block. */
  ghost function Pages(b: Block): iset<int>
    requires b.order >= 0
  {
    iset p | Covers(b, p)
  }

  /** Freeing a block: merge with the free sibling as long as there is one. */
  function Coalesce(F: set<Block>, b: Block): set<Block>
    requires b.order >= 0
    decreases MAX_ORDER - b.order
  {
    if b.order < MAX_ORDER - 1 && Sibling(b) in F then Coalesce(F - {Sibling(b)}, Parent(b)) else F + {b}
  }

  /** Splitting a block taken off the lists down to order k; the right halves go back. */
  function Split(F: set<Block>, b: Block, k: int): (r: (set<Block>, Block))
    requires 0 <= k <= b.order
    ensures r.1.order == k
    decreases b.order
  {
    if b.order == k then (F, b) else Split(F + {Right(b)}, Left(b), k)
  }

  ghost predicate Apart(b: Block, P: iset<int>)
    requires b.order >= 0
  {
    forall p :: Covers(b, p) ==> p !in P
  }

  lemma RemoveBlock(F: set<Block>, P: iset<int>, b: Block)
    requires Partition(F, P) && b in F
    ensures Partition(F - {b}, P - Pages(b)) && Apart(b, P - Pages(b))
  {
    forall p | p in P - Pages(b) ensures exists c :: c in F - {b} && Covers(c, p) {
      var c :| c in F && Covers(c, p);
      assert c in F - {b};
    }
  }

  lemma AddBlock(F: set<Block>, P: iset<int>, b: Block)
    requires Partition(F, P) && 0 <= b.order < MAX_ORDER && Apart(b, P)
    ensures Partition(F + {b}, P + Pages(b))
  {
    forall p | p in P + Pages(b) ensures exists c :: c in F + {b} && Covers(c, p) {
      if p in P {
        var c :| c in F && Covers(c, p);
        assert c in F + {b};
      } else {
        assert b in F + {b};
      }
    }
    forall c, d, p | c in F + {b} && d in F + {b} && Covers(c, p) && Covers(d, p) ensures c == d {
    }
  }

  /** Coalescing keeps the partition, adds exactly the freed pages and leaves no two free siblings if there were none. */
  lemma {:induction false} CoalesceCorrect(F: set<Block>, P: iset<int>, b: Block)
    requires Partition(F, P) && 0 <= b.order < MAX_ORDER && Apart(b, P)
    ensures Partition(Coalesce(F, b), P + Pages(b)) && (NoSiblings(F) ==> NoSiblings(Coalesce(F, b)))
    decreases MAX_ORDER - b.order
  {
    var s := Sibling(b);
    if b.order < MAX_ORDER - 1 && s in F {
      RemoveBlock(F, P, s);
      forall p ensures Covers(Parent(b), p) <==> Covers(b, p) || Covers(s, p) { Siblings(b, p); }
      CoalesceCorrect(F - {s}, P - Pages(s), Parent(b));
      assert P - Pages(s) + Pages(Parent(b)) == P + Pages(b) by {
        assert forall p :: Covers(s, p) ==> p in P;
      }
    } else {
      AddBlock(F, P, b);
      forall c | NoSiblings(F) && c in F + {b} && c.order < MAX_ORDER - 1 ensures Sibling(c) !in F + {b} {
        Siblings(c, 0);
      }
    }
  }

  /** Splitting hands out one block of the wanted order and returns all the rest of the pages. */
  lemma {:induction false} SplitCorrect(F: set<Block>, P: iset<int>, b: Block, k: int)
    requires Partition(F, P) && 0 <= k <= b.order < MAX_ORDER && Apart(b, P)
    ensures var (F', r) := Split(F, b, k);
      && r.order == k && Pages(r) <= Pages(b)
      && Partition(F', P + (Pages(b) - Pages(r))) && (NoSiblings(F) ==> NoSiblings(F'))
    decreases b.order
  {
    if b.order > k {
      var l, r := Left(b), Right(b);
      forall p ensures Covers(b, p) <==> Covers(l, p) || Covers(r, p)
        ensures !(Covers(l, p) && Covers(r, p))
      {
        Halves(b, p);
      }
      AddBlock(F, P, r);
      HeadCovered(l);
      assert l !in F;
      forall c | NoSiblings(F) && c in F + {r} && c.order < MAX_ORDER - 1 ensures Sibling(c) !in F + {r} {
        Halves(b, 0);
        Siblings(c, 0);
      }
      SplitCorrect(F + {r}, P + Pages(r), l, k);
      var x := Split(F, b, k).1;
      assert P + Pages(r) + (Pages(l) - Pages(x)) == P + (Pages(b) - Pages(x));
    } else {
      assert P + (Pages(b) - Pages(b)) == P;
    }
  }

  // ---------------------------------------------------------------- history independence

  /** If all pages of an aligned block are free, one free block contains it. */
  lemma {:induction false} Contained(F: set<Block>, P: iset<int>, b: Block) returns (c: Block)
    requires Partition(F, P) && NoSiblings(F) && 0 <= b.order < MAX_ORDER && Pages(b) <= P
    ensures c in F && b.order <= c.order && Pages(b) <= Pages(c)
    decreases b.order
  {
    HeadCovered(b);
    if b.order == 0 {
      assert Head(b) in Pages(b);
      c :| c in F && Covers(c, Head(b));
      Nests(b, c, Head(b));
    } else {
      forall p ensures Covers(b, p) <==> Covers(Left(b), p) || Covers(Right(b), p) { Halves(b, p); }
      var x := Contained(F, P, Left(b));
      var y := Contained(F, P, Right(b));
      Halves(b, 0);
      if x.order >= b.order {
        c := x;
        HeadCovered(Left(b));
        assert Head(Left(b)) in Pages(Left(b));
        Nests(b, c, Head(Left(b)));
      } else if y.order >= b.order {
        c := y;
        HeadCovered(Right(b));
        assert Head(Right(b)) in Pages(Right(b));
        Nests(b, c, Head(Right(b)));
      } else {
        SameOrder(Left(b), x);
        SameOrder(Right(b), y);
        c := x;
        assert false;
      }
    }
  }

  lemma Nests(a: Block, b: Block, p: int)
    requires 0 <= a.order <= b.order && Covers(a, p) && Covers(b, p)
    ensures Pages(a) <= Pages(b)
  {
    forall q | Covers(a, q) ensures Covers(b, q) { Nested(a, b, p, q); }
  }

  lemma SameOrder(a: Block, b: Block)
    requires 0 <= a.order == b.order && Pages(a) <= Pages(b)
    ensures a == b
  {
    HeadCovered(a);
    assert Head(a) in Pages(b);
  }

  /**
   History independence: the set of free pages alone determines the free blocks, whatever
   sequence of allocations and releases led there.
   */
  lemma FreeListsDetermined(F: set<Block>, G: set<Block>, P: iset<int>)
    requires Partition(F, P) && NoSiblings(F) && Partition(G, P) && NoSiblings(G)
    ensures F == G
  {
    forall b | b in F ensures b in G { OnlyOne(F, G, P, b); }
    forall b | b in G ensures b in F { OnlyOne(G, F, P, b); }
  }

  lemma OnlyOne(F: set<Block>, G: set<Block>, P: iset<int>, b: Block)
    requires Partition(F, P) && NoSiblings(F) && Partition(G, P) && NoSiblings(G) && b in F
    ensures b in G
  {
    var c := Contained(G, P, b);
    assert Pages(c) <= P;
    var d := Contained(F, P, c);
    HeadCovered(b);
    assert Head(b) in Pages(c) && Head(b) in Pages(d);
    assert b == d;
    SameOrder(b, c);
  }

  /** Releasing what a split handed out puts the free blocks back as they were. */
  lemma ReleaseRestores(F: set<Block>, P: iset<int>, b: Block, k: int)
    requires Partition(F, P) && NoSiblings(F) && b in F && 0 <= k <= b.order
    ensures var (F', r) := Split(F - {b}, b, k); Coalesce(F', r) == F
  {
    RemoveBlock(F, P, b);
    SplitCorrect(F - {b}, P - Pages(b), b, k);
    var (F', r) := Split(F - {b}, b, k);
    var P' := P - Pages(b) + (Pages(b) - Pages(r));
    CoalesceCorrect(F', P', r);
    assert P' + Pages(r) == P by { assert Pages(b) <= P; }
    FreeListsDetermined(Coalesce(F', r), F, P);
  }

  // ---------------------------------------------------------------- runs

  /** The free blocks, and the pages out on loan. */
  datatype Allocator = Allocator(free: set<Block>, ghost lent: iset<int>)

  /** Lend a block split off any free block, or take back any block of lent pages. */
  ghost predicate Next(s: Allocator, t: Allocator) {
    || (exists b, k :: LendStep(s, t, b, k))
    || (exists b :: ReturnStep(s, t, b))
  }

  ghost predicate LendStep(s: Allocator, t: Allocator, b: Block, k: int) {
    && b in s.free && 0 <= k <= b.order
    && var (F, r) := Split(s.free - {b}, b, k); t == Allocator(F, s.lent + Pages(r))
  }

  ghost predicate ReturnStep(s: Allocator, t: Allocator, b: Block) {
    && 0 <= b.order < MAX_ORDER && Pages(b) <= s.lent
    && t == Allocator(Coalesce(s.free, b), s.lent - Pages(b))
  }

  /** The free blocks partition the pages not lent. */
  ghost predicate Sound(s: Allocator, P: iset<int>) {
    s.lent <= P && Partition(s.free, P - s.lent)
  }

  /** A lent block was free and on loan to nobody. */
  lemma LendSound(s: Allocator, t: Allocator, P: iset<int>, b: Block, k: int)
    requires Sound(s, P) && LendStep(s, t, b, k)
    ensures Sound(t, P) && Apart(Split(s.free - {b}, b, k).1, s.lent) && (NoSiblings(s.free) ==> NoSiblings(t.free))
  {
    RemoveBlock(s.free, P - s.lent, b);
    SplitCorrect(s.free - {b}, P - s.lent - Pages(b), b, k);
    var r := Split(s.free - {b}, b, k).1;
    assert Pages(b) <= P - s.lent;
    assert P - s.lent - Pages(b) + (Pages(b) - Pages(r)) == P - t.lent;
  }

  lemma ReturnSound(s: Allocator, t: Allocator, P: iset<int>, b: Block)
    requires Sound(s, P) && ReturnStep(s, t, b)
    ensures Sound(t, P) && (NoSiblings(s.free) ==> NoSiblings(t.free))
  {
    CoalesceCorrect(s.free, P - s.lent, b);
    assert P - s.lent + Pages(b) == P - t.lent;
  }

  /**
   Over every run, the free blocks partition the pages not lent; and if they were coalesced at the start, then
   whenever everything has come back, page by page or block by block, the free blocks are those of the start.
   */
  lemma {:induction false} RunRestores(run: seq<Allocator>, P: iset<int>)
    requires run != [] && Sound(run[0], P) && run[0].lent == iset{}
    requires forall i :: 0 <= i < |run| - 1 ==> Next(run[i], run[i + 1])
    ensures Sound(run[|run| - 1], P)
    ensures NoSiblings(run[0].free) ==> NoSiblings(run[|run| - 1].free)
    ensures NoSiblings(run[0].free) && run[|run| - 1].lent == iset{} ==> run[|run| - 1].free == run[0].free
    decreases |run|
  {
    hide Partition, NoSiblings;
    if |run| > 1 {
      var s, t := run[|run| - 2], run[|run| - 1];
      RunRestores(run[..|run| - 1], P);
      assert Next(run[|run| - 2], run[|run| - 2 + 1]);
      if b, k :| LendStep(s, t, b, k) {
        LendSound(s, t, P, b, k);
      } else {
        var b :| ReturnStep(s, t, b);
        ReturnSound(s, t, P, b);
      }
      if t.lent == iset{} && NoSiblings(run[0].free) {
        assert P - iset{} == P;
        FreeListsDetermined(t.free, run[0].free, P);
      }
    }
  }

  // ---------------------------------------------------------------- regions carved apart

  /** F[i] is the coalesced partition of the pages P[i], and different i have no page in common. */
  ghost predicate Pieces(F: seq<set<Block>>, P: seq<iset<int>>) {
    && |F| == |P|
    && (forall i :: 0 <= i < |F| ==> Partition(F[i], P[i]) && NoSiblings(F[i]))
    && (forall i, j :: 0 <= i < j < |P| ==> P[i] !! P[j])
  }

  ghost function Union(F: seq<set<Block>>): set<Block> {
    set i, b | 0 <= i < |F| && b in F[i] :: b
  }

  ghost function AllPages(P: seq<iset<int>>): iset<int> {
    iset i, p | 0 <= i < |P| && p in P[i] :: p
  }

  lemma UnionPartition(F: seq<set<Block>>, P: seq<iset<int>>)
    requires Pieces(F, P)
    ensures Partition(Union(F), AllPages(P))
  {
    forall p | p in AllPages(P) ensures exists b :: b in Union(F) && Covers(b, p) {
      var i :| 0 <= i < |P| && p in P[i];
      var b :| b in F[i] && Covers(b, p);
      assert b in Union(F);
    }
    forall b, p | b in Union(F) && Covers(b, p) ensures p in AllPages(P) {
      var i :| 0 <= i < |F| && b in F[i];
      assert p in P[i];
    }
    forall b, c, p | b in Union(F) && c in Union(F) && Covers(b, p) && Covers(c, p) ensures b == c {
      var i :| 0 <= i < |F| && b in F[i];
      var j :| 0 <= j < |F| && c in F[j];
      assert p in P[i] && p in P[j];
    }
  }

  /** Every aligned block made of the pages of P lies in one piece of P. */
  ghost predicate NoneStraddles(P: seq<iset<int>>) {
    forall b: Block :: 0 <= b.order < MAX_ORDER && Pages(b) <= AllPages(P) ==> InOnePiece(b, P)
  }

  ghost predicate InOnePiece(b: Block, P: seq<iset<int>>)
    requires b.order >= 0
  {
    exists i :: 0 <= i < |P| && Pages(b) <= P[i]
  }

  /** Pieces carved apart are coalesced as a whole exactly when no aligned free run straddles two of them. */
  lemma CoalescedIff(F: seq<set<Block>>, P: seq<iset<int>>)
    requires Pieces(F, P)
    ensures NoSiblings(Union(F)) <==> NoneStraddles(P)
  {
    UnionPartition(F, P);
    if NoSiblings(Union(F)) {
      forall b: Block | 0 <= b.order < MAX_ORDER && Pages(b) <= AllPages(P) ensures InOnePiece(b, P) {
        var c := Contained(Union(F), AllPages(P), b);
        var i :| 0 <= i < |F| && c in F[i];
        assert Pages(c) <= P[i];
      }
    }
    if NoneStraddles(P) {
      forall b | b in Union(F) && b.order < MAX_ORDER - 1 ensures Sibling(b) !in Union(F) {
        if Sibling(b) in Union(F) { ApartSiblings(F, P, b); }
      }
    }
  }

  /** Two free siblings come from two different pieces, and their parent straddles them. */
  lemma ApartSiblings(F: seq<set<Block>>, P: seq<iset<int>>, b: Block)
    requires Pieces(F, P) && b in Union(F) && Sibling(b) in Union(F) && 0 <= b.order < MAX_ORDER - 1
    ensures !NoneStraddles(P)
  {
    hide Covers, Sibling, Parent;
    var s, c := Sibling(b), Parent(b);
    var i :| 0 <= i < |F| && b in F[i];
    var j :| 0 <= j < |F| && s in F[j];
    ParentOrder(b);
    forall p ensures Covers(c, p) <==> Covers(b, p) || Covers(s, p) { Siblings(b, p); }
    forall p | Covers(c, p) ensures p in AllPages(P) {
      assert p in if Covers(b, p) then P[i] else P[j];
    }
    HeadCovered(b);
    HeadCovered(s);
    assert Head(b) in Pages(c) && Head(s) in Pages(c);
    assert Head(b) in P[i] && Head(s) in P[j];
    if i == j {
      Siblings(b, 0);
    }
    assert !InOnePiece(c, P);
  }
}
