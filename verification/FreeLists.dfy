/**
 The buddy allocator's concrete lists: 20 lists of block heads, and the list node kept in
 the first bytes of every page, whose content outside the listed heads is arbitrary.
 */
module FreeLists {
  import opened Basics
  import opened Buddy

  /** The list node at the start of a page: the order recorded there and whether its links are set. */
  datatype Node = Node(order: int, linked: bool)

  type Lists = seq<seq<int>>

  /** Bitwise exclusive or. */
  function Xor(a: int, b: int): int
    requires a >= 0 && b >= 0
    decreases a + b
  {
    if a == 0 && b == 0 then 0 else 2 * Xor(a / 2, b / 2) + (a % 2 + b % 2) % 2
  }

  lemma {:induction false} XorZero(a: int)
    requires a >= 0
    ensures Xor(a, 0) == a
  {
    if a > 0 { XorZero(a / 2); }
  }

  /** `pfn ^ (1 << order)` of a block's head is the head of its sibling. */
  lemma {:induction false} XorSibling(b: Block)
    requires b.order >= 0 && b.idx >= 0
    ensures Head(b) >= 0 && Xor(Head(b), Pow2(b.order)) == Head(Sibling(b))
    decreases b.order
  {
    if b.order == 0 {
      XorZero(b.idx / 2);
    } else {
      hide Xor, Head;
      var c := b.(order := b.order - 1);
      XorSibling(c);
      HalfOrder(b);
      HalfOrder(Sibling(b));
      XorTwice(Head(c), Pow2(c.order));
    }
  }

  lemma XorTwice(a: int, b: int)
    requires a >= 0 && b >= 0
    ensures Xor(2 * a, 2 * b) == 2 * Xor(a, b)
  {
  }

  lemma HalfOrder(b: Block)
    requires b.order >= 1
    ensures Head(b) == 2 * Head(b.(order := b.order - 1))
  {
    Twice(b.idx, Pow2(b.order - 1));
  }

  lemma Twice(i: int, n: int)
    ensures i * (2 * n) == 2 * (i * n)
  {
  }

  /** The lower of a head and its sibling's head is their parent's. */
  lemma ParentHead(b: Block)
    requires b.order >= 0
    ensures Head(Parent(b)) == if Head(b) < Head(Sibling(b)) then Head(b) else Head(Sibling(b))
  {
    var n := Pow2(b.order);
    Twice(b.idx / 2, n);
    if b.idx % 2 == 0 {
      assert b.idx == 2 * (b.idx / 2);
      assert Head(Sibling(b)) == Head(b) + n by { Distribute(b.idx, n); }
    } else {
      assert b.idx == 2 * (b.idx / 2) + 1;
      assert Head(b) == Head(Sibling(b)) + n by { Distribute(b.idx - 1, n); }
    }
  }

  lemma Distribute(i: int, n: int)
    ensures (i + 1) * n == i * n + n
  {
  }

  function BlockAt(p: int, k: int): Block
    requires k >= 0
  {
    Block(Index(p, k), k)
  }

  lemma BlockAtHead(b: Block)
    requires b.order >= 0
    ensures BlockAt(Head(b), b.order) == b
  {
    HeadCovered(b);
  }

  /** Twenty lists without repetitions, each entry the head of a block of its list's order. */
  ghost predicate ListsOk(lists: Lists) {
    && |lists| == MAX_ORDER
    && (forall k :: 0 <= k < MAX_ORDER ==> Distinct(lists[k]))
    && (forall k, p :: 0 <= k < MAX_ORDER && p in lists[k] ==> p >= 0 && Head(BlockAt(p, k)) == p)
  }

  /** Every listed head carries its order and set links; nothing is said of other pages. */
  ghost predicate NodesOk(lists: Lists, nodes: map<int, Node>) {
    forall k, p :: 0 <= k < |lists| && p in lists[k] ==> p in nodes && nodes[p] == Node(k, true)
  }

  ghost function Blocks(lists: Lists): set<Block> {
    set k, p | 0 <= k < |lists| && p in lists[k] :: BlockAt(p, k)
  }

  lemma ListedBlock(lists: Lists, b: Block)
    requires ListsOk(lists) && 0 <= b.order < MAX_ORDER
    ensures b in Blocks(lists) <==> Head(b) in lists[b.order]
  {
    BlockAtHead(b);
    if b in Blocks(lists) {
      var k, p :| 0 <= k < |lists| && p in lists[k] && BlockAt(p, k) == b;
    }
    if Head(b) in lists[b.order] {
      assert BlockAt(Head(b), b.order) == b;
    }
  }

  /** Unlinking a head removes exactly its block. */
  lemma Unlink(lists: Lists, k: int, p: int)
    requires ListsOk(lists) && 0 <= k < MAX_ORDER && p in lists[k]
    ensures ListsOk(lists[k := Without(lists[k], p)])
    ensures Blocks(lists[k := Without(lists[k], p)]) == Blocks(lists) - {BlockAt(p, k)}
  {
    var t := lists[k := Without(lists[k], p)];
    WithoutDistinct(lists[k], p);
    forall b ensures b in Blocks(t) <==> b in Blocks(lists) - {BlockAt(p, k)} {
      if 0 <= b.order < MAX_ORDER {
        ListedBlock(t, b);
        ListedBlock(lists, b);
        if b.order == k && Head(b) == p { BlockAtHead(b); }
      }
    }
  }

  /** Appending a head adds exactly its block. */
  lemma Link(lists: Lists, b: Block)
    requires ListsOk(lists) && 0 <= b.order < MAX_ORDER && Head(b) >= 0 && b !in Blocks(lists)
    ensures ListsOk(lists[b.order := lists[b.order] + [Head(b)]])
    ensures Blocks(lists[b.order := lists[b.order] + [Head(b)]]) == Blocks(lists) + {b}
  {
    var t := lists[b.order := lists[b.order] + [Head(b)]];
    ListedBlock(lists, b);
    BlockAtHead(b);
    forall c ensures c in Blocks(t) <==> c in Blocks(lists) + {b} {
      if 0 <= c.order < MAX_ORDER {
        ListedBlock(t, c);
        ListedBlock(lists, c);
        if c.order == b.order && Head(c) == Head(b) { BlockAtHead(c); }
      }
    }
  }

  /**
   The coalescing test reads a node that may be stale or user data, yet it is exact: for a sibling
   head that is a free page, the recorded order equals k just when the sibling is a listed block.
   */
  lemma SiblingTest(lists: Lists, nodes: map<int, Node>, P: iset<int>, b: Block)
    requires ListsOk(lists) && NodesOk(lists, nodes) && Partition(Blocks(lists), P)
    requires 0 <= b.order < MAX_ORDER - 1 && b.idx >= 0 && Apart(b, P)
    ensures var q := Head(Sibling(b));
      Sibling(b) in Blocks(lists) <==> q in P && q in nodes && nodes[q] == Node(b.order, true)
  {
    var s := Sibling(b);
    var q := Head(s);
    ListedBlock(lists, s);
    HeadCovered(s);
    if q in P && q in nodes && nodes[q] == Node(b.order, true) {
      var c :| c in Blocks(lists) && Covers(c, q);
      if c.order > b.order {
        Nested(s, c, q, q);
        SiblingInside(b, c);
        HeadCovered(b);
        assert false;
      }
      SmallerHead(s, c);
      ListedBlock(lists, c);
    }
  }

  /** A larger block that holds a sibling's head holds the block as well. */
  lemma SiblingInside(b: Block, c: Block)
    requires 0 <= b.order < c.order && Covers(c, Head(Sibling(b)))
    ensures Covers(c, Head(b))
  {
    var q := Head(Sibling(b));
    HeadCovered(Sibling(b));
    HeadCovered(b);
    Siblings(b, q);
    Siblings(b, Head(b));
    Nested(Parent(b), c, q, Head(b));
  }

  /** A block no larger than s that holds the head of s starts there. */
  lemma SmallerHead(s: Block, c: Block)
    requires 0 <= c.order <= s.order && Covers(c, Head(s))
    ensures Head(c) == Head(s)
  {
    CoversInterval(c, Head(s));
    CoversInterval(c, Head(c));
    HeadCovered(s);
    HeadCovered(c);
    Nested(c, s, Head(s), Head(c));
    CoversInterval(s, Head(c));
  }
}
