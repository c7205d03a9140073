/**
 The interval tree as it is kept in memory: nodes that point to one another and are changed in place. Every
 operation is shown to do to the nodes what its counterpart in AvlTree does to the tree they represent.
 */
module VmaNodes {
  import opened AvlTree
  import opened Basics

  /** A node in memory; 0 is the null pointer. */
  datatype Rec = Rec(vma: Vma, left: int, right: int, height: int, maxEnd: int)

  type Heap = map<int, Rec>

  /** The nodes reached from p that make up the tree t. */
  ghost function Foot(m: Heap, p: int, t: Tree): set<int>
    decreases t
  {
    if t.Leaf? || p !in m then {} else {p} + Foot(m, m[p].left, t.left) + Foot(m, m[p].right, t.right)
  }

  /** p's children represent l and r, without sharing, and p holds region v. */
  ghost predicate Joins(m: Heap, p: int, l: Tree, v: Vma, r: Tree)
    decreases l, r, 0
  {
    && p != 0 && p in m && m[p].vma == v
    && Is(m, m[p].left, l) && Is(m, m[p].right, r)
    && p !in Foot(m, m[p].left, l) && p !in Foot(m, m[p].right, r)
    && Foot(m, m[p].left, l) !! Foot(m, m[p].right, r)
  }

  /** The nodes reached from p represent exactly the tree t. */
  ghost predicate Is(m: Heap, p: int, t: Tree)
    decreases t
  {
    if t.Leaf? then p == 0
    else
      && p != 0 && p in m && m[p].vma == t.vma && m[p].height == t.height && m[p].maxEnd == t.maxEnd
      && Is(m, m[p].left, t.left) && Is(m, m[p].right, t.right)
      && p !in Foot(m, m[p].left, t.left) && p !in Foot(m, m[p].right, t.right)
      && Foot(m, m[p].left, t.left) !! Foot(m, m[p].right, t.right)
  }

  /** The nodes of S are the same in both heaps. */
  ghost predicate SameOn(m: Heap, m': Heap, S: set<int>) {
    forall x :: x in S && x in m ==> x in m' && m'[x] == m[x]
  }

  /** Nodes outside S are the same in both heaps. */
  ghost predicate SameOff(m: Heap, m': Heap, S: set<int>) {
    forall x :: x !in S ==> (x in m' <==> x in m) && (x in m ==> m'[x] == m[x])
  }

  /** What a tree looks like depends on its own nodes only. */
  lemma {:induction false} Framed(m: Heap, m': Heap, p: int, t: Tree)
    requires Is(m, p, t) && SameOn(m, m', Foot(m, p, t))
    ensures Is(m', p, t) && Foot(m', p, t) == Foot(m, p, t)
    decreases t
  {
    if t.Node? {
      Framed(m, m', m[p].left, t.left);
      Framed(m, m', m[p].right, t.right);
    }
  }

  lemma {:induction false} FootIn(m: Heap, p: int, t: Tree)
    requires Is(m, p, t)
    ensures forall x :: x in Foot(m, p, t) ==> x in m && x != 0
    decreases t
  {
    if t.Node? {
      FootIn(m, m[p].left, t.left);
      FootIn(m, m[p].right, t.right);
    }
  }

  lemma IsJoins(m: Heap, p: int, t: Tree)
    requires t.Node?
    ensures Is(m, p, t) <==> Joins(m, p, t.left, t.vma, t.right) && m[p].height == t.height && m[p].maxEnd == t.maxEnd
  {
  }

  /** The nodes of p and its two subtrees. */
  ghost function PartsFoot(m: Heap, p: int, l: Tree, r: Tree): set<int>
    requires p in m
  {
    {p} + Foot(m, m[p].left, l) + Foot(m, m[p].right, r)
  }

  // ---------------------------------------------------------------- update_node

  function HeightAt(m: Heap, p: int): int { if p == 0 || p !in m then 0 else m[p].height }

  function EndAt(m: Heap, p: int): int { if p == 0 || p !in m then 0 else m[p].maxEnd }

  function Update(m: Heap, p: int): Heap
    requires p in m
  {
    m[p := m[p].(
      height := 1 + Max(HeightAt(m, m[p].left), HeightAt(m, m[p].right)),
      maxEnd := Max(Max(m[p].vma.end, EndAt(m, m[p].left)), EndAt(m, m[p].right)))]
  }

  /** update_node turns a node and two subtrees into the tree Make puts together. */
  lemma UpdateIs(m: Heap, p: int, l: Tree, v: Vma, r: Tree)
    requires Joins(m, p, l, v, r)
    ensures var m' := Update(m, p);
      Is(m', p, Make(l, v, r)) && Foot(m', p, Make(l, v, r)) == PartsFoot(m, p, l, r) && SameOff(m, m', {p})
  {
    var m' := Update(m, p);
    Framed(m, m', m[p].left, l);
    Framed(m, m', m[p].right, r);
  }

  // ---------------------------------------------------------------- rotations

  /** right_rotate: the left child comes up, the node goes down to its right. */
  function RightRotate(m: Heap, y: int): (r: (Heap, int))
    requires y in m && m[y].left in m && m[y].left != y
  {
    var x := m[y].left;
    var m1 := m[x := m[x].(right := y)][y := m[y].(left := m[x].right)];
    (Update(Update(m1, y), x), x)
  }

  function LeftRotate(m: Heap, x: int): (r: (Heap, int))
    requires x in m && m[x].right in m && m[x].right != x
  {
    var y := m[x].right;
    var m1 := m[y := m[y].(left := x)][x := m[x].(right := m[y].left)];
    (Update(Update(m1, x), y), y)
  }

  /** Three subtrees that share no node with one another, nor with x and y. */
  ghost predicate Apart(x: int, y: int, A: set<int>, B: set<int>, C: set<int>) {
    x != y && x !in A + B + C && y !in A + B + C && A !! B && A !! C && B !! C
  }

  /** A node whose left child is a node: its two nodes and three subtrees. */
  lemma LeftGrand(m: Heap, y: int, t: Tree)
    requires t.Node? && t.left.Node? && Joins(m, y, t.left, t.vma, t.right)
    ensures var x := m[y].left;
      && x in m && x != 0 && m[x].vma == t.left.vma
      && Is(m, m[x].left, t.left.left) && Is(m, m[x].right, t.left.right) && Is(m, m[y].right, t.right)
      && Apart(x, y, Foot(m, m[x].left, t.left.left), Foot(m, m[x].right, t.left.right), Foot(m, m[y].right, t.right))
      && PartsFoot(m, y, t.left, t.right)
         == {x, y} + Foot(m, m[x].left, t.left.left) + Foot(m, m[x].right, t.left.right) + Foot(m, m[y].right, t.right)
  {
  }

  lemma RightGrand(m: Heap, x: int, t: Tree)
    requires t.Node? && t.right.Node? && Joins(m, x, t.left, t.vma, t.right)
    ensures var y := m[x].right;
      && y in m && y != 0 && m[y].vma == t.right.vma
      && Is(m, m[x].left, t.left) && Is(m, m[y].left, t.right.left) && Is(m, m[y].right, t.right.right)
      && Apart(x, y, Foot(m, m[x].left, t.left), Foot(m, m[y].left, t.right.left), Foot(m, m[y].right, t.right.right))
      && PartsFoot(m, x, t.left, t.right)
         == {x, y} + Foot(m, m[x].left, t.left) + Foot(m, m[y].left, t.right.left) + Foot(m, m[y].right, t.right.right)
  {
  }

  /** Both nodes updated, lower first, over three subtrees a, b, c: y takes (b, c), x takes (a, y). */
  lemma JoinRight(m: Heap, x: int, y: int, a: Tree, xv: Vma, b: Tree, yv: Vma, c: Tree)
    requires x in m && y in m && x != 0 && y != 0 && m[x].vma == xv && m[y].vma == yv && m[x].right == y
    requires Is(m, m[x].left, a) && Is(m, m[y].left, b) && Is(m, m[y].right, c)
    requires Apart(x, y, Foot(m, m[x].left, a), Foot(m, m[y].left, b), Foot(m, m[y].right, c))
    ensures var m' := Update(Update(m, y), x); var t := Make(a, xv, Make(b, yv, c));
      && Is(m', x, t) && Foot(m', x, t) == {x, y} + Foot(m, m[x].left, a) + Foot(m, m[y].left, b) + Foot(m, m[y].right, c)
      && SameOff(m, m', {x, y})
  {
    hide Make, Is, Foot;
    UpdateIs(m, y, b, yv, c);
    var m2 := Update(m, y);
    Framed(m, m2, m[x].left, a);
    UpdateIs(m2, x, a, xv, Make(b, yv, c));
  }

  lemma JoinLeft(m: Heap, x: int, y: int, a: Tree, xv: Vma, b: Tree, yv: Vma, c: Tree)
    requires x in m && y in m && x != 0 && y != 0 && m[x].vma == xv && m[y].vma == yv && m[y].left == x
    requires Is(m, m[x].left, a) && Is(m, m[x].right, b) && Is(m, m[y].right, c)
    requires Apart(x, y, Foot(m, m[x].left, a), Foot(m, m[x].right, b), Foot(m, m[y].right, c))
    ensures var m' := Update(Update(m, x), y); var t := Make(Make(a, xv, b), yv, c);
      && Is(m', y, t) && Foot(m', y, t) == {x, y} + Foot(m, m[x].left, a) + Foot(m, m[x].right, b) + Foot(m, m[y].right, c)
      && SameOff(m, m', {x, y})
  {
    hide Make, Is, Foot;
    UpdateIs(m, x, a, xv, b);
    var m2 := Update(m, x);
    Framed(m, m2, m[y].right, c);
    UpdateIs(m2, y, Make(a, xv, b), yv, c);
  }

  lemma RightRotateIs(m: Heap, y: int, t: Tree)
    requires t.Node? && t.left.Node? && Joins(m, y, t.left, t.vma, t.right)
    ensures y in m && m[y].left in m && m[y].left != y
    ensures var (m', x) := RightRotate(m, y);
      && Is(m', x, RotateRight(t)) && Foot(m', x, RotateRight(t)) == PartsFoot(m, y, t.left, t.right)
      && SameOff(m, m', PartsFoot(m, y, t.left, t.right))
  {
    LeftGrand(m, y, t);
    hide Make, Is, Foot, Update;
    var x, a, b, c := m[y].left, t.left.left, t.left.right, t.right;
    var m1 := m[x := m[x].(right := y)][y := m[y].(left := m[x].right)];
    Framed(m, m1, m[x].left, a);
    Framed(m, m1, m[x].right, b);
    Framed(m, m1, m[y].right, c);
    JoinRight(m1, x, y, a, t.left.vma, b, t.vma, c);
  }

  lemma LeftRotateIs(m: Heap, x: int, t: Tree)
    requires t.Node? && t.right.Node? && Joins(m, x, t.left, t.vma, t.right)
    ensures x in m && m[x].right in m && m[x].right != x
    ensures var (m', y) := LeftRotate(m, x);
      && Is(m', y, RotateLeft(t)) && Foot(m', y, RotateLeft(t)) == PartsFoot(m, x, t.left, t.right)
      && SameOff(m, m', PartsFoot(m, x, t.left, t.right))
  {
    RightGrand(m, x, t);
    hide Make, Is, Foot, Update;
    var y, a, b, c := m[x].right, t.left, t.right.left, t.right.right;
    var m1 := m[y := m[y].(left := x)][x := m[x].(right := m[y].left)];
    Framed(m, m1, m[x].left, a);
    Framed(m, m1, m[y].left, b);
    Framed(m, m1, m[y].right, c);
    JoinLeft(m1, x, y, a, t.vma, b, t.right.vma, c);
  }

  /** Replacing p's left child by another tree over nodes apart from the rest. */
  lemma NewLeft(m: Heap, m1: Heap, p: int, t: Tree, q: int, l: Tree, S: set<int>)
    requires t.Node? && Joins(m, p, t.left, t.vma, t.right) && Is(m1, q, l) && Foot(m1, q, l) <= S
    requires SameOff(m, m1, S) && p !in S && Foot(m, m[p].right, t.right) !! S
    ensures p in m1
    ensures var m2 := m1[p := m1[p].(left := q)];
      && Joins(m2, p, l, t.vma, t.right) && PartsFoot(m2, p, l, t.right) == {p} + Foot(m1, q, l) + Foot(m, m[p].right, t.right)
      && m2[p].left == q && SameOff(m, m2, S + {p})
  {
    hide Foot, Is;
    var m2 := m1[p := m1[p].(left := q)];
    Framed(m1, m2, q, l);
    Framed(m, m1, m[p].right, t.right);
    Framed(m1, m2, m[p].right, t.right);
  }

  lemma NewRight(m: Heap, m1: Heap, p: int, t: Tree, q: int, r: Tree, S: set<int>)
    requires t.Node? && Joins(m, p, t.left, t.vma, t.right) && Is(m1, q, r) && Foot(m1, q, r) <= S
    requires SameOff(m, m1, S) && p !in S && Foot(m, m[p].left, t.left) !! S
    ensures p in m1
    ensures var m2 := m1[p := m1[p].(right := q)];
      && Joins(m2, p, t.left, t.vma, r) && PartsFoot(m2, p, t.left, r) == {p} + Foot(m, m[p].left, t.left) + Foot(m1, q, r)
      && m2[p].right == q && SameOff(m, m2, S + {p})
  {
    hide Foot, Is;
    var m2 := m1[p := m1[p].(right := q)];
    Framed(m1, m2, q, r);
    Framed(m, m1, m[p].left, t.left);
    Framed(m1, m2, m[p].left, t.left);
  }

  // ---------------------------------------------------------------- the tree in memory

  class NodeTree {
    var nodes: Heap

    constructor ()
      ensures nodes == map[]
    {
      nodes := map[];
    }

    /** right_rotate in place. */
    method RotateRightAt(y: int, ghost t: Tree) returns (x: int)
      requires t.Node? && t.left.Node? && Joins(nodes, y, t.left, t.vma, t.right)
      modifies this
      ensures Is(nodes, x, RotateRight(t)) && Foot(nodes, x, RotateRight(t)) == old(PartsFoot(nodes, y, t.left, t.right))
      ensures SameOff(old(nodes), nodes, old(PartsFoot(nodes, y, t.left, t.right)))
    {
      RightRotateIs(nodes, y, t);
      var (m, r) := RightRotate(nodes, y);
      nodes, x := m, r;
    }

    /** left_rotate in place. */
    method RotateLeftAt(x: int, ghost t: Tree) returns (y: int)
      requires t.Node? && t.right.Node? && Joins(nodes, x, t.left, t.vma, t.right)
      modifies this
      ensures Is(nodes, y, RotateLeft(t)) && Foot(nodes, y, RotateLeft(t)) == old(PartsFoot(nodes, x, t.left, t.right))
      ensures SameOff(old(nodes), nodes, old(PartsFoot(nodes, x, t.left, t.right)))
    {
      LeftRotateIs(nodes, x, t);
      var (m, r) := LeftRotate(nodes, x);
      nodes, y := m, r;
    }

    /** The left child is rotated left, then the node right. */
    method DoubleRight(p: int, ghost t: Tree) returns (r: int)
      requires t.Node? && t.left.Node? && t.left.right.Node? && Is(nodes, p, t)
      modifies this
      ensures Is(nodes, r, RotateRight(WithLeft(t, RotateLeft(t.left))))
      ensures Foot(nodes, r, RotateRight(WithLeft(t, RotateLeft(t.left)))) == old(Foot(nodes, p, t))
      ensures SameOff(old(nodes), nodes, old(Foot(nodes, p, t)))
    {
      ghost var m := nodes;
      IsJoins(m, p, t);
      IsJoins(m, m[p].left, t.left);
      LeftFoot(m, p, t);
      hide Is, Foot, RotateRight, RotateLeft;
      var l := RotateLeftAt(nodes[p].left, t.left);
      NewLeft(m, nodes, p, t, l, RotateLeft(t.left), Foot(m, m[p].left, t.left));
      nodes := nodes[p := nodes[p].(left := l)];
      RotatedNode(t.left);
      r := RotateRightAt(p, WithLeft(t, RotateLeft(t.left)));
    }

    method DoubleLeft(p: int, ghost t: Tree) returns (r: int)
      requires t.Node? && t.right.Node? && t.right.left.Node? && Is(nodes, p, t)
      modifies this
      ensures Is(nodes, r, RotateLeft(WithRight(t, RotateRight(t.right))))
      ensures Foot(nodes, r, RotateLeft(WithRight(t, RotateRight(t.right)))) == old(Foot(nodes, p, t))
      ensures SameOff(old(nodes), nodes, old(Foot(nodes, p, t)))
    {
      ghost var m := nodes;
      IsJoins(m, p, t);
      IsJoins(m, m[p].right, t.right);
      LeftFoot(m, p, t);
      hide Is, Foot, RotateRight, RotateLeft;
      var q := RotateRightAt(nodes[p].right, t.right);
      NewRight(m, nodes, p, t, q, RotateRight(t.right), Foot(m, m[p].right, t.right));
      nodes := nodes[p := nodes[p].(right := q)];
      RotatedNode(t.right);
      r := RotateLeftAt(p, WithRight(t, RotateRight(t.right)));
    }

    function BalanceAt(p: int): int
      requires p in nodes
      reads this
    {
      HeightAt(nodes, nodes[p].left) - HeightAt(nodes, nodes[p].right)
    }

    /** Rebalances after an insertion. */
    method FixInsertAt(p: int, start: int, ghost t: Tree) returns (r: int)
      requires t.Node? && Is(nodes, p, t)
      modifies this
      ensures Is(nodes, r, FixInsert(t, start)) && Foot(nodes, r, FixInsert(t, start)) == old(Foot(nodes, p, t))
      ensures SameOff(old(nodes), nodes, old(Foot(nodes, p, t)))
    {
      Reads(nodes, p, t);
      Reads(nodes, nodes[p].left, t.left);
      Reads(nodes, nodes[p].right, t.right);
      IsJoins(nodes, p, t);
      LeftFoot(nodes, p, t);
      hide Is, Foot, RotateRight, RotateLeft, Joins;
      var l, q, b := nodes[p].left, nodes[p].right, BalanceAt(p);
      r := p;
      if b > 1 && l != 0 && start < nodes[l].vma.start {
        r := RotateRightAt(p, t);
      } else if b < -1 && q != 0 && start > nodes[q].vma.start {
        r := RotateLeftAt(p, t);
      } else if b > 1 && l != 0 && nodes[l].right != 0 && start > nodes[l].vma.start {
        Reads(nodes, nodes[l].right, t.left.right);
        r := DoubleRight(p, t);
      } else if b < -1 && q != 0 && nodes[q].left != 0 && start < nodes[q].vma.start {
        Reads(nodes, nodes[q].left, t.right.left);
        r := DoubleLeft(p, t);
      } else {
        if l != 0 { Reads(nodes, nodes[l].right, t.left.right); }
        if q != 0 { Reads(nodes, nodes[q].left, t.right.left); }
      }
    }

    /** Rebalances after a deletion. */
    method FixDeleteAt(p: int, ghost t: Tree) returns (r: int)
      requires t.Node? && Is(nodes, p, t)
      modifies this
      ensures Is(nodes, r, FixDelete(t)) && Foot(nodes, r, FixDelete(t)) == old(Foot(nodes, p, t))
      ensures SameOff(old(nodes), nodes, old(Foot(nodes, p, t)))
    {
      ReadBalance(nodes, p, t);
      IsJoins(nodes, p, t);
      LeftFoot(nodes, p, t);
      hide Is, Foot, RotateRight, RotateLeft, Joins, HeightAt;
      var l, q, b := nodes[p].left, nodes[p].right, BalanceAt(p);
      r := p;
      if b > 1 && l != 0 && BalanceAt(l) >= 0 {
        r := RotateRightAt(p, t);
      } else if b > 1 && l != 0 && nodes[l].right != 0 && BalanceAt(l) < 0 {
        r := DoubleRight(p, t);
      } else if b < -1 && q != 0 && BalanceAt(q) <= 0 {
        r := RotateLeftAt(p, t);
      } else if b < -1 && q != 0 && nodes[q].left != 0 && BalanceAt(q) > 0 {
        r := DoubleLeft(p, t);
      }
    }

    /** Stores a new left child in p and updates p; m is the heap p's tree t was in, S the nodes changed since. */
    method SetLeft(p: int, l: int, ghost m: Heap, ghost t: Tree, ghost u: Tree, ghost S: set<int>)
      requires t.Node? && Is(m, p, t) && Is(nodes, l, u) && Foot(nodes, l, u) <= S && SameOff(m, nodes, S)
      requires p !in S && Foot(m, m[p].right, t.right) !! S
      modifies this
      ensures Is(nodes, p, Make(u, t.vma, t.right)) && SameOff(m, nodes, S + {p}) && SameOff(old(nodes), nodes, {p})
      ensures Foot(nodes, p, Make(u, t.vma, t.right)) == {p} + old(Foot(nodes, l, u)) + Foot(m, m[p].right, t.right)
    {
      IsJoins(m, p, t);
      hide Is, Foot, Make;
      NewLeft(m, nodes, p, t, l, u, S);
      nodes := nodes[p := nodes[p].(left := l)];
      UpdateIs(nodes, p, u, t.vma, t.right);
      nodes := Update(nodes, p);
    }

    method SetRight(p: int, q: int, ghost m: Heap, ghost t: Tree, ghost u: Tree, ghost S: set<int>)
      requires t.Node? && Is(m, p, t) && Is(nodes, q, u) && Foot(nodes, q, u) <= S && SameOff(m, nodes, S)
      requires p !in S && Foot(m, m[p].left, t.left) !! S
      modifies this
      ensures Is(nodes, p, Make(t.left, t.vma, u)) && SameOff(m, nodes, S + {p}) && SameOff(old(nodes), nodes, {p})
      ensures Foot(nodes, p, Make(t.left, t.vma, u)) == {p} + Foot(m, m[p].left, t.left) + old(Foot(nodes, q, u))
    {
      IsJoins(m, p, t);
      hide Is, Foot, Make;
      NewRight(m, nodes, p, t, q, u, S);
      nodes := nodes[p := nodes[p].(right := q)];
      UpdateIs(nodes, p, t.left, t.vma, u);
      nodes := Update(nodes, p);
    }

    /** Hangs node q, which holds region v, into the tree at p; returns the new root. */
    method InsertAt(p: int, q: int, ghost t: Tree, v: Vma) returns (r: int)
      requires Is(nodes, p, t) && q != 0 && q in nodes && nodes[q] == Rec(v, 0, 0, 1, v.end) && v.end >= 0 && q !in Foot(nodes, p, t)
      modifies this
      ensures Is(nodes, r, Insert(t, v)) && Foot(nodes, r, Insert(t, v)) <= old(Foot(nodes, p, t)) + {q}
      ensures SameOff(old(nodes), nodes, old(Foot(nodes, p, t)) + {q})
      decreases t
    {
      if p == 0 {
        SingleIs(nodes, q, v);
        return q;
      }
      ghost var m := nodes;
      Shape(m, p, t);
      hide Is, Foot, FixInsert, Make, SameOff, Insert;
      InsertOnce(t, v);
      r := p;
      if v.start < nodes[p].vma.start {
        var l := InsertAt(nodes[p].left, q, t.left, v);
        ghost var S := Foot(m, m[p].left, t.left) + {q};
        SetLeft(p, l, m, t, Insert(t.left, v), S);
        ghost var m1, u := nodes, Make(Insert(t.left, v), t.vma, t.right);
        r := FixInsertAt(p, v.start, u);
        OffTrans(m, m1, nodes, S + {p}, Foot(m1, p, u), Foot(m, p, t) + {q});
      } else if v.start > nodes[p].vma.start {
        var l := InsertAt(nodes[p].right, q, t.right, v);
        ghost var S := Foot(m, m[p].right, t.right) + {q};
        SetRight(p, l, m, t, Insert(t.right, v), S);
        ghost var m1, u := nodes, Make(t.left, t.vma, Insert(t.right, v));
        r := FixInsertAt(p, v.start, u);
        OffTrans(m, m1, nodes, S + {p}, Foot(m1, p, u), Foot(m, p, t) + {q});
      } else {
        OffSame(m, Foot(m, p, t) + {q});
      }
    }

    /** The leftmost node. */
    method MinNodeAt(p: int, ghost t: Tree) returns (q: int)
      requires t.Node? && Is(nodes, p, t)
      ensures q in nodes && nodes[q].vma == MinNode(t)
    {
      q := p;
      ghost var u := t;
      while nodes[q].left != 0
        invariant u.Node? && Is(nodes, q, u) && MinNode(u) == MinNode(t)
        decreases u
      {
        q := nodes[q].left;
        u := u.left;
      }
    }

    /** Deletes below the left child. */
    method DeleteInLeft(p: int, start: int, ghost t: Tree) returns (r: int)
      requires Is(nodes, p, t) && t.Node? && start < t.vma.start
      modifies this
      ensures Deleted(old(nodes), nodes, p, t, r, Delete(t, start))
      decreases t, 0
    {
      ghost var m := nodes;
      Shape(m, p, t);
      hide Is, Foot, FixDelete, Make, SameOff, Delete, Deleted;
      DeleteOnce(t, start);
      var l := DeleteAt(nodes[p].left, start, t.left);
      ghost var n1 := nodes;
      DeletedParts(m, n1, m[p].left, t.left, l, Delete(t.left, start));
      SetLeft(p, l, m, t, Delete(t.left, start), Foot(m, m[p].left, t.left));
      ghost var m1, u := nodes, Make(Delete(t.left, start), t.vma, t.right);
      r := FixDeleteAt(p, u);
      DeletedAbove(m, n1, m1, nodes, p, t, m[p].left, t.left, l, Delete(t.left, start), Foot(m, m[p].right, t.right), r, u, FixDelete(u));
    }

    method DeleteInRight(p: int, start: int, ghost t: Tree) returns (r: int)
      requires Is(nodes, p, t) && t.Node? && start > t.vma.start
      modifies this
      ensures Deleted(old(nodes), nodes, p, t, r, Delete(t, start))
      decreases t, 0
    {
      ghost var m := nodes;
      Shape(m, p, t);
      hide Is, Foot, FixDelete, Make, SameOff, Delete, Deleted;
      DeleteOnce(t, start);
      var q := DeleteAt(nodes[p].right, start, t.right);
      ghost var n1 := nodes;
      DeletedParts(m, n1, m[p].right, t.right, q, Delete(t.right, start));
      SetRight(p, q, m, t, Delete(t.right, start), Foot(m, m[p].right, t.right));
      ghost var m1, u := nodes, Make(t.left, t.vma, Delete(t.right, start));
      r := FixDeleteAt(p, u);
      DeletedAbove(m, n1, m1, nodes, p, t, m[p].right, t.right, q, Delete(t.right, start), Foot(m, m[p].left, t.left), r, u, FixDelete(u));
    }

    /** Deletes the region with that start from the tree at p; returns the new root. */
    method DeleteAt(p: int, start: int, ghost t: Tree) returns (r: int)
      requires Is(nodes, p, t)
      modifies this
      ensures Deleted(old(nodes), nodes, p, t, r, Delete(t, start))
      decreases t, 1
    {
      if p == 0 { return 0; }
      Shape(nodes, p, t);
      if start < nodes[p].vma.start {
        r := DeleteInLeft(p, start, t);
      } else if start > nodes[p].vma.start {
        r := DeleteInRight(p, start, t);
      } else if nodes[p].left == 0 || nodes[p].right == 0 {
        r := UnlinkNode(p, t);
      } else {
        r := CopyUp(p, t);
      }
    }

    /** A node with at most one child: the child takes its place and the node is freed. */
    method UnlinkNode(p: int, ghost t: Tree) returns (r: int)
      requires Is(nodes, p, t) && t.Node? && (t.left.Leaf? || t.right.Leaf?)
      modifies this
      ensures Deleted(old(nodes), nodes, p, t, r, Delete(t, t.vma.start))
    {
      ghost var m := nodes;
      Shape(m, p, t);
      Reads(m, m[p].left, t.left);
      Reads(m, m[p].right, t.right);
      var c := if nodes[p].left != 0 then nodes[p].left else nodes[p].right;
      ghost var u := if t.left.Node? then t.left else t.right;
      ChildFoot(m, p, t);
      hide Is, Foot, FixDelete, SameOff, Make;
      nodes := nodes - {p};
      ghost var m1 := nodes;
      Framed(m, m1, c, u);
      FreedIs(m, m1, p, t, c, u);
      if c == 0 { return 0; }
      r := Refresh(c, u);
      DeletedThen(m, m1, nodes, p, t, c, u, r, FixDelete(Make(u.left, u.vma, u.right)));
    }

    /** update_node and rebalancing of a tree that did not change. */
    method Refresh(c: int, ghost u: Tree) returns (r: int)
      requires u.Node? && Is(nodes, c, u)
      modifies this
      ensures Is(nodes, r, FixDelete(Make(u.left, u.vma, u.right)))
      ensures Foot(nodes, r, FixDelete(Make(u.left, u.vma, u.right))) == old(Foot(nodes, c, u)) && SameOff(old(nodes), nodes, old(Foot(nodes, c, u)))
    {
      ghost var m := nodes;
      IsJoins(m, c, u);
      LeftFoot(m, c, u);
      hide Is, Foot, FixDelete, SameOff, Make;
      UpdateIs(m, c, u.left, u.vma, u.right);
      nodes := Update(nodes, c);
      ghost var m1 := nodes;
      r := FixDeleteAt(c, Make(u.left, u.vma, u.right));
      OffTrans(m, m1, nodes, {c}, Foot(m, c, u), Foot(m, c, u));
    }

    /** A node with two children takes over its successor's region; the successor's node is the one deleted. */
    method CopyUp(p: int, ghost t: Tree) returns (r: int)
      requires Is(nodes, p, t) && t.Node? && t.left.Node? && t.right.Node?
      modifies this
      ensures Deleted(old(nodes), nodes, p, t, r, Delete(t, t.vma.start))
      decreases t, 0
    {
      ghost var m := nodes;
      Shape(m, p, t);
      var q := MinNodeAt(nodes[p].right, t.right);
      var v := nodes[q].vma;
      CopiedIs(m, p, t, v);
      hide Is, Foot, FixDelete, Make, SameOff, Delete, Deleted, MinNode;
      DeleteHere(t);
      nodes := nodes[p := nodes[p].(vma := v)];
      ghost var m0, t0 := nodes, Node(t.left, v, t.right, t.height, t.maxEnd);
      Shape(m0, p, t0);
      var c := DeleteAt(nodes[p].right, v.start, t.right);
      ghost var n1 := nodes;
      DeletedParts(m0, n1, m0[p].right, t.right, c, Delete(t.right, v.start));
      SetRight(p, c, m0, t0, Delete(t.right, v.start), Foot(m0, m0[p].right, t.right));
      ghost var m1, u := nodes, Make(t.left, v, Delete(t.right, v.start));
      r := FixDeleteAt(p, u);
      DeletedAbove(m0, n1, m1, nodes, p, t0, m0[p].right, t.right, c, Delete(t.right, v.start), Foot(m0, m0[p].left, t.left), r, u, FixDelete(u));
      DeletedFrom(m, m0, nodes, p, t, t0, r, FixDelete(u));
    }
  }

  lemma ChildFoot(m: Heap, p: int, t: Tree)
    requires Is(m, p, t) && t.Node? && (t.left.Leaf? || t.right.Leaf?)
    ensures var c := if m[p].left != 0 then m[p].left else m[p].right; var u := if t.left.Node? then t.left else t.right;
      Is(m, c, u) && (c == 0 <==> u.Leaf?) && Foot(m, p, t) == {p} + Foot(m, c, u) && p !in Foot(m, c, u) && (u.Leaf? ==> Foot(m, c, u) == {})
    ensures var u := if t.left.Node? then t.left else t.right;
      Delete(t, t.vma.start) == if u.Leaf? then Leaf else FixDelete(Make(u.left, u.vma, u.right))
  {
    Reads(m, m[p].left, t.left);
    Reads(m, m[p].right, t.right);
  }

  lemma FreedIs(m: Heap, m1: Heap, p: int, t: Tree, c: int, u: Tree)
    requires m1 == m - {p} && Is(m1, c, u) && Foot(m1, c, u) == Foot(m, c, u) && Foot(m, p, t) == {p} + Foot(m, c, u) && p !in Foot(m, c, u)
    ensures Deleted(m, m1, p, t, c, u)
  {
    hide Is, Foot;
  }

  lemma DeletedThen(m: Heap, m1: Heap, m2: Heap, p: int, t: Tree, c: int, u: Tree, r: int, u': Tree)
    requires Deleted(m, m1, p, t, c, u) && Is(m2, r, u') && Foot(m2, r, u') == Foot(m1, c, u) && SameOff(m1, m2, Foot(m1, c, u))
    ensures Deleted(m, m2, p, t, r, u')
  {
    hide Is, Foot;
  }

  lemma CopiedIs(m: Heap, p: int, t: Tree, v: Vma)
    requires Is(m, p, t) && t.Node?
    ensures var m0, t0 := m[p := m[p].(vma := v)], Node(t.left, v, t.right, t.height, t.maxEnd);
      Is(m0, p, t0) && Foot(m0, p, t0) == Foot(m, p, t) && SameOff(m, m0, {p}) && p in Foot(m, p, t)
  {
    var m0 := m[p := m[p].(vma := v)];
    Framed(m, m0, m[p].left, t.left);
    Framed(m, m0, m[p].right, t.right);
  }

  lemma DeletedFrom(m: Heap, m0: Heap, m': Heap, p: int, t: Tree, t0: Tree, r: int, u: Tree)
    requires Foot(m0, p, t0) == Foot(m, p, t) && SameOff(m, m0, {p}) && p in Foot(m, p, t) && Deleted(m0, m', p, t0, r, u)
    ensures Deleted(m, m', p, t, r, u)
  {
    hide Is, Foot;
  }

  lemma DeleteHere(t: Tree)
    requires t.Node? && t.left.Node? && t.right.Node?
    ensures var v := MinNode(t.right); Delete(t, t.vma.start) == FixDelete(Make(t.left, v, Delete(t.right, v.start)))
  {
  }

  /** The tree u at r is what is left of the tree t at p: over some of its nodes, the others being gone from memory. */
  ghost predicate Deleted(m: Heap, m': Heap, p: int, t: Tree, r: int, u: Tree) {
    && Is(m', r, u) && Foot(m', r, u) <= Foot(m, p, t) && SameOff(m, m', Foot(m, p, t))
    && forall x :: x in Foot(m, p, t) && x !in Foot(m', r, u) ==> x !in m'
  }

  lemma DeletedParts(m: Heap, m': Heap, p: int, t: Tree, r: int, u: Tree)
    requires Deleted(m, m', p, t, r, u)
    ensures Is(m', r, u) && Foot(m', r, u) <= Foot(m, p, t) && SameOff(m, m', Foot(m, p, t))
  {
  }

  /** One level up: after the child tree at c, with the rest R, has lost a region. */
  lemma DeletedAbove(m: Heap, n1: Heap, m1: Heap, m': Heap, p: int, t: Tree, c: int, tc: Tree, l: int, ul: Tree, R: set<int>,
    r: int, u: Tree, u': Tree)
    requires Deleted(m, n1, c, tc, l, ul)
    requires Foot(m, p, t) == {p} + Foot(m, c, tc) + R && p !in Foot(m, c, tc) && p !in R && R !! Foot(m, c, tc)
    requires SameOff(n1, m1, {p}) && Foot(m1, p, u) == {p} + Foot(n1, l, ul) + R
    requires Is(m', r, u') && Foot(m', r, u') == Foot(m1, p, u) && SameOff(m1, m', Foot(m1, p, u))
    ensures Deleted(m, m', p, t, r, u')
  {
    hide Is, Foot;
  }

  lemma InsertOnce(t: Tree, v: Vma)
    requires t.Node?
    ensures Insert(t, v) ==
      if v.start < t.vma.start then FixInsert(Make(Insert(t.left, v), t.vma, t.right), v.start)
      else if v.start > t.vma.start then FixInsert(Make(t.left, t.vma, Insert(t.right, v)), v.start)
      else t
  {
  }

  lemma DeleteOnce(t: Tree, start: int)
    requires t.Node?
    ensures start < t.vma.start ==> Delete(t, start) == FixDelete(Make(Delete(t.left, start), t.vma, t.right))
    ensures start > t.vma.start ==> Delete(t, start) == FixDelete(Make(t.left, t.vma, Delete(t.right, start)))
  {
  }

  lemma OffTrans(m: Heap, m1: Heap, m2: Heap, S: set<int>, S': set<int>, T: set<int>)
    requires SameOff(m, m1, S) && SameOff(m1, m2, S') && S <= T && S' <= T
    ensures SameOff(m, m2, T)
  {
  }

  lemma OffSame(m: Heap, S: set<int>)
    ensures SameOff(m, m, S)
  {
  }

  /** Balances and null tests of a node and its children agree with the tree. */
  lemma ReadBalance(m: Heap, p: int, t: Tree)
    requires t.Node? && Is(m, p, t)
    ensures p in m && HeightAt(m, m[p].left) - HeightAt(m, m[p].right) == Balance(t)
    ensures var l := m[p].left; (l == 0 <==> t.left.Leaf?) && (l != 0 ==>
      l in m && HeightAt(m, m[l].left) - HeightAt(m, m[l].right) == Balance(t.left) && (m[l].right == 0 <==> t.left.right.Leaf?))
    ensures var q := m[p].right; (q == 0 <==> t.right.Leaf?) && (q != 0 ==>
      q in m && HeightAt(m, m[q].left) - HeightAt(m, m[q].right) == Balance(t.right) && (m[q].left == 0 <==> t.right.left.Leaf?))
  {
    hide Foot, HeightAt;
    Reads(m, p, t);
    var l, q := m[p].left, m[p].right;
    Reads(m, l, t.left);
    Reads(m, q, t.right);
    if l != 0 {
      Reads(m, m[l].left, t.left.left);
      Reads(m, m[l].right, t.left.right);
    }
    if q != 0 {
      Reads(m, m[q].left, t.right.left);
      Reads(m, m[q].right, t.right.right);
    }
  }

  lemma SingleIs(m: Heap, q: int, v: Vma)
    requires q != 0 && q in m && m[q] == Rec(v, 0, 0, 1, v.end) && v.end >= 0
    ensures Is(m, q, Make(Leaf, v, Leaf)) && Foot(m, q, Make(Leaf, v, Leaf)) == {q}
  {
  }

  lemma Shape(m: Heap, p: int, t: Tree)
    requires Is(m, p, t) && p != 0
    ensures t.Node? && p in m && m[p].vma == t.vma && Is(m, m[p].left, t.left) && Is(m, m[p].right, t.right)
    ensures var L, R := Foot(m, m[p].left, t.left), Foot(m, m[p].right, t.right);
      Foot(m, p, t) == {p} + L + R && p !in L && p !in R && L !! R
  {
  }

  /** What can be read off a node without knowing its tree. */
  lemma Reads(m: Heap, p: int, t: Tree)
    requires Is(m, p, t)
    ensures (p == 0 <==> t.Leaf?) && HeightAt(m, p) == Height(t) && (t.Node? ==> p in m && m[p].vma == t.vma)
    ensures t.Node? ==> Is(m, m[p].left, t.left) && Is(m, m[p].right, t.right)
  {
  }

  lemma LeftFoot(m: Heap, p: int, t: Tree)
    requires t.Node? && Is(m, p, t)
    ensures p in m && Foot(m, p, t) == PartsFoot(m, p, t.left, t.right)
    ensures t.left.Node? ==> m[p].left in m && Foot(m, m[p].left, t.left) == PartsFoot(m, m[p].left, t.left.left, t.left.right)
    ensures t.right.Node? ==> m[p].right in m && Foot(m, m[p].right, t.right) == PartsFoot(m, m[p].right, t.right.left, t.right.right)
  {
  }
}