/**
 The AVL interval tree behind a process's memory regions: insertion, deletion with successor copy-up,
 rotations, and the lookups pruned by the greatest end address of a subtree.
 */
module AvlTree {
  import opened Basics

  /** A region of addresses [start, end) with its attributes. */
  datatype Vma = Vma(start: int, end: int, prot: int, flags: int, fd: int, offset: int)

  /** A tree with the height and the greatest end address recorded in every node. */
  datatype Tree = Leaf | Node(left: Tree, vma: Vma, right: Tree, height: int, maxEnd: int)

  function Height(t: Tree): int { if t.Leaf? then 0 else t.height }

  function MaxEnd(t: Tree): int { if t.Leaf? then 0 else t.maxEnd }

  /** A node with its height and greatest end recomputed from its children. */
  function Make(l: Tree, v: Vma, r: Tree): (t: Tree)
    ensures t.Node? && t.left == l && t.vma == v && t.right == r
  {
    Node(l, v, r, 1 + Max(Height(l), Height(r)), Max(Max(v.end, MaxEnd(l)), MaxEnd(r)))
  }

  function RotateRight(y: Tree): Tree
    requires y.Node? && y.left.Node?
  {
    Make(y.left.left, y.left.vma, Make(y.left.right, y.vma, y.right))
  }

  function RotateLeft(x: Tree): Tree
    requires x.Node? && x.right.Node?
  {
    Make(Make(x.left, x.vma, x.right.left), x.right.vma, x.right.right)
  }

  function WithLeft(t: Tree, l: Tree): Tree
    requires t.Node?
  {
    Node(l, t.vma, t.right, t.height, t.maxEnd)
  }

  function WithRight(t: Tree, r: Tree): Tree
    requires t.Node?
  {
    Node(t.left, t.vma, r, t.height, t.maxEnd)
  }

  function Balance(t: Tree): int { if t.Leaf? then 0 else Height(t.left) - Height(t.right) }

  /** Rebalancing after an insertion: the side is told by the new start address. */
  function FixInsert(t: Tree, start: int): Tree
    requires t.Node?
  {
    var b := Balance(t);
    if b > 1 && t.left.Node? && start < t.left.vma.start then RotateRight(t)
    else if b < -1 && t.right.Node? && start > t.right.vma.start then RotateLeft(t)
    else if b > 1 && t.left.Node? && t.left.right.Node? && start > t.left.vma.start then
      RotateRight(WithLeft(t, RotateLeft(t.left)))
    else if b < -1 && t.right.Node? && t.right.left.Node? && start < t.right.vma.start then
      RotateLeft(WithRight(t, RotateRight(t.right)))
    else t
  }

  function Insert(t: Tree, v: Vma): (r: Tree)
    ensures r.Node?
  {
    if t.Leaf? then Make(Leaf, v, Leaf)
    else if v.start < t.vma.start then FixInsert(Make(Insert(t.left, v), t.vma, t.right), v.start)
    else if v.start > t.vma.start then FixInsert(Make(t.left, t.vma, Insert(t.right, v)), v.start)
    else t
  }

  function MinNode(t: Tree): Vma
    requires t.Node?
  {
    if t.left.Leaf? then t.vma else MinNode(t.left)
  }

  /** Rebalancing after a deletion: the side is told by the balance of the taller child. */
  function FixDelete(t: Tree): Tree
    requires t.Node?
  {
    var b := Balance(t);
    if b > 1 && t.left.Node? && Balance(t.left) >= 0 then RotateRight(t)
    else if b > 1 && t.left.Node? && t.left.right.Node? && Balance(t.left) < 0 then
      RotateRight(WithLeft(t, RotateLeft(t.left)))
    else if b < -1 && t.right.Node? && Balance(t.right) <= 0 then RotateLeft(t)
    else if b < -1 && t.right.Node? && t.right.left.Node? && Balance(t.right) > 0 then
      RotateLeft(WithRight(t, RotateRight(t.right)))
    else t
  }

  function Delete(t: Tree, start: int): Tree
    decreases t
  {
    if t.Leaf? then t
    else if start < t.vma.start then FixDelete(Make(Delete(t.left, start), t.vma, t.right))
    else if start > t.vma.start then FixDelete(Make(t.left, t.vma, Delete(t.right, start)))
    else if t.left.Leaf? || t.right.Leaf? then
      var u := if t.left.Node? then t.left else t.right;
      if u.Leaf? then u else FixDelete(Make(u.left, u.vma, u.right))
    else
      var m := MinNode(t.right);
      FixDelete(Make(t.left, m, Delete(t.right, m.start)))
  }

  function Find(t: Tree, addr: int): Option<Vma> {
    if t.Leaf? then None
    else if t.vma.start <= addr < t.vma.end then Some(t.vma)
    else
      var l := if t.left.Node? && t.left.maxEnd > addr then Find(t.left, addr) else None;
      if l.Some? then l else Find(t.right, addr)
  }

  predicate Overlaps(v: Vma, start: int, end: int) { v.start < end && v.end > start }

  function FindOverlap(t: Tree, start: int, end: int): Option<Vma> {
    if t.Leaf? then None
    else if Overlaps(t.vma, start, end) then Some(t.vma)
    else
      var l := if t.left.Node? && t.left.maxEnd > start then FindOverlap(t.left, start, end) else None;
      if l.Some? then l else FindOverlap(t.right, start, end)
  }

  // ---------------------------------------------------------------- the invariant

  function InOrder(t: Tree): seq<Vma> {
    if t.Leaf? then [] else InOrder(t.left) + [t.vma] + InOrder(t.right)
  }

  /** Regions are nonempty, disjoint, in order and inside [lo, hi). */
  predicate Ordered(t: Tree, lo: int, hi: int) {
    t.Node? ==> lo <= t.vma.start < t.vma.end <= hi && Ordered(t.left, lo, t.vma.start) && Ordered(t.right, t.vma.end, hi)
  }

  /** Recorded heights and greatest ends are right, and no node is out of balance by more than one. */
  predicate Sound(t: Tree) {
    t.Node? ==> Sound(t.left) && Sound(t.right) && t == Make(t.left, t.vma, t.right) && -1 <= Balance(t) <= 1
  }

  // ---------------------------------------------------------------- balance

  lemma {:induction false} HeightPositive(t: Tree)
    requires Sound(t)
    ensures Height(t) >= 0 && (Height(t) == 0 <==> t.Leaf?)
  {
    if t.Node? {
      HeightPositive(t.left);
      HeightPositive(t.right);
    }
  }

  /** Insertion keeps the tree sound and raises it by at most one, towards the side it went to. */
  lemma {:induction false} InsertSound(t: Tree, v: Vma)
    requires Sound(t)
    ensures Sound(Insert(t, v)) && Height(t) <= Height(Insert(t, v)) <= Height(t) + 1
    ensures t.Node? && Height(Insert(t, v)) > Height(t) ==> LeansTo(Insert(t, v), t, v)
  {
    hide Sound, Make, FixInsert;
    if t.Leaf? {
      SingleSound(v);
    } else {
      Parts(t);
      if v.start < t.vma.start {
        InsertSound(t.left, v);
        if t.left.Leaf? { SingleSound(v); }
        FixInsertLeft(Insert(t.left, v), t.vma, t.right, t.left, v);
      } else if v.start > t.vma.start {
        InsertSound(t.right, v);
        if t.right.Leaf? { SingleSound(v); }
        FixInsertRight(t.left, t.vma, Insert(t.right, v), t.right, v);
      }
    }
  }

  lemma SingleSound(v: Vma)
    ensures Sound(Make(Leaf, v, Leaf)) && Height(Make(Leaf, v, Leaf)) == 1
  {
  }

  lemma MakeSound(l: Tree, v: Vma, r: Tree)
    requires Sound(l) && Sound(r) && -1 <= Height(l) - Height(r) <= 1
    ensures Sound(Make(l, v, r)) && Height(Make(l, v, r)) == 1 + Max(Height(l), Height(r))
  {
  }

  /** A single rotation repairs a node whose left child is two higher and leans left or not at all. */
  lemma RightSound(l: Tree, x: Vma, r: Tree)
    requires Sound(l) && Sound(r) && Height(l) == Height(r) + 2 && l.Node? && Balance(l) >= 0
    ensures var t := RotateRight(Make(l, x, r));
      Sound(t) && Height(t) == (if Balance(l) == 0 then Height(l) + 1 else Height(l))
  {
    hide Sound, Make;
    Parts(l);
    MakeSound(l.right, x, r);
    MakeSound(l.left, l.vma, Make(l.right, x, r));
  }

  /** A double rotation repairs one whose left child is two higher and leans right. */
  lemma DoubleRightSound(l: Tree, x: Vma, r: Tree)
    requires Sound(l) && Sound(r) && Height(l) == Height(r) + 2 && l.Node? && l.right.Node? && Balance(l) < 0
    ensures var t := RotateRight(WithLeft(Make(l, x, r), RotateLeft(l)));
      Sound(t) && Height(t) == Height(l)
  {
    hide Sound, Make;
    Parts(l);
    Parts(l.right);
    var m := l.right;
    MakeSound(l.left, l.vma, m.left);
    MakeSound(m.right, x, r);
    MakeSound(Make(l.left, l.vma, m.left), m.vma, Make(m.right, x, r));
  }

  lemma LeftSound(l: Tree, x: Vma, r: Tree)
    requires Sound(l) && Sound(r) && Height(r) == Height(l) + 2 && r.Node? && Balance(r) <= 0
    ensures var t := RotateLeft(Make(l, x, r));
      Sound(t) && Height(t) == (if Balance(r) == 0 then Height(r) + 1 else Height(r))
  {
    hide Sound, Make;
    Parts(r);
    MakeSound(l, x, r.left);
    MakeSound(Make(l, x, r.left), r.vma, r.right);
  }

  lemma DoubleLeftSound(l: Tree, x: Vma, r: Tree)
    requires Sound(l) && Sound(r) && Height(r) == Height(l) + 2 && r.Node? && r.left.Node? && Balance(r) > 0
    ensures var t := RotateLeft(WithRight(Make(l, x, r), RotateRight(r)));
      Sound(t) && Height(t) == Height(r)
  {
    hide Sound, Make;
    Parts(r);
    Parts(r.left);
    var m := r.left;
    MakeSound(m.right, r.vma, r.right);
    MakeSound(l, x, m.left);
    MakeSound(Make(l, x, m.left), m.vma, Make(m.right, r.vma, r.right));
  }

  lemma Parts(t: Tree)
    requires Sound(t) && t.Node?
    ensures Sound(t.left) && Sound(t.right) && Height(t) == 1 + Max(Height(t.left), Height(t.right)) && -1 <= Balance(t) <= 1
    ensures Height(t.left) >= 0 && Height(t.right) >= 0 && (Height(t.left) == 0 <==> t.left.Leaf?) && (Height(t.right) == 0 <==> t.right.Leaf?)
  {
    HeightPositive(t.left);
    HeightPositive(t.right);
  }

  lemma FixInsertLeft(l: Tree, x: Vma, r: Tree, l0: Tree, v: Vma)
    requires Sound(l) && Sound(r) && l.Node? && -1 <= Height(l0) - Height(r) <= 1 && Height(l0) <= Height(l) <= Height(l0) + 1
    requires Height(l0) >= 0 && Height(r) >= 0 && (l0.Leaf? <==> Height(l0) == 0) && (l0.Leaf? ==> Height(l) == 1)
    requires l0.Node? && Height(l) > Height(l0) ==> LeansTo(l, l0, v)
    ensures var t := FixInsert(Make(l, x, r), v.start); var h := 1 + Max(Height(l0), Height(r));
      && Sound(t) && h <= Height(t) <= h + 1
      && (Height(t) > h ==> t.vma == x && Balance(t) == 1)
  {
    hide Sound, Make, RotateRight, RotateLeft;
    Parts(l);
    if Height(l) == Height(r) + 2 {
      if v.start < l.vma.start { RightSound(l, x, r); } else { DoubleRightSound(l, x, r); }
    } else {
      MakeSound(l, x, r);
    }
  }

  lemma FixInsertRight(l: Tree, x: Vma, r: Tree, r0: Tree, v: Vma)
    requires Sound(l) && Sound(r) && r.Node? && -1 <= Height(l) - Height(r0) <= 1 && Height(r0) <= Height(r) <= Height(r0) + 1
    requires Height(r0) >= 0 && Height(l) >= 0 && (r0.Leaf? <==> Height(r0) == 0) && (r0.Leaf? ==> Height(r) == 1)
    requires r0.Node? && Height(r) > Height(r0) ==> LeansTo(r, r0, v)
    ensures var t := FixInsert(Make(l, x, r), v.start); var h := 1 + Max(Height(l), Height(r0));
      && Sound(t) && h <= Height(t) <= h + 1
      && (Height(t) > h ==> t.vma == x && Balance(t) == -1)
  {
    hide Sound, Make, RotateRight, RotateLeft;
    Parts(r);
    if Height(r) == Height(l) + 2 {
      if v.start > r.vma.start { LeftSound(l, x, r); } else { DoubleLeftSound(l, x, r); }
    } else {
      MakeSound(l, x, r);
    }
  }

  /** A tree that grew on inserting v kept its root and leans to the side v went to. */
  predicate LeansTo(r: Tree, t: Tree, v: Vma)
    requires r.Node? && t.Node?
  {
    r.vma == t.vma && v.start != t.vma.start && Balance(r) == if v.start < t.vma.start then 1 else -1
  }

  // ---------------------------------------------------------------- deletion

  lemma FixDeleteSound(l: Tree, x: Vma, r: Tree)
    requires Sound(l) && Sound(r) && -2 <= Height(l) - Height(r) <= 2
    ensures var t := FixDelete(Make(l, x, r)); var h := 1 + Max(Height(l), Height(r));
      && Sound(t) && h - 1 <= Height(t) <= h
      && (-1 <= Height(l) - Height(r) <= 1 ==> Height(t) == h)
  {
    hide Sound, Make, RotateRight, RotateLeft;
    HeightPositive(l);
    HeightPositive(r);
    if l.Node? { Parts(l); }
    if r.Node? { Parts(r); }
    if Height(l) == Height(r) + 2 {
      if Balance(l) >= 0 { RightSound(l, x, r); } else { DoubleRightSound(l, x, r); }
    } else if Height(r) == Height(l) + 2 {
      if Balance(r) <= 0 { LeftSound(l, x, r); } else { DoubleLeftSound(l, x, r); }
    } else {
      MakeSound(l, x, r);
    }
  }

  /** Deletion keeps the tree sound and lowers it by at most one. */
  lemma {:induction false} DeleteSound(t: Tree, start: int)
    requires Sound(t)
    ensures Sound(Delete(t, start)) && Height(t) - 1 <= Height(Delete(t, start)) <= Height(t)
    decreases t
  {
    hide Sound, Make, FixDelete;
    if t.Node? {
      Parts(t);
      if start < t.vma.start {
        DeleteSound(t.left, start);
        FixDeleteSound(Delete(t.left, start), t.vma, t.right);
      } else if start > t.vma.start {
        DeleteSound(t.right, start);
        FixDeleteSound(t.left, t.vma, Delete(t.right, start));
      } else if t.left.Leaf? || t.right.Leaf? {
        var u := if t.left.Node? then t.left else t.right;
        if u.Node? {
          Parts(u);
          FixDeleteSound(u.left, u.vma, u.right);
        }
      } else {
        var m := MinNode(t.right);
        DeleteSound(t.right, m.start);
        FixDeleteSound(t.left, m, Delete(t.right, m.start));
      }
    }
  }

  // ---------------------------------------------------------------- order

  /** Rotations neither reorder nor lose regions. */
  lemma RightOrder(t: Tree, lo: int, hi: int)
    requires t.Node? && t.left.Node?
    ensures InOrder(RotateRight(t)) == InOrder(t)
    ensures Ordered(t, lo, hi) ==> Ordered(RotateRight(t), lo, hi)
  {
    var x := t.left;
    var y := Make(x.right, t.vma, t.right);
    assert InOrder(y) == InOrder(x.right) + [t.vma] + InOrder(t.right);
    assert InOrder(t) == InOrder(x.left) + [x.vma] + InOrder(x.right) + [t.vma] + InOrder(t.right);
    assert InOrder(Make(x.left, x.vma, y)) == InOrder(x.left) + [x.vma] + InOrder(y);
    if Ordered(t, lo, hi) {
      assert Ordered(x, lo, t.vma.start);
      assert Ordered(y, x.vma.end, hi);
    }
  }

  lemma LeftOrder(t: Tree, lo: int, hi: int)
    requires t.Node? && t.right.Node?
    ensures InOrder(RotateLeft(t)) == InOrder(t)
    ensures Ordered(t, lo, hi) ==> Ordered(RotateLeft(t), lo, hi)
  {
    var y := t.right;
    var x := Make(t.left, t.vma, y.left);
    assert InOrder(x) == InOrder(t.left) + [t.vma] + InOrder(y.left);
    assert InOrder(t) == InOrder(t.left) + [t.vma] + (InOrder(y.left) + [y.vma] + InOrder(y.right));
    assert InOrder(Make(x, y.vma, y.right)) == InOrder(x) + [y.vma] + InOrder(y.right);
    if Ordered(t, lo, hi) {
      assert Ordered(y, t.vma.end, hi);
      assert Ordered(x, lo, y.vma.start);
    }
  }

  lemma FixInsertOrder(t: Tree, start: int, lo: int, hi: int)
    requires t.Node?
    ensures InOrder(FixInsert(t, start)) == InOrder(t)
    ensures Ordered(t, lo, hi) ==> Ordered(FixInsert(t, start), lo, hi)
  {
    hide RotateRight, RotateLeft;
    if t.left.Node? { RightOrder(t, lo, hi); }
    if t.right.Node? { LeftOrder(t, lo, hi); }
    if t.left.Node? && t.left.right.Node? {
      LeftOrder(t.left, lo, t.vma.start);
      var u := WithLeft(t, RotateLeft(t.left));
      RotatedNode(t.left);
      RightOrder(u, lo, hi);
    }
    if t.right.Node? && t.right.left.Node? {
      RightOrder(t.right, t.vma.end, hi);
      var u := WithRight(t, RotateRight(t.right));
      RotatedNode(t.right);
      LeftOrder(u, lo, hi);
    }
  }

  lemma RotatedNode(t: Tree)
    requires t.Node?
    ensures t.left.Node? ==> RotateRight(t).Node?
    ensures t.right.Node? ==> RotateLeft(t).Node?
  {
  }

  lemma FixDeleteOrder(t: Tree, lo: int, hi: int)
    requires t.Node?
    ensures InOrder(FixDelete(t)) == InOrder(t)
    ensures Ordered(t, lo, hi) ==> Ordered(FixDelete(t), lo, hi)
  {
    hide RotateRight, RotateLeft;
    if t.left.Node? { RightOrder(t, lo, hi); }
    if t.right.Node? { LeftOrder(t, lo, hi); }
    if t.left.Node? && t.left.right.Node? {
      LeftOrder(t.left, lo, t.vma.start);
      var u := WithLeft(t, RotateLeft(t.left));
      RotatedNode(t.left);
      RightOrder(u, lo, hi);
    }
    if t.right.Node? && t.right.left.Node? {
      RightOrder(t.right, t.vma.end, hi);
      var u := WithRight(t, RotateRight(t.right));
      RotatedNode(t.right);
      LeftOrder(u, lo, hi);
    }
  }

  /** Inserting into a list sorted by start address. */
  function ListInsert(s: seq<Vma>, v: Vma): seq<Vma> {
    if s == [] || v.start < s[0].start then [v] + s else [s[0]] + ListInsert(s[1..], v)
  }

  /** Removing the entry with the given start address. */
  function ListDelete(s: seq<Vma>, start: int): seq<Vma> {
    if s == [] then [] else if s[0].start == start then s[1..] else [s[0]] + ListDelete(s[1..], start)
  }

  lemma {:induction false} ListInsertLeft(a: seq<Vma>, x: Vma, b: seq<Vma>, v: Vma)
    requires v.start < x.start
    ensures ListInsert(a + [x] + b, v) == ListInsert(a, v) + [x] + b
  {
    if a == [] {
      assert a + [x] + b == [x] + b;
      assert ([x] + b)[0] == x;
    } else {
      assert (a + [x] + b)[1..] == a[1..] + [x] + b;
      if v.start >= a[0].start { ListInsertLeft(a[1..], x, b, v); }
    }
  }

  lemma {:induction false} ListInsertRight(a: seq<Vma>, x: Vma, b: seq<Vma>, v: Vma)
    requires v.start > x.start && forall y :: y in a ==> y.start < v.start
    ensures ListInsert(a + [x] + b, v) == a + [x] + ListInsert(b, v)
  {
    if a == [] {
      assert a + [x] + b == [x] + b && ([x] + b)[1..] == b;
    } else {
      assert a[0] in a;
      assert (a + [x] + b)[1..] == a[1..] + [x] + b;
      ListInsertRight(a[1..], x, b, v);
    }
  }

  lemma {:induction false} ListDeleteLeft(a: seq<Vma>, x: Vma, b: seq<Vma>, start: int)
    requires start != x.start && forall y :: y in b ==> y.start != start
    ensures ListDelete(a + [x] + b, start) == ListDelete(a, start) + [x] + b
  {
    if a == [] {
      assert a + [x] + b == [x] + b && ([x] + b)[1..] == b;
      ListDeleteNone(b, start);
    } else {
      assert (a + [x] + b)[1..] == a[1..] + [x] + b;
      if a[0].start != start { ListDeleteLeft(a[1..], x, b, start); }
    }
  }

  lemma {:induction false} ListDeleteNone(s: seq<Vma>, start: int)
    requires forall y :: y in s ==> y.start != start
    ensures ListDelete(s, start) == s
  {
    if s != [] { ListDeleteNone(s[1..], start); }
  }

  lemma {:induction false} ListDeleteRight(a: seq<Vma>, x: Vma, b: seq<Vma>, start: int)
    requires start >= x.start && forall y :: y in a ==> y.start != start
    ensures ListDelete(a + [x] + b, start) == a + (if x.start == start then b else [x] + ListDelete(b, start))
  {
    if a == [] {
      assert a + [x] + b == [x] + b && ([x] + b)[1..] == b;
    } else {
      assert a[0] in a;
      assert (a + [x] + b)[1..] == a[1..] + [x] + b;
      ListDeleteRight(a[1..], x, b, start);
    }
  }

  /** Where the regions of an ordered tree lie. */
  lemma {:induction false} OrderedBounds(t: Tree, lo: int, hi: int, v: Vma)
    requires Ordered(t, lo, hi) && v in InOrder(t)
    ensures lo <= v.start < v.end <= hi
  {
    if v in InOrder(t.left) {
      OrderedBounds(t.left, lo, t.vma.start, v);
    } else if v in InOrder(t.right) {
      OrderedBounds(t.right, t.vma.end, hi, v);
    }
  }

  /** Insertion of a disjoint region adds exactly it to the in-order list and keeps the order. */
  lemma {:induction false} InsertOrder(t: Tree, v: Vma, lo: int, hi: int)
    requires Ordered(t, lo, hi) && lo <= v.start < v.end <= hi
    requires forall x :: x in InOrder(t) ==> !Overlaps(x, v.start, v.end)
    ensures InOrder(Insert(t, v)) == ListInsert(InOrder(t), v) && Ordered(Insert(t, v), lo, hi)
  {
    hide FixInsert, Make;
    if t.Node? {
      assert t.vma in InOrder(t);
      if v.start < t.vma.start {
        InsertOrder(t.left, v, lo, t.vma.start);
        FixInsertOrder(Make(Insert(t.left, v), t.vma, t.right), v.start, lo, hi);
        ListInsertLeft(InOrder(t.left), t.vma, InOrder(t.right), v);
      } else {
        InsertOrder(t.right, v, t.vma.end, hi);
        FixInsertOrder(Make(t.left, t.vma, Insert(t.right, v)), v.start, lo, hi);
        forall y | y in InOrder(t.left) ensures y.start < v.start { OrderedBounds(t.left, lo, t.vma.start, y); }
        ListInsertRight(InOrder(t.left), t.vma, InOrder(t.right), v);
      }
    }
  }

  lemma {:induction false} MinFirst(t: Tree, lo: int, hi: int)
    requires t.Node? && Ordered(t, lo, hi)
    ensures InOrder(t) != [] && InOrder(t)[0] == MinNode(t)
  {
    if t.left.Node? { MinFirst(t.left, lo, t.vma.start); }
  }

  /** Every region after the first starts at or after the end of the first. */
  lemma {:induction false} AfterMin(t: Tree, lo: int, hi: int, v: Vma)
    requires t.Node? && Ordered(t, lo, hi) && InOrder(t) != [] && v in InOrder(t)[1..]
    ensures v.start >= MinNode(t).end
  {
    if t.left.Leaf? {
      assert InOrder(t)[1..] == InOrder(t.right);
      OrderedBounds(t.right, t.vma.end, hi, v);
    } else {
      MinFirst(t.left, lo, t.vma.start);
      assert InOrder(t)[1..] == InOrder(t.left)[1..] + [t.vma] + InOrder(t.right);
      if v in InOrder(t.left)[1..] {
        AfterMin(t.left, lo, t.vma.start, v);
      } else {
        assert MinNode(t.left) in InOrder(t.left);
        OrderedBounds(t.left, lo, t.vma.start, MinNode(t.left));
        if v in InOrder(t.right) { OrderedBounds(t.right, t.vma.end, hi, v); }
      }
    }
  }

  lemma {:induction false} RaiseLow(t: Tree, lo: int, lo': int, hi: int)
    requires Ordered(t, lo, hi) && forall v :: v in InOrder(t) ==> v.start >= lo'
    ensures Ordered(t, lo', hi)
  {
    if t.Node? {
      assert t.vma in InOrder(t);
      RaiseLow(t.left, lo, lo', t.vma.start);
    }
  }

  /** The right subtree without its first region starts after that region. */
  lemma DropMin(t: Tree, u: Tree, lo: int, hi: int)
    requires t.Node? && Ordered(t, lo, hi) && Ordered(u, lo, hi) && InOrder(u) == ListDelete(InOrder(t), MinNode(t).start)
    ensures InOrder(t) == [MinNode(t)] + InOrder(u) && Ordered(u, MinNode(t).end, hi)
  {
    MinFirst(t, lo, hi);
    forall v | v in InOrder(u) ensures v.start >= MinNode(t).end { AfterMin(t, lo, hi, v); }
    RaiseLow(u, lo, MinNode(t).end, hi);
  }

  lemma DeleteInLeft(t: Tree, l: Tree, start: int, lo: int, hi: int)
    requires t.Node? && Ordered(t, lo, hi) && start < t.vma.start
    requires Ordered(l, lo, t.vma.start) && InOrder(l) == ListDelete(InOrder(t.left), start)
    ensures var u := FixDelete(Make(l, t.vma, t.right)); InOrder(u) == ListDelete(InOrder(t), start) && Ordered(u, lo, hi)
  {
    hide FixDelete, ListDelete;
    FixDeleteOrder(Make(l, t.vma, t.right), lo, hi);
    forall y | y in InOrder(t.right) ensures y.start != start { OrderedBounds(t.right, t.vma.end, hi, y); }
    ListDeleteLeft(InOrder(t.left), t.vma, InOrder(t.right), start);
  }

  lemma DeleteInRight(t: Tree, r: Tree, start: int, lo: int, hi: int)
    requires t.Node? && Ordered(t, lo, hi) && start > t.vma.start
    requires Ordered(r, t.vma.end, hi) && InOrder(r) == ListDelete(InOrder(t.right), start)
    ensures var u := FixDelete(Make(t.left, t.vma, r)); InOrder(u) == ListDelete(InOrder(t), start) && Ordered(u, lo, hi)
  {
    hide FixDelete, ListDelete;
    var u := Make(t.left, t.vma, r);
    FixDeleteOrder(u, lo, hi);
    forall y | y in InOrder(t.left) ensures y.start != start { OrderedBounds(t.left, lo, t.vma.start, y); }
    ListDeleteRight(InOrder(t.left), t.vma, InOrder(t.right), start);
    assert InOrder(u) == InOrder(t.left) + ([t.vma] + InOrder(r));
  }

  /** Deletion removes exactly the region with that start from the in-order list and keeps the order. */
  lemma {:induction false} DeleteOrder(t: Tree, start: int, lo: int, hi: int)
    requires Ordered(t, lo, hi)
    ensures InOrder(Delete(t, start)) == ListDelete(InOrder(t), start) && Ordered(Delete(t, start), lo, hi)
    decreases t
  {
    hide FixDelete, Make, ListDelete, InOrder;
    if t.Leaf? {
      DeleteLeaf(start);
    } else if start < t.vma.start {
      DeleteOrder(t.left, start, lo, t.vma.start);
      DeleteInLeft(t, Delete(t.left, start), start, lo, hi);
    } else if start > t.vma.start {
      DeleteOrder(t.right, start, t.vma.end, hi);
      DeleteInRight(t, Delete(t.right, start), start, lo, hi);
    } else {
      DeleteRoot(t, lo, hi);
      RootFromList(t, lo, hi);
    }
  }

  lemma DeleteLeaf(start: int)
    ensures InOrder(Leaf) == ListDelete(InOrder(Leaf), start)
  {
  }

  lemma RootFromList(t: Tree, lo: int, hi: int)
    requires t.Node? && Ordered(t, lo, hi)
    ensures ListDelete(InOrder(t), t.vma.start) == InOrder(t.left) + InOrder(t.right)
  {
    hide ListDelete;
    forall y | y in InOrder(t.left) ensures y.start != t.vma.start { OrderedBounds(t.left, lo, t.vma.start, y); }
    ListDeleteRight(InOrder(t.left), t.vma, InOrder(t.right), t.vma.start);
  }

  lemma {:induction false} DeleteRoot(t: Tree, lo: int, hi: int)
    requires Ordered(t, lo, hi) && t.Node?
    ensures InOrder(Delete(t, t.vma.start)) == InOrder(t.left) + InOrder(t.right) && Ordered(Delete(t, t.vma.start), lo, hi)
    decreases t, 0
  {
    hide FixDelete;
    if t.left.Leaf? || t.right.Leaf? {
      var u := if t.left.Node? then t.left else t.right;
      Widen(t.left, lo, t.vma.start, lo, hi);
      Widen(t.right, t.vma.end, hi, lo, hi);
      if u.Node? { FixDeleteOrder(Make(u.left, u.vma, u.right), lo, hi); }
    } else {
      var m := MinNode(t.right);
      MinFirst(t.right, t.vma.end, hi);
      OrderedBounds(t.right, t.vma.end, hi, m);
      DeleteOrder(t.right, m.start, t.vma.end, hi);
      DropMin(t.right, Delete(t.right, m.start), t.vma.end, hi);
      Widen(t.left, lo, t.vma.start, lo, m.start);
      FixDeleteOrder(Make(t.left, m, Delete(t.right, m.start)), lo, hi);
    }
  }

  lemma {:induction false} Widen(t: Tree, lo: int, hi: int, lo': int, hi': int)
    requires Ordered(t, lo, hi) && lo' <= lo && hi <= hi'
    ensures Ordered(t, lo', hi')
  {
    if t.Node? {
      Widen(t.left, lo, t.vma.start, lo', t.vma.start);
      Widen(t.right, t.vma.end, hi, t.vma.end, hi');
    }
  }

  // ---------------------------------------------------------------- lookups

  /** With exact greatest ends, pruning loses nothing: a region ends no later than its subtree's record. */
  lemma {:induction false} MaxEndBounds(t: Tree, v: Vma)
    requires Sound(t) && v in InOrder(t)
    ensures v.end <= MaxEnd(t)
  {
    if v in InOrder(t.left) {
      MaxEndBounds(t.left, v);
    } else if v in InOrder(t.right) {
      MaxEndBounds(t.right, v);
    }
  }

  /** The pruned overlap search finds a region exactly when a linear scan would. */
  lemma {:induction false} FindOverlapScan(t: Tree, start: int, end: int)
    requires Sound(t)
    ensures FindOverlap(t, start, end).None? <==> forall v :: v in InOrder(t) ==> !Overlaps(v, start, end)
    ensures FindOverlap(t, start, end).Some? ==> FindOverlap(t, start, end).value in InOrder(t) && Overlaps(FindOverlap(t, start, end).value, start, end)
  {
    if t.Node? {
      FindOverlapScan(t.left, start, end);
      FindOverlapScan(t.right, start, end);
      assert t.vma in InOrder(t);
      assert forall v :: v in InOrder(t.left) || v in InOrder(t.right) ==> v in InOrder(t);
      if t.left.Node? && t.left.maxEnd <= start {
        forall v | v in InOrder(t.left) ensures !Overlaps(v, start, end) { MaxEndBounds(t.left, v); }
      }
    }
  }

  /** The pruned address search finds a region exactly when a linear scan would. */
  lemma {:induction false} FindScan(t: Tree, addr: int)
    requires Sound(t)
    ensures Find(t, addr).None? <==> forall v :: v in InOrder(t) ==> !(v.start <= addr < v.end)
    ensures Find(t, addr).Some? ==> Find(t, addr).value in InOrder(t) && Find(t, addr).value.start <= addr < Find(t, addr).value.end
  {
    if t.Node? {
      FindScan(t.left, addr);
      FindScan(t.right, addr);
      assert t.vma in InOrder(t);
      assert forall v :: v in InOrder(t.left) || v in InOrder(t.right) ==> v in InOrder(t);
      if t.left.Node? && t.left.maxEnd <= addr {
        forall v | v in InOrder(t.left) ensures !(v.start <= addr < v.end) { MaxEndBounds(t.left, v); }
      }
    }
  }
}
