/**
 A fork that runs out of frames for the child's tables on the way. The clone gives up without undoing what it did:
 the parent's pages walked so far stay write-protected and their frames keep the references meant for the child.
 */
module ForkFailure {
  import opened Basics
  import opened CopyOnWrite

  /** What sharing page v leaves behind when the child's tables are abandoned. */
  function AbortPage(s: State, p: Pid, v: int): State {
    var k := Key(p, v);
    if !Private(s, k) then s
    else
      var m := s.pages[k];
      Incref(s, m.frame).(pages := s.pages[k := if m.rw then m.(rw := false, cow := true) else m])
  }

  /** The state without process c, its regions and its entries. */
  function Strip(s: State, c: Pid): State {
    s.(procs := s.procs - {c}, regions := CopyOnWrite.Without(s.regions, c), pages := CopyOnWrite.Without(s.pages, c))
  }

  lemma StripSpawn(s: State, p: Pid, c: Pid)
    requires EntriesOk(s) && c !in s.procs
    ensures Strip(Spawn(s, p, c), c) == s
  {
    InRange(s, c);
    var t := Strip(Spawn(s, p, c), c);
    assert t.regions == s.regions && t.pages == s.pages && t.procs == s.procs;
  }

  lemma WithoutOne<T>(m: map<Key, T>, k: Key, x: T, c: Pid)
    ensures CopyOnWrite.Without(m[k := x], c) == if k.pid == c then CopyOnWrite.Without(m, c) else CopyOnWrite.Without(m, c)[k := x]
  {
  }

  lemma StripLooks(s: State, c: Pid, k: Key)
    requires k.pid != c
    ensures var t := Strip(s, c);
      && (k in t.pages <==> k in s.pages) && (k in s.pages ==> t.pages[k] == s.pages[k])
      && IsShared(t, k) == IsShared(s, k) && t.managed == s.managed && t.refs == s.refs
  {
  }

  /** Cloning a page and then abandoning the child is the aborted step. */
  lemma StripStep(s: State, p: Pid, c: Pid, v: int)
    requires p != c
    ensures Strip(ForkPage(s, p, c, v), c) == AbortPage(Strip(s, c), p, v)
  {
    hide Strip, ForkPage, AbortPage;
    StripLooks(s, c, Key(p, v));
    if Private(s, Key(p, v)) { StripPrivate(s, p, c, v); } else { StripOther(s, p, c, v); }
  }

  lemma StripOther(s: State, p: Pid, c: Pid, v: int)
    requires p != c && !Private(s, Key(p, v)) && !Private(Strip(s, c), Key(p, v))
    ensures Strip(ForkPage(s, p, c, v), c) == AbortPage(Strip(s, c), p, v)
  {
    hide CopyOnWrite.Without;
    if Key(p, v) in s.pages { WithoutOne(s.pages, Key(c, v), s.pages[Key(p, v)], c); }
  }

  lemma StripPrivate(s: State, p: Pid, c: Pid, v: int)
    requires p != c && Private(s, Key(p, v)) && Private(Strip(s, c), Key(p, v))
    requires Strip(s, c).pages[Key(p, v)] == s.pages[Key(p, v)]
    ensures Strip(ForkPage(s, p, c, v), c) == AbortPage(Strip(s, c), p, v)
  {
    hide CopyOnWrite.Without;
    var k, m := Key(p, v), s.pages[Key(p, v)];
    var ro := if m.rw then m.(rw := false, cow := true) else m;
    WithoutOne(s.pages[k := ro], Key(c, v), ro, c);
    WithoutOne(s.pages, k, ro, c);
  }

  /** The walk from page v that fails on reaching page n. */
  function AbortFrom(s: State, p: Pid, v: int, n: int): State
    decreases n - v
  {
    if v >= n then s else AbortFrom(AbortPage(s, p, v), p, v + 1, n)
  }

  /** Page and frame bookkeeping agree but for the counts. */
  ghost predicate SameButCounts(s: State, t: State) {
    && t.procs == s.procs && t.regions == s.regions && t.managed == s.managed && t.pinned == s.pinned && t.free == s.free
    && t.mem == s.mem
    && forall k :: (k in t.pages <==> k in s.pages) && (k in s.pages ==> t.pages[k].frame == s.pages[k].frame && View(t, k) == View(s, k))
  }

  lemma AbortPageSame(s: State, p: Pid, v: int)
    ensures SameButCounts(s, AbortPage(s, p, v))
  {
  }

  lemma {:induction false} AbortFromSame(s: State, p: Pid, v: int, n: int)
    ensures SameButCounts(s, AbortFrom(s, p, v, n))
    decreases n - v
  {
    if v < n {
      AbortPageSame(s, p, v);
      AbortFromSame(AbortPage(s, p, v), p, v + 1, n);
    }
  }

  /** Process p maps frame f privately at one of the pages from v on. */
  ghost predicate Walked(s: State, p: Pid, v: int, n: int, f: Frame) {
    exists w: int :: v <= w < n && Private(s, Key(p, w)) && s.pages[Key(p, w)].frame == f
  }

  /** The walk adds one reference, in 16 bits, to each frame it meets. */
  lemma {:induction false} AbortCounts(s: State, p: Pid, v: int, n: int, f: Frame)
    requires OneToOne(s) && f in s.managed && 0 !in s.managed
    ensures RefCount(AbortFrom(s, p, v, n), f) == if Walked(s, p, v, n, f) then (RefCount(s, f) + 1) % REF_MODULUS else RefCount(s, f)
    decreases n - v
  {
    if v < n {
      var u := AbortPage(s, p, v);
      AbortPageSame(s, p, v);
      assert OneToOne(u) by { OneToOneKept(s, u); }
      AbortCounts(u, p, v + 1, n, f);
      WalkedStep(s, u, p, v, n, f);
    }
  }

  lemma OneToOneKept(s: State, u: State)
    requires OneToOne(s) && SameButCounts(s, u)
    ensures OneToOne(u)
  {
    assert forall k :: Private(u, k) <==> Private(s, k);
  }

  lemma WalkedStep(s: State, u: State, p: Pid, v: int, n: int, f: Frame)
    requires OneToOne(s) && SameButCounts(s, u) && v < n
    ensures var here := Private(s, Key(p, v)) && s.pages[Key(p, v)].frame == f;
      (Walked(s, p, v, n, f) <==> here || Walked(u, p, v + 1, n, f)) && !(here && Walked(u, p, v + 1, n, f))
  {
    assert forall k :: Private(u, k) <==> Private(s, k);
    if Walked(s, p, v, n, f) {
      var w: int :| v <= w < n && Private(s, Key(p, w)) && s.pages[Key(p, w)].frame == f;
      assert w == v || (Private(u, Key(p, w)) && u.pages[Key(p, w)].frame == f);
    }
    if Walked(u, p, v + 1, n, f) {
      var w: int :| v + 1 <= w < n && Private(u, Key(p, w)) && u.pages[Key(p, w)].frame == f;
      assert Private(s, Key(p, w)) && s.pages[Key(p, w)].frame == f && Key(p, w) != Key(p, v);
    }
  }

  /**
   A failed fork changes no process's memory. The counts stay exact if and only if the clone failed before the
   first private page of the parent.
   */
  lemma FailedForkExactIff(s: State, p: Pid, n: int)
    requires Inv(s) && OneToOne(s)
    ensures var t := AbortFrom(s, p, 0, n);
      Abstract(t) == Abstract(s) && (Inv(t) <==> forall w: int :: 0 <= w < n ==> !Private(s, Key(p, w)))
  {
    var t := AbortFrom(s, p, 0, n);
    AbortFromSame(s, p, 0, n);
    assert forall k :: Private(t, k) <==> Private(s, k);
    AbstractIs(t, Abstract(s));
    if w: int :| 0 <= w < n && Private(s, Key(p, w)) {
      CountBroken(s, p, n, w);
    } else {
      AbortNothing(s, p, 0, n);
    }
  }

  lemma CountBroken(s: State, p: Pid, n: int, w: int)
    requires Inv(s) && OneToOne(s) && 0 <= w < n && Private(s, Key(p, w))
    ensures !Inv(AbortFrom(s, p, 0, n))
  {
    hide OneToOne, AbortFrom;
    var f, t := s.pages[Key(p, w)].frame, AbortFrom(s, p, 0, n);
    AbortFromSame(s, p, 0, n);
    assert Walked(s, p, 0, n, f);
    AbortCounts(s, p, 0, n, f);
    NotPinned(s, Key(p, w));
    SameUsers(s, t, f);
    assert !FrameOk(t, f);
  }

  lemma SameUsers(s: State, t: State, f: Frame)
    requires SameButCounts(s, t)
    ensures Users(t, f) == Users(s, f)
  {
    assert forall k :: Private(t, k) <==> Private(s, k);
  }

  lemma {:induction false} AbortNothing(s: State, p: Pid, v: int, n: int)
    requires forall w: int :: v <= w < n ==> !Private(s, Key(p, w))
    ensures AbortFrom(s, p, v, n) == s
    decreases n - v
  {
    if v < n { AbortNothing(s, p, v + 1, n); }
  }

  /** A frame met by the failed fork is lost: when its last mapping goes, it is not given back. */
  lemma FailedForkLeaks(s: State, p: Pid, n: int, w: int)
    requires Inv(s) && OneToOne(s) && 0 <= w < n && Private(s, Key(p, w)) && RefCount(s, s.pages[Key(p, w)].frame) == 1
    ensures var f, t := s.pages[Key(p, w)].frame, ExitPage(AbortFrom(s, p, 0, n), Key(p, w));
      Users(t, f) == {} && f !in t.free && RefCount(t, f) == 1
  {
    var k := Key(p, w);
    var f, u := s.pages[k].frame, AbortFrom(s, p, 0, n);
    AbortFromSame(s, p, 0, n);
    assert Walked(s, p, 0, n, f);
    AbortCounts(s, p, 0, n, f);
    NotPinned(s, k);
    SameUsers(s, u, f);
    assert |Users(s, f)| == 1 && k in Users(s, f);
    forall x | x in Users(s, f) ensures x == k { SoleUser(s, f, k, x); }
    DropUsers(u, k, ExitPage(u, k), f);
  }
}
