/**
 The clone that copies every page, which the kernel still has beside the copy-on-write one: what it gives the
 child, and exactly when the two agree.
 */
module EagerClone {
  import opened Basics
  import opened CopyOnWrite

  /** The eager clone of one page: a fresh frame with the same bytes and the same entry flags. */
  function EagerPage(s: State, p: Pid, c: Pid, v: int, grants: map<int, Frame>): Option<State> {
    var k := Key(p, v);
    if k !in s.pages then Some(s)
    else if v !in grants || grants[v] !in s.free then None
    else Some(Install(s, Key(c, v), s.pages[k].(frame := grants[v]), Content(s, s.pages[k].frame), false))
  }

  function EagerFrom(s: State, p: Pid, c: Pid, v: int, grants: map<int, Frame>): Option<State>
    decreases USER_PAGES - v
  {
    if v >= USER_PAGES then Some(s)
    else match EagerPage(s, p, c, v, grants)
      case None => None
      case Some(s') => EagerFrom(s', p, c, v + 1, grants)
  }

  /** Fork by copying every page, taking the frames the allocator grants; none when it runs out. */
  function EagerFork(s: State, p: Pid, c: Pid, grants: map<int, Frame>): Option<State> {
    EagerFrom(Spawn(s, p, c), p, c, 0, grants)
  }

  // ---------------------------------------------------------------- what the walk does

  /** Mapped frames are not free, and free frames are managed. */
  ghost predicate Settled(s: State) {
    s.free <= s.managed && forall k :: k in s.pages ==> s.pages[k].frame !in s.free
  }

  /** Page k is mapped as before, to a frame with the bytes it had. */
  ghost predicate Kept(s: State, t: State, k: Key) {
    && (k in t.pages <==> k in s.pages)
    && (k in s.pages ==> t.pages[k] == s.pages[k] && Content(t, s.pages[k].frame) == Content(s, s.pages[k].frame))
  }

  /** Page k of t is a copy of page o of s in a frame of its own. */
  ghost predicate CopyOf(s: State, o: Key, t: State, k: Key) {
    && (k in t.pages <==> o in s.pages)
    && (o in s.pages ==>
      && t.pages[k] == s.pages[o].(frame := t.pages[k].frame) && t.pages[k].frame in s.free
      && Content(t, t.pages[k].frame) == Content(s, s.pages[o].frame))
  }

  /** After a walk from page v: the child has copies of p's pages from v upwards, and nothing else moved. */
  ghost predicate Cloned(s: State, p: Pid, c: Pid, v: int, t: State) {
    && t.procs == s.procs && t.regions == s.regions && t.managed == s.managed && t.free <= s.free
    && (forall k: Key :: k.pid != c || k.vpage < v || k.vpage >= USER_PAGES ==> Kept(s, t, k))
    && (forall w: int :: v <= w < USER_PAGES ==> CopyOf(s, Key(p, w), t, Key(c, w)))
  }

  lemma PageCopied(s: State, p: Pid, c: Pid, v: int, grants: map<int, Frame>, t: State)
    requires Settled(s) && p != c && Key(c, v) !in s.pages && EagerPage(s, p, c, v, grants) == Some(t)
    ensures Settled(t) && t.procs == s.procs && t.regions == s.regions && t.managed == s.managed && t.free <= s.free
    ensures CopyOf(s, Key(p, v), t, Key(c, v)) && (Key(c, v) in t.pages ==> t.pages[Key(c, v)].frame !in t.free)
    ensures forall x :: x != Key(c, v) ==> Kept(s, t, x)
  {
  }

  lemma {:induction false} WalkCopies(s: State, p: Pid, c: Pid, v: int, grants: map<int, Frame>, t: State)
    requires Settled(s) && p != c && 0 <= v <= USER_PAGES && EagerFrom(s, p, c, v, grants) == Some(t)
    requires forall w: int :: v <= w ==> Key(c, w) !in s.pages
    ensures Settled(t) && Cloned(s, p, c, v, t)
    decreases USER_PAGES - v
  {
    hide Settled, Kept, CopyOf, EagerPage;
    if v < USER_PAGES {
      var u := EagerPage(s, p, c, v, grants).value;
      PageCopied(s, p, c, v, grants, u);
      forall w: int | v + 1 <= w ensures Key(c, w) !in u.pages { StillAbsent(s, u, Key(c, w)); }
      WalkCopies(u, p, c, v + 1, grants, t);
      ClonedStep(s, p, c, v, u, t);
    } else {
      forall k ensures Kept(s, t, k) { KeptSame(s, k); }
    }
  }

  lemma KeptSame(s: State, k: Key)
    ensures Kept(s, s, k)
  {
  }

  lemma StillAbsent(s: State, u: State, k: Key)
    requires k !in s.pages && Kept(s, u, k)
    ensures k !in u.pages
  {
  }

  lemma KeptTwice(s: State, u: State, t: State, k: Key)
    requires Kept(s, u, k) && Kept(u, t, k)
    ensures Kept(s, t, k)
  {
  }

  lemma CopyKept(s: State, o: Key, u: State, t: State, k: Key)
    requires CopyOf(s, o, u, k) && Kept(u, t, k)
    ensures CopyOf(s, o, t, k)
  {
  }

  lemma KeptCopy(s: State, o: Key, u: State, t: State, k: Key)
    requires Kept(s, u, o) && CopyOf(u, o, t, k) && u.free <= s.free
    ensures CopyOf(s, o, t, k)
  {
  }

  lemma ClonedStep(s: State, p: Pid, c: Pid, v: int, u: State, t: State)
    requires p != c && v < USER_PAGES && u.procs == s.procs && u.regions == s.regions && u.managed == s.managed && u.free <= s.free
    requires CopyOf(s, Key(p, v), u, Key(c, v)) && (forall x :: x != Key(c, v) ==> Kept(s, u, x))
    requires Cloned(u, p, c, v + 1, t)
    ensures Cloned(s, p, c, v, t)
  {
    hide Kept, CopyOf;
    forall k: Key | k.pid != c || k.vpage < v || k.vpage >= USER_PAGES ensures Kept(s, t, k) { KeptTwice(s, u, t, k); }
    forall w: int | v <= w < USER_PAGES ensures CopyOf(s, Key(p, w), t, Key(c, w)) {
      if w == v { CopyKept(s, Key(p, v), u, t, Key(c, v)); } else { KeptCopy(s, Key(p, w), u, t, Key(c, w)); }
    }
  }

  // ---------------------------------------------------------------- against the copy-on-write fork

  lemma Settles(s: State)
    requires Inv(s)
    ensures Settled(s)
  {
    forall k | k in s.pages ensures s.pages[k].frame !in s.free {
      assert EntryOk(s, k);
      if s.pages[k].frame in s.managed {
        assert FrameOk(s, s.pages[k].frame);
        if Private(s, k) { assert k in Users(s, s.pages[k].frame); }
      }
    }
  }

  /** Page k is device memory outside the shared regions. */
  ghost predicate Device(s: State, k: Key) {
    k in s.pages && !IsShared(s, k) && s.pages[k].frame !in s.managed
  }

  /** After both clones: the entries of all other processes and the regions are the ones they were. */
  ghost predicate Copied(s: State, p: Pid, c: Pid, t: State) {
    && t.procs == s.procs + {c} && t.regions == s.regions + Rename(s.regions, p, c) && t.managed == s.managed
    && (forall k: Key :: k.pid != c ==> Kept(s, t, k))
    && (forall w: int :: CopyOf(s, Key(p, w), t, Key(c, w)))
  }

  /** The eager clone gives the child a copy of each page, in frames of its own, and leaves everything else alone. */
  lemma EagerForkCopies(s: State, p: Pid, c: Pid, grants: map<int, Frame>, t: State)
    requires Inv(s) && p in s.procs && c !in s.procs && EagerFork(s, p, c, grants) == Some(t)
    ensures Copied(s, p, c, t)
  {
    hide Inv, Kept, CopyOf, EagerFrom;
    Settles(s);
    SpawnedEmpty(s, c);
    var s0 := Spawn(s, p, c);
    assert Settled(s0);
    WalkCopies(s0, p, c, 0, grants, t);
    forall k: Key | k.pid != c ensures Kept(s, t, k) { SameSource(s, s0, k, t, k); }
    forall w: int ensures CopyOf(s, Key(p, w), t, Key(c, w)) {
      if 0 <= w < USER_PAGES { SameSource(s, s0, Key(p, w), t, Key(c, w)); } else { Outside(s, s0, Key(p, w), t, Key(c, w)); }
    }
  }

  lemma SpawnedEmpty(s: State, c: Pid)
    requires Inv(s) && c !in s.procs
    ensures forall k :: k in s.pages ==> k.pid != c && 0 <= k.vpage < USER_PAGES
  {
    InRange(s, c);
  }

  /** Only entries, frames and free frames of the source matter. */
  lemma SameSource(s: State, s0: State, o: Key, t: State, k: Key)
    requires s0.pages == s.pages && s0.mem == s.mem && s0.free == s.free
    ensures Kept(s0, t, k) ==> Kept(s, t, k)
    ensures CopyOf(s0, o, t, k) ==> CopyOf(s, o, t, k)
  {
  }

  lemma Outside(s: State, s0: State, o: Key, t: State, k: Key)
    requires s0.pages == s.pages && Kept(s0, t, k) && o !in s.pages && k !in s.pages
    ensures CopyOf(s, o, t, k)
  {
  }

  lemma RenamedShared(s: State, p: Pid, c: Pid, t: State, v: int)
    requires t.regions == s.regions + Rename(s.regions, p, c) && Key(c, v) !in s.regions
    ensures IsShared(t, Key(c, v)) == IsShared(s, Key(p, v))
  {
  }

  lemma OtherShared(s: State, p: Pid, c: Pid, t: State, k: Key)
    requires t.regions == s.regions + Rename(s.regions, p, c) && k.pid != c
    ensures IsShared(t, k) == IsShared(s, k)
  {
  }

  /** What the eager clone makes of page k: the same contents and rights, in a frame of its own for the child. */
  lemma CopyLooks(s: State, p: Pid, c: Pid, t: State, k: Key)
    requires p != c && Copied(s, p, c, t) && Settled(s) && forall k :: k in s.regions ==> k.pid != c
    ensures var o := Origin(p, c, k);
      && (k in t.pages <==> o in s.pages) && (k in t.pages ==> View(t, k) == View(s, o))
      && (Private(t, k) <==> Private(s, o) || (k.pid == c && Device(s, o)))
      && (k in t.pages ==> if k.pid == c then t.pages[k].frame in s.free else t.pages[k].frame == s.pages[o].frame)
  {
    hide Rename;
    if k.pid == c {
      assert k == Key(c, k.vpage);
      assert CopyOf(s, Key(p, k.vpage), t, Key(c, k.vpage));
      RenamedShared(s, p, c, t, k.vpage);
    } else {
      assert Kept(s, t, k);
      OtherShared(s, p, c, t, k);
    }
  }

  /** The copy-on-write fork leaves every page looking like its origin, in the same frame unless it is private. */
  lemma ForkLooks(s: State, p: Pid, c: Pid, u: State, k: Key)
    requires Inv(s) && OneToOne(s) && p in s.procs && c !in s.procs && |s.procs| + 1 < REF_MODULUS && u == Fork(s, p, c)
    ensures SameAs(s, Origin(p, c, k), u, k) && Inv(u)
  {
    hide OneToOne, Users, SameAs;
    var s0 := Spawn(s, p, c);
    OneMore(s.procs, c);
    SpawnInv(s, p, c, s0);
    hide Mirror;
    ForkFromInv(s0, p, c, 0, u);
    ForkKeyView(s, p, c, s0, u, k);
  }

  /** The frame of a page that is shared or device memory. */
  ghost function Common(s: State, k: Key): Option<Frame> {
    if k in s.pages && !Private(s, k) then Some(s.pages[k].frame) else None
  }

  /** Two pages are one memory: what is stored through one is seen through the other. */
  ghost predicate OneMemory(s: State, k: Key, l: Key) {
    k != l && Common(s, k).Some? && Common(s, k) == Common(s, l)
  }

  /** All processes see the same pages with the same contents and rights, and the same pages are one memory. */
  ghost predicate Alike(u: State, t: State) {
    && (forall k :: k in u.pages <==> k in t.pages)
    && (forall k :: k in u.pages && k in t.pages ==> View(u, k) == View(t, k))
    && (forall k, l :: OneMemory(u, k, l) <==> OneMemory(t, k, l))
  }

  /** Page k after the two clones u and t of s: it looks alike, and is common memory alike but for the child's. */
  ghost predicate Compared(s: State, p: Pid, c: Pid, u: State, t: State, k: Key) {
    && (k in u.pages <==> k in t.pages)
    && (k in u.pages && k in t.pages ==> View(u, k) == View(t, k))
    && Common(u, k) == Common(s, Origin(p, c, k))
    && (Common(t, k) == Common(u, k) <==> !(k.pid == c && Common(u, k).Some?))
    && (k.pid == c && Common(t, k).Some? ==> Common(t, k).value in s.free)
  }

  lemma ClonedPage(s: State, p: Pid, c: Pid, u: State, t: State, k: Key)
    requires p != c && Copied(s, p, c, t) && Settled(s) && (forall k :: k in s.regions ==> k.pid != c)
    requires SameAs(s, Origin(p, c, k), u, k)
    ensures Compared(s, p, c, u, t, k)
  {
    hide View, Copied;
    CopyLooks(s, p, c, t, k);
    assert Settled(s);
  }

  lemma ClonesCompare(s: State, p: Pid, c: Pid, grants: map<int, Frame>, u: State, t: State, k: Key)
    requires Inv(s) && OneToOne(s) && p in s.procs && c !in s.procs && |s.procs| + 1 < REF_MODULUS
    requires u == Fork(s, p, c) && EagerFork(s, p, c, grants) == Some(t)
    ensures Compared(s, p, c, u, t, k)
  {
    assert forall k :: k in s.regions ==> k.pid != c;
    Settles(s);
    hide Inv, OneToOne, Fork, EagerFork, Copied, Settled, SameAs, Compared;
    EagerForkCopies(s, p, c, grants, t);
    ForkLooks(s, p, c, u, k);
    ClonedPage(s, p, c, u, t, k);
  }

  /** Every page the parent maps is private: neither in a shared region nor device memory. */
  ghost predicate AllPrivate(s: State, p: Pid) {
    forall v: int :: Key(p, v) in s.pages ==> Private(s, Key(p, v))
  }

  /**
   The copy-on-write fork and the eager clone leave the processes with the same memory, in contents and in what is
   shared, if and only if every page the parent maps is private. The contents alone agree at once in any case.
   */
  lemma CowForkIsEagerFork(s: State, p: Pid, c: Pid, grants: map<int, Frame>, u: State, t: State)
    requires Inv(s) && OneToOne(s) && p in s.procs && c !in s.procs && |s.procs| + 1 < REF_MODULUS
    requires u == Fork(s, p, c) && EagerFork(s, p, c, grants) == Some(t)
    ensures Alike(u, t) <==> AllPrivate(s, p)
    ensures forall k :: (k in u.pages <==> k in t.pages) && (k in u.pages && k in t.pages ==> View(u, k) == View(t, k))
  {
    Settles(s);
    hide Inv, OneToOne, Fork, EagerFork, Settled, Compared, Alike, AllPrivate;
    forall k ensures Compared(s, p, c, u, t, k) { ClonesCompare(s, p, c, grants, u, t, k); }
    ComparedAlike(s, p, c, u, t);
  }

  lemma ComparedAlike(s: State, p: Pid, c: Pid, u: State, t: State)
    requires p != c && Settled(s) && forall k :: Compared(s, p, c, u, t, k)
    ensures Alike(u, t) <==> AllPrivate(s, p)
    ensures forall k :: (k in u.pages <==> k in t.pages) && (k in u.pages && k in t.pages ==> View(u, k) == View(t, k))
  {
    hide View, Private;
    forall k ensures (k in u.pages <==> k in t.pages) && (k in u.pages && k in t.pages ==> View(u, k) == View(t, k)) {
      assert Compared(s, p, c, u, t, k);
    }
    if v: int :| Key(p, v) in s.pages && !Private(s, Key(p, v)) {
      assert Compared(s, p, c, u, t, Key(p, v)) && Compared(s, p, c, u, t, Key(c, v));
      assert OneMemory(u, Key(p, v), Key(c, v)) && !OneMemory(t, Key(p, v), Key(c, v));
    } else {
      forall k ensures Common(u, k) == Common(t, k) {
        assert Compared(s, p, c, u, t, k);
        if k.pid == c { assert Common(s, Key(p, k.vpage)) == None; }
      }
    }
  }

  /**
   What telling the two apart takes: the child stores to a writable page that is not private. After the
   copy-on-write fork the parent reads the new byte, after the eager clone it reads what it had.
   */
  lemma StoreTellsApart(s: State, p: Pid, c: Pid, grants: map<int, Frame>, u: State, t: State, v: int, off: nat, b: Byte, g: Grant)
    requires Inv(s) && OneToOne(s) && p in s.procs && c !in s.procs && |s.procs| + 1 < REF_MODULUS
    requires u == Fork(s, p, c) && EagerFork(s, p, c, grants) == Some(t)
    requires Key(p, v) in s.pages && !Private(s, Key(p, v)) && s.pages[Key(p, v)].rw && off < PAGE_SIZE
    ensures var (u', ok) := Store(u, Key(c, v), off, b, g);
      ok && Key(p, v) in u'.pages && View(u', Key(p, v)).data == View(s, Key(p, v)).data[off := b]
    ensures var (t', ok) := Store(t, Key(c, v), off, b, g);
      ok && Key(p, v) in t'.pages && View(t', Key(p, v)).data == View(s, Key(p, v)).data
  {
    var k, l := Key(c, v), Key(p, v);
    ForkedCommon(s, p, c, u, v);
    ClonedApart(s, p, c, grants, t, v);
    hide Inv, OneToOne, Fork, EagerFork;
    StoreSeen(u, k, l, off, b, g);
    StoreUnseen(t, k, l, off, b, g);
  }

  lemma ForkedCommon(s: State, p: Pid, c: Pid, u: State, v: int)
    requires Inv(s) && OneToOne(s) && p in s.procs && c !in s.procs && |s.procs| + 1 < REF_MODULUS && u == Fork(s, p, c)
    requires Key(p, v) in s.pages && !Private(s, Key(p, v))
    ensures var k, l := Key(c, v), Key(p, v);
      k in u.pages && l in u.pages && u.pages[k].frame == u.pages[l].frame && u.pages[k].rw == s.pages[l].rw
    ensures View(u, Key(p, v)) == View(s, Key(p, v))
  {
    hide OneToOne, Fork, Users;
    ForkLooks(s, p, c, u, Key(p, v));
    ForkLooks(s, p, c, u, Key(c, v));
    assert EntryOk(u, Key(c, v)) && EntryOk(s, Key(p, v));
  }

  lemma ClonedApart(s: State, p: Pid, c: Pid, grants: map<int, Frame>, t: State, v: int)
    requires Inv(s) && OneToOne(s) && p in s.procs && c !in s.procs && EagerFork(s, p, c, grants) == Some(t)
    requires Key(p, v) in s.pages
    ensures var k, l := Key(c, v), Key(p, v);
      k in t.pages && l in t.pages && t.pages[k].frame != t.pages[l].frame && t.pages[k].rw == s.pages[l].rw
    ensures View(t, Key(p, v)) == View(s, Key(p, v))
  {
    hide Inv, OneToOne, EagerFork;
    Settles(s);
    EagerForkCopies(s, p, c, grants, t);
    assert Kept(s, t, Key(p, v)) && CopyOf(s, Key(p, v), t, Key(c, v));
  }

  /** A page that is not private stays in one frame under the copy-on-write fork; the eager clone gives the child another. */
  lemma EagerUnshares(s: State, p: Pid, c: Pid, grants: map<int, Frame>, u: State, t: State, v: int)
    requires Inv(s) && OneToOne(s) && p in s.procs && c !in s.procs && |s.procs| + 1 < REF_MODULUS
    requires u == Fork(s, p, c) && EagerFork(s, p, c, grants) == Some(t) && Key(p, v) in s.pages && !Private(s, Key(p, v))
    ensures Key(p, v) in t.pages && Key(c, v) in t.pages && t.pages[Key(c, v)].frame != t.pages[Key(p, v)].frame
    ensures Key(p, v) in u.pages && Key(c, v) in u.pages && u.pages[Key(c, v)].frame == u.pages[Key(p, v)].frame
  {
    hide Inv, OneToOne, Fork, EagerFork;
    ForkedCommon(s, p, c, u, v);
    ClonedApart(s, p, c, grants, t, v);
  }

  lemma StoreSeen(s: State, k: Key, l: Key, off: nat, b: Byte, g: Grant)
    requires k in s.pages && l in s.pages && s.pages[k].frame == s.pages[l].frame && s.pages[k].rw && off < PAGE_SIZE
    ensures var (s', ok) := Store(s, k, off, b, g); ok && l in s'.pages && View(s', l).data == View(s, l).data[off := b]
  {
  }

  lemma StoreUnseen(s: State, k: Key, l: Key, off: nat, b: Byte, g: Grant)
    requires k in s.pages && l in s.pages && s.pages[k].frame != s.pages[l].frame && s.pages[k].rw && off < PAGE_SIZE
    ensures var (s', ok) := Store(s, k, off, b, g); ok && l in s'.pages && View(s', l) == View(s, l)
  {
  }

  // ---------------------------------------------------------------- private memory

  /** The private memory of every process is the same after both, if and only if the parent maps no device page. */
  lemma SamePrivateMemoryIff(s: State, p: Pid, c: Pid, grants: map<int, Frame>, u: State, t: State)
    requires Inv(s) && OneToOne(s) && p in s.procs && c !in s.procs && |s.procs| + 1 < REF_MODULUS
    requires u == Fork(s, p, c) && EagerFork(s, p, c, grants) == Some(t)
    ensures Abstract(u).pages == Abstract(t).pages <==> forall v: int :: !Device(s, Key(p, v))
  {
    hide Inv, OneToOne, Fork, EagerFork, Device, PrivateAlike, Abstract;
    forall k ensures PrivateAlike(s, p, c, u, t, k) { ClonesPrivate(s, p, c, grants, u, t, k); }
    AlikePrivate(s, p, c, u, t);
  }

  /** Page k is private after both clones as its origin was, except for the child's copy of a device page. */
  ghost predicate PrivateAlike(s: State, p: Pid, c: Pid, u: State, t: State, k: Key) {
    && (Private(u, k) <==> Private(s, Origin(p, c, k)))
    && (Private(t, k) <==> Private(u, k) || (k.pid == c && Device(s, Key(p, k.vpage))))
    && (Device(s, k) ==> !Private(s, k))
    && (k in u.pages && k in t.pages ==> View(u, k) == View(t, k))
  }

  lemma ClonesPrivate(s: State, p: Pid, c: Pid, grants: map<int, Frame>, u: State, t: State, k: Key)
    requires Inv(s) && OneToOne(s) && p in s.procs && c !in s.procs && |s.procs| + 1 < REF_MODULUS
    requires u == Fork(s, p, c) && EagerFork(s, p, c, grants) == Some(t)
    ensures PrivateAlike(s, p, c, u, t, k)
  {
    assert forall k :: k in s.regions ==> k.pid != c;
    Settles(s);
    hide Inv, OneToOne, Fork, EagerFork, Copied, Settled, View;
    EagerForkCopies(s, p, c, grants, t);
    ForkLooks(s, p, c, u, k);
    CopyLooks(s, p, c, t, k);
  }

  lemma AlikePrivate(s: State, p: Pid, c: Pid, u: State, t: State)
    requires forall k :: PrivateAlike(s, p, c, u, t, k)
    ensures Abstract(u).pages == Abstract(t).pages <==> forall v: int :: !Device(s, Key(p, v))
  {
    hide View, Device;
    if v: int :| Device(s, Key(p, v)) {
      assert PrivateAlike(s, p, c, u, t, Key(p, v)) && PrivateAlike(s, p, c, u, t, Key(c, v));
      assert Key(c, v) in Abstract(t).pages && Key(c, v) !in Abstract(u).pages;
    } else {
      forall k ensures Private(u, k) == Private(t, k) && (Private(u, k) ==> View(u, k) == View(t, k)) {
        assert PrivateAlike(s, p, c, u, t, k);
      }
      assert Abstract(u).pages == Abstract(t).pages;
    }
  }

  // ---------------------------------------------------------------- over runs

  lemma EagerPageInv(s: State, p: Pid, c: Pid, v: int, grants: map<int, Frame>, t: State)
    requires Inv(s) && OneToOne(s) && c in s.procs && 0 <= v < USER_PAGES && Key(c, v) !in s.pages
    requires EagerPage(s, p, c, v, grants) == Some(t) && (Key(p, v) in s.pages ==> !IsShared(s, Key(c, v)))
    ensures Inv(t) && OneToOne(t)
  {
    hide Inv, OneToOne, Install;
    if Key(p, v) in s.pages {
      var m := s.pages[Key(p, v)];
      InstallInv(s, Key(c, v), m.(frame := grants[v]), Content(s, m.frame), t);
    }
  }

  lemma {:induction false} EagerFromInv(s: State, p: Pid, c: Pid, v: int, grants: map<int, Frame>, t: State)
    requires Inv(s) && OneToOne(s) && p != c && c in s.procs && 0 <= v <= USER_PAGES && EagerFrom(s, p, c, v, grants) == Some(t)
    requires forall w: int :: v <= w ==> Key(c, w) !in s.pages
    requires forall w: int :: Key(p, w) in s.pages ==> !IsShared(s, Key(c, w))
    ensures Inv(t) && OneToOne(t)
    decreases USER_PAGES - v
  {
    if v < USER_PAGES {
      Settles(s);
      var u := EagerPage(s, p, c, v, grants).value;
      hide Inv, OneToOne, EagerPage, CopyOf, Settled;
      PageCopied(s, p, c, v, grants, u);
      EagerPageInv(s, p, c, v, grants, u);
      assert forall w: int :: Kept(s, u, Key(p, w));
      forall w: int | v + 1 <= w ensures Key(c, w) !in u.pages { StillAbsent(s, u, Key(c, w)); }
      forall w: int | Key(p, w) in u.pages ensures !IsShared(u, Key(c, w)) { assert Kept(s, u, Key(p, w)); }
      EagerFromInv(u, p, c, v + 1, grants, t);
    }
  }

  /** The eager clone keeps every count exact if and only if the parent maps no page of a shared region. */
  lemma EagerForkInvIff(s: State, p: Pid, c: Pid, grants: map<int, Frame>, t: State)
    requires Inv(s) && OneToOne(s) && p in s.procs && c !in s.procs && EagerFork(s, p, c, grants) == Some(t)
    ensures Inv(t) && OneToOne(t) <==> forall v: int :: Key(p, v) in s.pages ==> !IsShared(s, Key(p, v))
  {
    SpawnInv(s, p, c, Spawn(s, p, c));
    InRange(s, c);
    if v: int :| Key(p, v) in s.pages && IsShared(s, Key(p, v)) {
      SharedCopyUnpinned(s, p, c, grants, t, v);
    } else {
      forall w: int | Key(p, w) in s.pages ensures !IsShared(Spawn(s, p, c), Key(c, w)) { RenamedShared(s, p, c, Spawn(s, p, c), w); }
      EagerFromInv(Spawn(s, p, c), p, c, 0, grants, t);
    }
  }

  lemma SharedCopyUnpinned(s: State, p: Pid, c: Pid, grants: map<int, Frame>, t: State, v: int)
    requires Inv(s) && p in s.procs && c !in s.procs && EagerFork(s, p, c, grants) == Some(t)
    requires Key(p, v) in s.pages && IsShared(s, Key(p, v))
    ensures !Inv(t)
  {
    Settles(s);
    EagerForkCopies(s, p, c, grants, t);
    CopyLooks(s, p, c, t, Key(c, v));
    NeverPinned(Spawn(s, p, c), p, c, 0, grants, t);
    assert FrameOk(s, t.pages[Key(c, v)].frame);
    RenamedShared(s, p, c, t, v);
    assert !EntryOk(t, Key(c, v));
  }

  lemma {:induction false} NeverPinned(s: State, p: Pid, c: Pid, v: int, grants: map<int, Frame>, t: State)
    requires EagerFrom(s, p, c, v, grants) == Some(t)
    ensures t.pinned == s.pinned
    decreases USER_PAGES - v
  {
    if v < USER_PAGES { NeverPinned(EagerPage(s, p, c, v, grants).value, p, c, v + 1, grants, t); }
  }

  /**
   When every page the parent maps is private, nothing that happens later tells the two clones apart: over every
   run for which both find the frames they take, each event has the same outcome and all pages the same contents.
   */
  lemma ClonesStayAlike(s: State, p: Pid, c: Pid, grants: map<int, Frame>, u: State, t: State, es: seq<Event>)
    requires Inv(s) && OneToOne(s) && p in s.procs && c !in s.procs && |s.procs| + 1 < REF_MODULUS && AllPrivate(s, p)
    requires u == Fork(s, p, c) && EagerFork(s, p, c, grants) == Some(t)
    requires Bounded(u, es) && AllSupplied(u, es) && Bounded(t, es) && AllSupplied(t, es)
    ensures Abstract(Run(u, es)) == Abstract(Run(t, es)) && Outcomes(u, es) == Outcomes(t, es)
  {
    assert forall v: int :: Key(p, v) in s.pages ==> !IsShared(s, Key(p, v));
    hide Fork, EagerFork, OneToOne, Abstract, SpecFork, Inv, AllSupplied, Bounded, AllPrivate, Run, Outcomes;
    AbstractAlike(s, p, c, grants, u, t);
    ForkCorrect(s, p, c);
    EagerForkInvIff(s, p, c, grants, t);
    RunsAlike(u, t, es);
  }

  lemma RunsAlike(u: State, t: State, es: seq<Event>)
    requires Inv(u) && OneToOne(u) && Inv(t) && OneToOne(t) && Abstract(u) == Abstract(t)
    requires Bounded(u, es) && AllSupplied(u, es) && Bounded(t, es) && AllSupplied(t, es)
    ensures Abstract(Run(u, es)) == Abstract(Run(t, es)) && Outcomes(u, es) == Outcomes(t, es)
  {
    hide OneToOne, Abstract, Inv, AllSupplied, Bounded, SpecAllows, Run, Outcomes, Eager;
    RunIsEager(u, es);
    RunIsEager(t, es);
  }

  lemma AbstractAlike(s: State, p: Pid, c: Pid, grants: map<int, Frame>, u: State, t: State)
    requires Inv(s) && OneToOne(s) && p in s.procs && c !in s.procs && |s.procs| + 1 < REF_MODULUS && AllPrivate(s, p)
    requires u == Fork(s, p, c) && EagerFork(s, p, c, grants) == Some(t)
    ensures Abstract(u) == Abstract(t)
  {
    InRange(s, c);
    assert forall k :: k in s.regions ==> k.pid != c;
    Settles(s);
    hide Fork, EagerFork, OneToOne, Abstract, SpecFork, Inv, Kept, CopyOf;
    EagerForkCopies(s, p, c, grants, t);
    ForkCorrect(s, p, c);
    assert t.procs == s.procs + {c} && t.regions == s.regions + Rename(s.regions, p, c);
    hide SameAs, Settled, Copied, AllPrivate;
    forall k ensures SameAs(s, Origin(p, c, k), t, k) { PrivateLooks(s, p, c, t, k); }
    OriginsAreCopies(s, p, c, t);
  }

  lemma PrivateLooks(s: State, p: Pid, c: Pid, t: State, k: Key)
    requires p != c && Copied(s, p, c, t) && Settled(s) && AllPrivate(s, p) && forall k :: k in s.regions ==> k.pid != c
    ensures SameAs(s, Origin(p, c, k), t, k)
  {
    hide View, Copied;
    CopyLooks(s, p, c, t, k);
  }
}
