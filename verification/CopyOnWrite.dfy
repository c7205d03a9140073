/**
 Copy-on-write address spaces: the fork, page-fault and teardown paths of the
 virtual memory manager together with the per-frame reference counts they rely on.

 The state holds every process's user pages, the contents and reference count of
 every frame and the set of frames the buddy allocator may hand out.  `Abstract` forgets
 the frames of private memory: each process simply owns a copy of each page, which is what
 an eager fork would have given it.  Of shared and device memory it keeps which pages have
 a frame in common.
 */
module CopyOnWrite {
  import opened Basics

  const PAGE_SIZE: nat := 4096
  const USER_PAGES: nat := 256 * 512 * 512 * 512
  const REF_MODULUS: nat := 65536

  type Pid = int
  type Frame = int
  type Byte = b: int | 0 <= b < 256
  type Page = p: seq<Byte> | |p| == PAGE_SIZE witness seq(PAGE_SIZE, _ => 0)

  /** A user page: the process it belongs to and its virtual page number. */
  datatype Key = Key(pid: Pid, vpage: int)

  /** Protection and sharing of the region that covers a page. */
  datatype Region = Region(read: bool, write: bool, exec: bool, shared: bool)

  /** A leaf page-table entry. */
  datatype Mapping = Mapping(frame: Frame, rw: bool, cow: bool, nx: bool)

  /** `pinned` holds the frames handed to shared regions; teardown never releases them. */
  datatype State = State(
    procs: set<Pid>,
    regions: map<Key, Region>,
    pages: map<Key, Mapping>,
    mem: map<Frame, Page>,
    refs: map<Frame, int>,
    free: set<Frame>,
    managed: set<Frame>,
    pinned: set<Frame>)

  function ZeroPage(): Page { seq(PAGE_SIZE, _ => 0) }

  predicate IsShared(s: State, k: Key) {
    k in s.regions && s.regions[k].shared
  }

  /** A page that is reference counted: private to its process and backed by managed memory. */
  predicate Private(s: State, k: Key) {
    k in s.pages && !IsShared(s, k) && s.pages[k].frame in s.managed
  }

  function RefCount(s: State, f: Frame): int { if f in s.refs then s.refs[f] else 0 }

  function Content(s: State, f: Frame): Page { if f in s.mem then s.mem[f] else ZeroPage() }

  // ---------------------------------------------------------------- frame primitives

  function Incref(s: State, f: Frame): State {
    if f == 0 || f !in s.managed then s
    else s.(refs := s.refs[f := (RefCount(s, f) + 1) % REF_MODULUS])
  }

  function Decref(s: State, f: Frame): State {
    if f == 0 || f !in s.managed || RefCount(s, f) <= 0 then s
    else if RefCount(s, f) == 1 then s.(refs := s.refs[f := 0], free := s.free + {f})
    else s.(refs := s.refs[f := RefCount(s, f) - 1])
  }

  /** The allocator's answer to a fault: no frame; a frame, but none for a table on the way; or all that is needed. */
  datatype Grant = Refused | Bare(value: Frame) | Full(value: Frame)

  predicate Granted(s: State, grant: Grant) {
    !grant.Refused? && grant.value in s.free
  }

  /** Allocation of one frame, filled with `data`. */
  function Take(s: State, f: Frame, data: Page): State {
    s.(free := s.free - {f}, refs := s.refs[f := 1], mem := s.mem[f := data])
  }

  /** A new entry backed by the freshly taken frame it names. */
  function Install(s: State, k: Key, m: Mapping, data: Page, pin: bool): State {
    Take(s, m.frame, data).(
      pages := s.pages[k := m],
      pinned := if pin then s.pinned + {m.frame} else s.pinned)
  }

  // ---------------------------------------------------------------- fork and teardown

  function ForkPage(s: State, p: Pid, c: Pid, v: int): State {
    var k, l := Key(p, v), Key(c, v);
    if k !in s.pages then s
    else
      var m := s.pages[k];
      if IsShared(s, k) || m.frame !in s.managed then s.(pages := s.pages[l := m])
      else
        var ro := if m.rw then m.(rw := false, cow := true) else m;
        Incref(s, m.frame).(pages := s.pages[k := ro][l := ro])
  }

  /** The table walk of fork, from page v upwards. */
  function ForkFrom(s: State, p: Pid, c: Pid, v: int): State
    decreases USER_PAGES - v
  {
    if v >= USER_PAGES then s else ForkFrom(ForkPage(s, p, c, v), p, c, v + 1)
  }

  /** The entries of process p, as entries of process c. */
  function Rename<T>(m: map<Key, T>, p: Pid, c: Pid): (r: map<Key, T>)
    ensures forall k :: k in r <==> k.pid == c && Key(p, k.vpage) in m
    ensures forall k :: k in r ==> r[k] == m[Key(p, k.vpage)]
  {
    var r := map k | k in m && k.pid == p :: Key(c, k.vpage) := m[k];
    assert forall k :: k in m && k.pid == p ==> k == Key(p, k.vpage) && Key(c, k.vpage) in r;
    assert forall k: Key :: k == Key(k.pid, k.vpage);
    r
  }

  function Without<T>(m: map<Key, T>, p: Pid): map<Key, T> {
    map k | k in m && k.pid != p :: m[k]
  }

  /** A new process whose region list is a clone of its parent's and whose tables are empty. */
  function Spawn(s: State, p: Pid, c: Pid): State {
    s.(procs := s.procs + {c}, regions := s.regions + Rename(s.regions, p, c))
  }

  function Fork(s: State, p: Pid, c: Pid): State {
    ForkFrom(Spawn(s, p, c), p, c, 0)
  }

  function ExitPage(s: State, k: Key): State {
    if k !in s.pages then s
    else if IsShared(s, k) then s.(pages := s.pages - {k})
    else Decref(s, s.pages[k].frame).(pages := s.pages - {k})
  }

  /** The table walk of teardown, from page v upwards. */
  function ExitFrom(s: State, p: Pid, v: int): State
    decreases USER_PAGES - v
  {
    if v >= USER_PAGES then s else ExitFrom(ExitPage(s, Key(p, v)), p, v + 1)
  }

  function Exit(s: State, p: Pid): State {
    var t := ExitFrom(s, p, 0);
    t.(procs := t.procs - {p}, regions := Without(t.regions, p))
  }

  // ---------------------------------------------------------------- page faults and user accesses

  /** The write-fault path on a present page: copy a shared frame, promote a sole owner's. */
  function CowFault(s: State, k: Key, grant: Grant): (State, bool)
    requires k in s.pages
  {
    var m := s.pages[k];
    if !m.cow then (s, false)
    else if (if m.frame in s.managed then RefCount(s, m.frame) else 1) > 1 then
      if !Granted(s, grant) then (s, false)
      else
        var f := grant.value;
        var t := Take(s, f, Content(s, m.frame)).(pages := s.pages[k := m.(frame := f, rw := true, cow := false)]);
        (Decref(t, m.frame), true)
    else (s.(pages := s.pages[k := m.(rw := true, cow := false)]), true)
  }

  /** The not-present path: zero-fill on demand from the region's protection. */
  function DemandFault(s: State, k: Key, write: bool, grant: Grant): (State, bool) {
    if k !in s.regions then (s, false)
    else
      var r := s.regions[k];
      if !r.read && !r.write && !r.exec then (s, false)
      else if write && !r.write then (s, false)
      else if !Granted(s, grant) then (s, false)
      else if grant.Bare? then (Decref(Take(s, grant.value, ZeroPage()), grant.value), false)
      else
        (Install(s, k, Mapping(grant.value, r.write, false, !r.exec), ZeroPage(), r.shared), true)
  }

  function PageFault(s: State, k: Key, write: bool, grant: Grant): (State, bool) {
    if k in s.pages then if write then CowFault(s, k, grant) else (s, false)
    else DemandFault(s, k, write, grant)
  }

  /** A user store: the processor writes through a writable entry and faults otherwise. */
  function Store(s: State, k: Key, off: nat, b: Byte, grant: Grant): (State, bool)
    requires off < PAGE_SIZE
  {
    var (t, ok) := if k in s.pages && s.pages[k].rw then (s, true) else PageFault(s, k, true, grant);
    if ok && k in t.pages && t.pages[k].rw then (Poke(t, t.pages[k].frame, off, b), true) else (t, false)
  }

  function Poke(s: State, f: Frame, off: nat, b: Byte): State
    requires off < PAGE_SIZE
  {
    s.(mem := s.mem[f := Content(s, f)[off := b]])
  }

  /** A user load of a page, bringing it in on demand. */
  function Touch(s: State, k: Key, grant: Grant): (State, bool) {
    if k in s.pages then (s, true) else PageFault(s, k, false, grant)
  }

  function Mmap(s: State, k: Key, r: Region): (State, bool) {
    if k in s.regions || k in s.pages || k.vpage < 0 || k.vpage >= USER_PAGES then (s, false)
    else (s.(regions := s.regions[k := r]), true)
  }

  /** munmap of one anonymous page: drop the entry, release its frame, forget the region. */
  function Munmap(s: State, k: Key): (State, bool) {
    if k !in s.regions then (s, false)
    else
      var t := ExitPage(s, k);
      (t.(regions := t.regions - {k}), true)
  }

  // ---------------------------------------------------------------- runs

  datatype Event =
    | DoFork(p: Pid, c: Pid)
    | DoStore(p: Pid, v: int, off: nat, b: Byte, grant: Grant)
    | DoTouch(p: Pid, v: int, grant: Grant)
    | DoMmap(p: Pid, v: int, r: Region)
    | DoMunmap(p: Pid, v: int)
    | DoExit(p: Pid)

  function Step(s: State, e: Event): (State, bool) {
    if e.p !in s.procs then (s, false)
    else match e
      case DoFork(p, c) => if c in s.procs then (s, false) else (Fork(s, p, c), true)
      case DoStore(p, v, off, b, g) => if off >= PAGE_SIZE then (s, false) else Store(s, Key(p, v), off, b, g)
      case DoTouch(p, v, g) => Touch(s, Key(p, v), g)
      case DoMmap(p, v, r) => Mmap(s, Key(p, v), r)
      case DoMunmap(p, v) => Munmap(s, Key(p, v))
      case DoExit(p) => (Exit(s, p), true)
  }

  function Run(s: State, es: seq<Event>): State {
    if es == [] then s else Step(Run(s, es[..|es| - 1]), es[|es| - 1]).0
  }

  /** Which events of a run took effect (the others were refused or ran out of memory). */
  function Outcomes(s: State, es: seq<Event>): (oks: seq<bool>)
    ensures |oks| == |es|
  {
    if es == [] then []
    else Outcomes(s, es[..|es| - 1]) + [Step(Run(s, es[..|es| - 1]), es[|es| - 1]).1]
  }

  // ---------------------------------------------------------------- the eager machine

  datatype SpecPage = SpecPage(data: Page, writable: bool, nx: bool)

  /** A page of shared or device memory: the frame it shares with others, and what its process sees of it. */
  datatype Foreign = Foreign(frame: Frame, page: SpecPage)

  /** Private pages, and in `foreign` those that are shared or device memory. */
  datatype SpecState = SpecState(
    procs: set<Pid>, regions: map<Key, Region>, pages: map<Key, SpecPage>, foreign: map<Key, Foreign>)

  /** Fork with every page copied up front. */
  function SpecFork(a: SpecState, p: Pid, c: Pid): SpecState {
    SpecState(
      a.procs + {c},
      a.regions + Rename(a.regions, p, c),
      a.pages + Rename(a.pages, p, c),
      a.foreign + Rename(a.foreign, p, c))
  }

  /** The frame of a grant, which a page of a shared region keeps. */
  function FrameOf(g: Grant): Frame { if g.Refused? then 0 else g.value }

  function SpecTouch(a: SpecState, k: Key, g: Grant): SpecState {
    if k in a.pages || k in a.foreign || k !in a.regions then a
    else
      var page := SpecPage(ZeroPage(), a.regions[k].write, !a.regions[k].exec);
      if a.regions[k].shared then a.(foreign := a.foreign[k := Foreign(FrameOf(g), page)])
      else a.(pages := a.pages[k := page])
  }

  /** A store changes one byte of a private page, or of all pages that share the stored-to page's frame. */
  function SpecStore(a: SpecState, k: Key, off: nat, b: Byte, g: Grant): SpecState
    requires off < PAGE_SIZE
  {
    var a' := SpecTouch(a, k, g);
    if k in a'.pages then a'.(pages := a'.pages[k := SpecPoke(a'.pages[k], off, b)])
    else if k in a'.foreign then a'.(foreign := SpecWrite(a'.foreign, a'.foreign[k].frame, off, b))
    else a'
  }

  function SpecPoke(p: SpecPage, off: nat, b: Byte): SpecPage
    requires off < PAGE_SIZE
  {
    p.(data := p.data[off := b])
  }

  function SpecWrite(m: map<Key, Foreign>, f: Frame, off: nat, b: Byte): map<Key, Foreign>
    requires off < PAGE_SIZE
  {
    map l | l in m :: if m[l].frame == f then m[l].(page := SpecPoke(m[l].page, off, b)) else m[l]
  }

  function SpecStep(a: SpecState, e: Event, ok: bool): SpecState {
    if !ok then a
    else match e
      case DoFork(p, c) => SpecFork(a, p, c)
      case DoStore(p, v, off, b, g) => if off >= PAGE_SIZE then a else SpecStore(a, Key(p, v), off, b, g)
      case DoTouch(p, v, g) => SpecTouch(a, Key(p, v), g)
      case DoMmap(p, v, r) => a.(regions := a.regions[Key(p, v) := r])
      case DoMunmap(p, v) =>
        a.(regions := a.regions - {Key(p, v)}, pages := a.pages - {Key(p, v)}, foreign := a.foreign - {Key(p, v)})
      case DoExit(p) => SpecExit(a, p)
  }

  function SpecExit(a: SpecState, p: Pid): SpecState {
    SpecState(a.procs - {p}, Without(a.regions, p), Without(a.pages, p), Without(a.foreign, p))
  }

  function SpecRun(a: SpecState, es: seq<Event>, oks: seq<bool>): SpecState
    requires |oks| == |es|
  {
    if es == [] then a
    else SpecStep(SpecRun(a, es[..|es| - 1], oks[..|es| - 1]), es[|es| - 1], oks[|es| - 1])
  }

  function View(s: State, k: Key): SpecPage
    requires k in s.pages
  {
    SpecPage(Content(s, s.pages[k].frame), s.pages[k].rw || s.pages[k].cow, s.pages[k].nx)
  }

  function Abstract(s: State): SpecState {
    SpecState(
      s.procs,
      s.regions,
      map k | k in s.pages && Private(s, k) :: View(s, k),
      map k | k in s.pages && !Private(s, k) :: Foreign(s.pages[k].frame, View(s, k)))
  }

  lemma AbstractIs(t: State, a: SpecState)
    requires t.procs == a.procs && t.regions == a.regions
    requires forall k :: k in a.pages <==> Private(t, k)
    requires forall k :: k in a.pages ==> k in t.pages && a.pages[k] == View(t, k)
    requires forall k :: k in a.foreign <==> k in t.pages && !Private(t, k)
    requires forall k :: k in a.foreign ==> k in t.pages && a.foreign[k] == Foreign(t.pages[k].frame, View(t, k))
    ensures Abstract(t) == a
  {
    assert Abstract(t).pages == a.pages;
    assert Abstract(t).foreign == a.foreign;
  }

  /** Two states in which page k looks the same to its process. */
  ghost predicate SameView(s: State, t: State, k: Key) {
    && (k in t.pages <==> k in s.pages)
    && (k in s.pages ==> View(t, k) == View(s, k) && (Private(s, k) || t.pages[k].frame == s.pages[k].frame))
    && Private(t, k) == Private(s, k)
  }

  // ---------------------------------------------------------------- the invariant

  /** The private entries, over all address spaces, that map frame f. */
  ghost function Users(s: State, f: Frame): set<Key> {
    set k | k in s.pages && Private(s, k) && s.pages[k].frame == f
  }

  ghost predicate Typed(s: State) {
    && s.refs.Keys == s.managed
    && 0 !in s.managed
    && s.free <= s.managed
    && s.pinned <= s.managed
  }

  ghost predicate EntryOk(s: State, k: Key)
    requires k in s.pages
  {
    && k.pid in s.procs
    && 0 <= k.vpage < USER_PAGES
    && (!Private(s, k) ==> !s.pages[k].cow && (s.pages[k].frame in s.managed ==> s.pages[k].frame in s.pinned))
    && (Private(s, k) && s.pages[k].rw ==> RefCount(s, s.pages[k].frame) == 1)
  }

  /** Entries lie below the user limit, shared ones use pinned frames, writable ones are sole owners. */
  ghost predicate EntriesOk(s: State) {
    && (forall k :: k in s.pages ==> EntryOk(s, k))
    && (forall k :: k in s.regions ==> k.pid in s.procs && 0 <= k.vpage < USER_PAGES)
  }

  /** A process maps a counted frame at most once. */
  ghost predicate OneToOne(s: State) {
    forall k, l :: Private(s, k) && Private(s, l) && k.pid == l.pid && s.pages[k].frame == s.pages[l].frame ==> k == l
  }

  /** The count is exact, and the frame is free exactly when nothing maps it. */
  ghost predicate FrameOk(s: State, f: Frame) {
    if f in s.pinned then f !in s.free && Users(s, f) == {}
    else RefCount(s, f) == |Users(s, f)| && (f in s.free <==> Users(s, f) == {})
  }

  ghost predicate FramesOk(s: State) {
    forall f :: f in s.managed ==> FrameOk(s, f)
  }

  ghost predicate Inv(s: State) {
    Typed(s) && EntriesOk(s) && FramesOk(s)
  }

  // ---------------------------------------------------------------- counting users

  lemma SoleUser(s: State, f: Frame, k: Key, l: Key)
    requires |Users(s, f)| == 1 && k in Users(s, f) && l in Users(s, f)
    ensures k == l
  {
    assert |Users(s, f) - {k}| == 0;
    assert l !in Users(s, f) - {k};
  }

  /** Keys with distinct processes are no more numerous than those processes. */
  lemma {:induction false} KeysBound(us: set<Key>, ps: set<Pid>)
    requires forall k :: k in us ==> k.pid in ps
    requires forall k, l :: k in us && l in us && k.pid == l.pid ==> k == l
    ensures |us| <= |ps|
    decreases us
  {
    if us != {} {
      var k :| k in us;
      KeysBound(us - {k}, ps - {k.pid});
    }
  }

  lemma OneMore(ps: set<Pid>, c: Pid)
    requires c !in ps
    ensures |ps + {c}| == |ps| + 1
  {
  }

  /** No frame has more sharers than there are processes. */
  lemma SharersBound(s: State, f: Frame)
    requires OneToOne(s)
    requires forall k :: k in s.pages ==> k.pid in s.procs
    ensures |Users(s, f)| <= |s.procs|
  {
    KeysBound(Users(s, f), s.procs);
  }

  // ---------------------------------------------------------------- fork

  /** The child's page table copied so far is the parent's, restricted to pages below n. */
  ghost predicate Mirror(s: State, p: Pid, c: Pid, n: int) {
    && p in s.procs && c in s.procs && p != c
    && (forall v: int :: Key(c, v) in s.regions <==> Key(p, v) in s.regions)
    && (forall v: int :: Key(c, v) in s.regions ==> s.regions[Key(c, v)] == s.regions[Key(p, v)])
    && (forall v: int :: Key(c, v) in s.pages <==> Key(p, v) in s.pages && 0 <= v < n)
    && (forall v: int :: Key(c, v) in s.pages ==> s.pages[Key(c, v)] == s.pages[Key(p, v)])
  }

  lemma ForkMirror(s: State, p: Pid, c: Pid, v: int, t: State)
    requires 0 <= v && Mirror(s, p, c, v) && t == ForkPage(s, p, c, v)
    ensures Mirror(t, p, c, v + 1)
  {
  }

  /** Sharing a page adds the child's entry to the users of its frame, and nothing else. */
  lemma ForkUsers(s: State, p: Pid, c: Pid, v: int, t: State, f: Frame)
    requires Key(p, v) in s.pages && IsShared(s, Key(c, v)) == IsShared(s, Key(p, v)) && Key(c, v) !in s.pages
    requires t == ForkPage(s, p, c, v)
    ensures Users(t, f) == Users(s, f) + (if Private(s, Key(p, v)) && f == s.pages[Key(p, v)].frame then {Key(c, v)} else {})
  {
  }

  lemma ForkFrame(s: State, p: Pid, c: Pid, v: int, t: State, f: Frame)
    requires Key(p, v) in s.pages && IsShared(s, Key(c, v)) == IsShared(s, Key(p, v)) && Key(c, v) !in s.pages
    requires t == ForkPage(s, p, c, v) && Typed(s) && f in s.managed && FrameOk(s, f)
    requires |Users(t, f)| < REF_MODULUS
    ensures FrameOk(t, f)
  {
    ForkUsers(s, p, c, v, t, f);
    if Private(s, Key(p, v)) && f == s.pages[Key(p, v)].frame {
      assert Key(p, v) in Users(s, f) && Key(c, v) !in Users(s, f);
    }
    hide Users, Private, IsShared;
  }

  lemma ForkEntry(s: State, p: Pid, c: Pid, v: int, t: State, x: Key)
    requires Key(p, v) in s.pages && IsShared(s, Key(c, v)) == IsShared(s, Key(p, v)) && c in s.procs
    requires t == ForkPage(s, p, c, v) && x in t.pages
    requires x in s.pages ==> EntryOk(s, x)
    requires EntryOk(s, Key(p, v))
    requires Private(s, Key(p, v)) ==> s.pages[Key(p, v)].frame !in s.pinned && FrameOk(s, s.pages[Key(p, v)].frame)
    ensures EntryOk(t, x)
  {
    var k := Key(p, v);
    if Private(s, k) && x != k && x != Key(c, v) && Private(s, x) && s.pages[x].frame == s.pages[k].frame && s.pages[x].rw {
      SoleUser(s, s.pages[k].frame, k, x);
    }
  }

  /** Where a counted entry of the forked state came from. */
  lemma ForkOrigin(s: State, p: Pid, c: Pid, v: int, t: State, k: Key)
    requires 0 <= v && Mirror(s, p, c, v) && t == ForkPage(s, p, c, v) && Private(t, k)
    ensures var o := if k.pid == c then Key(p, k.vpage) else k;
      Private(s, o) && s.pages[o].frame == t.pages[k].frame
  {
    assert k == Key(k.pid, k.vpage);
  }

  lemma ForkOneToOne(s: State, p: Pid, c: Pid, v: int, t: State)
    requires 0 <= v && OneToOne(s) && Mirror(s, p, c, v) && t == ForkPage(s, p, c, v)
    ensures OneToOne(t)
  {
    forall k, l | Private(t, k) && Private(t, l) && k.pid == l.pid && t.pages[k].frame == t.pages[l].frame
      ensures k == l
    {
      ForkOrigin(s, p, c, v, t, k);
      ForkOrigin(s, p, c, v, t, l);
    }
  }

  /** A counted frame in use is not pinned. */
  lemma NotPinned(s: State, k: Key)
    requires Typed(s) && FramesOk(s) && Private(s, k)
    ensures s.pages[k].frame !in s.pinned && FrameOk(s, s.pages[k].frame) && k in Users(s, s.pages[k].frame)
  {
    assert k in Users(s, s.pages[k].frame);
    assert FrameOk(s, s.pages[k].frame);
  }

  lemma ForkEntries(s: State, p: Pid, c: Pid, v: int, t: State)
    requires Inv(s) && IsShared(s, Key(c, v)) == IsShared(s, Key(p, v)) && c in s.procs
    requires t == ForkPage(s, p, c, v)
    ensures EntriesOk(t)
  {
    var k := Key(p, v);
    if k in s.pages {
      if Private(s, k) { NotPinned(s, k); }
      forall x | x in t.pages ensures EntryOk(t, x) {
        ForkEntry(s, p, c, v, t, x);
      }
    }
  }

  lemma ForkFrames(s: State, p: Pid, c: Pid, v: int, t: State)
    requires Typed(s) && FramesOk(s) && t == ForkPage(s, p, c, v)
    requires IsShared(s, Key(c, v)) == IsShared(s, Key(p, v)) && Key(c, v) !in s.pages
    requires forall f :: |Users(t, f)| < REF_MODULUS
    ensures FramesOk(t)
  {
    if Key(p, v) in s.pages {
      forall f | f in t.managed ensures FrameOk(t, f) {
        ForkFrame(s, p, c, v, t, f);
      }
    }
  }

  lemma ForkPageInv(s: State, p: Pid, c: Pid, v: int, t: State)
    requires Inv(s) && OneToOne(s) && 0 <= v && Mirror(s, p, c, v) && t == ForkPage(s, p, c, v)
    requires |s.procs| < REF_MODULUS
    ensures t.procs == s.procs && Inv(t) && OneToOne(t)
  {
    assert IsShared(s, Key(c, v)) == IsShared(s, Key(p, v));
    ForkOneToOne(s, p, c, v, t);
    ForkEntries(s, p, c, v, t);
    forall f ensures |Users(t, f)| < REF_MODULUS {
      forall x | x in t.pages ensures x.pid in t.procs { assert EntryOk(t, x); }
      SharersBound(t, f);
    }
    ForkFrames(s, p, c, v, t);
  }

  lemma {:induction false} ForkFromInv(s: State, p: Pid, c: Pid, v: int, t: State)
    requires Inv(s) && OneToOne(s) && 0 <= v <= USER_PAGES && Mirror(s, p, c, v) && t == ForkFrom(s, p, c, v)
    requires |s.procs| < REF_MODULUS
    ensures t.procs == s.procs && Inv(t) && OneToOne(t) && Mirror(t, p, c, USER_PAGES)
    decreases USER_PAGES - v
  {
    if v < USER_PAGES {
      var s' := ForkPage(s, p, c, v);
      ForkPageInv(s, p, c, v, s');
      ForkMirror(s, p, c, v, s');
      ForkFromInv(s', p, c, v + 1, t);
    }
  }

  /** Write-protecting an entry for copy-on-write changes no page's data and no right to write it. */
  lemma ForkPageView(s: State, p: Pid, c: Pid, v: int, k: Key, t: State)
    requires p != c && k.pid != c && t == ForkPage(s, p, c, v)
    ensures SameView(s, t, k) && t.regions == s.regions && t.managed == s.managed
  {
  }

  lemma {:induction false} ForkFromView(s: State, p: Pid, c: Pid, v: int, k: Key, t: State)
    requires p != c && k.pid != c && t == ForkFrom(s, p, c, v)
    ensures SameView(s, t, k) && t.regions == s.regions && t.managed == s.managed
    decreases USER_PAGES - v
  {
    if v < USER_PAGES {
      var s' := ForkPage(s, p, c, v);
      ForkPageView(s, p, c, v, k, s');
      ForkFromView(s', p, c, v + 1, k, t);
    }
  }

  lemma SpawnView(s: State, p: Pid, c: Pid, t: State, k: Key)
    requires t == Spawn(s, p, c) && k.pid != c
    ensures SameView(s, t, k) && IsShared(s, k) == IsShared(t, k)
  {
  }

  lemma SpawnInv(s: State, p: Pid, c: Pid, t: State)
    requires Inv(s) && OneToOne(s) && p in s.procs && c !in s.procs && t == Spawn(s, p, c)
    ensures Inv(t) && OneToOne(t) && Mirror(t, p, c, 0)
  {
    forall k | k in s.pages ensures k.pid != c && EntryOk(t, k) && SameView(s, t, k) {
      assert EntryOk(s, k);
      SpawnView(s, p, c, t, k);
    }
    forall f | f in s.managed ensures FrameOk(t, f) {
      assert FrameOk(s, f);
      assert Users(t, f) == Users(s, f);
    }
    assert OneToOne(t) by {
      assert forall k :: Private(t, k) ==> Private(s, k);
    }
  }

  /** Page k of t looks as page o of s did. */
  ghost predicate SameAs(s: State, o: Key, t: State, k: Key) {
    && (k in t.pages <==> o in s.pages)
    && (k in t.pages ==> View(t, k) == View(s, o) && (Private(t, k) || t.pages[k].frame == s.pages[o].frame))
    && Private(t, k) == Private(s, o)
  }

  /** In a mirrored state the child's page looks as the parent's did before the fork. */
  lemma ChildView(s: State, p: Pid, c: Pid, t: State, v: int)
    requires Mirror(t, p, c, USER_PAGES) && t.managed == s.managed
    requires Key(p, v) in t.pages ==> 0 <= v < USER_PAGES
    requires SameView(s, t, Key(p, v))
    ensures SameAs(s, Key(p, v), t, Key(c, v))
  {
  }

  /** The page of the parent, or of the same process, that page k was before the fork. */
  function Origin(p: Pid, c: Pid, k: Key): Key {
    if k.pid == c then Key(p, k.vpage) else k
  }

  lemma ForkKeyView(s: State, p: Pid, c: Pid, s0: State, t: State, k: Key)
    requires p != c && s0 == Spawn(s, p, c) && t == ForkFrom(s0, p, c, 0)
    requires EntriesOk(t) && Mirror(t, p, c, USER_PAGES)
    ensures SameAs(s, Origin(p, c, k), t, k)
  {
    var o := Origin(p, c, k);
    SpawnView(s, p, c, s0, o);
    ForkFromView(s0, p, c, 0, o, t);
    if k.pid == c {
      if o in t.pages { assert EntryOk(t, o); }
      ChildView(s, p, c, t, k.vpage);
      assert k == Key(c, k.vpage);
    }
  }

  lemma OriginCopied(s: State, p: Pid, c: Pid, t: State, a: SpecState, k: Key)
    requires p != c && a == SpecFork(Abstract(s), p, c) && SameAs(s, Origin(p, c, k), t, k)
    requires forall k :: k in s.pages ==> k.pid != c
    ensures k in a.pages <==> Private(t, k)
    ensures k in a.pages ==> k in t.pages && a.pages[k] == View(t, k)
    ensures k in a.foreign <==> k in t.pages && !Private(t, k)
    ensures k in a.foreign ==> k in t.pages && a.foreign[k] == Foreign(t.pages[k].frame, View(t, k))
  {
    hide View;
  }

  /** A state whose pages all look like their origins abstracts to an eager copy. */
  lemma OriginsAreCopies(s: State, p: Pid, c: Pid, t: State)
    requires p != c && t.procs == s.procs + {c} && t.regions == s.regions + Rename(s.regions, p, c)
    requires forall k :: k in s.pages ==> k.pid != c
    requires forall k :: SameAs(s, Origin(p, c, k), t, k)
    ensures Abstract(t) == SpecFork(Abstract(s), p, c)
  {
    hide Private, View, SameAs;
    var a := SpecFork(Abstract(s), p, c);
    forall k
      ensures k in a.pages <==> Private(t, k)
      ensures k in a.pages ==> k in t.pages && a.pages[k] == View(t, k)
      ensures k in a.foreign <==> k in t.pages && !Private(t, k)
      ensures k in a.foreign ==> k in t.pages && a.foreign[k] == Foreign(t.pages[k].frame, View(t, k))
    {
      OriginCopied(s, p, c, t, a, k);
    }
    AbstractIs(t, a);
  }

  lemma ForkFromAbstract(s: State, p: Pid, c: Pid, s0: State, t: State)
    requires p != c && s0 == Spawn(s, p, c) && t == ForkFrom(s0, p, c, 0)
    requires forall k :: k in s.pages ==> k.pid != c
    requires EntriesOk(t) && Mirror(t, p, c, USER_PAGES) && t.procs == s0.procs
    ensures Abstract(t) == SpecFork(Abstract(s), p, c)
  {
    ForkFromView(s0, p, c, 0, Key(p, 0), t);
    forall k ensures SameAs(s, Origin(p, c, k), t, k) { ForkKeyView(s, p, c, s0, t, k); }
    OriginsAreCopies(s, p, c, t);
  }

  lemma InRange(s: State, c: Pid)
    requires EntriesOk(s) && c !in s.procs
    ensures forall k :: k in s.pages ==> k.pid != c && 0 <= k.vpage < USER_PAGES
  {
    forall k | k in s.pages ensures k.pid != c && 0 <= k.vpage < USER_PAGES { assert EntryOk(s, k); }
  }

  lemma ForkFromCorrect(s: State, p: Pid, c: Pid, s0: State, t: State)
    requires Inv(s) && OneToOne(s) && p in s.procs && c !in s.procs
    requires s0 == Spawn(s, p, c) && t == ForkFrom(s0, p, c, 0)
    requires |s.procs| + 1 < REF_MODULUS
    ensures Inv(t) && OneToOne(t)
    ensures Abstract(t) == SpecFork(Abstract(s), p, c)
  {
    InRange(s, c);
    OneMore(s.procs, c);
    SpawnInv(s, p, c, s0);
    hide Mirror, Users, OneToOne, SpecFork, Abstract;
    ForkFromInv(s0, p, c, 0, t);
    ForkFromAbstract(s, p, c, s0, t);
  }

  lemma ForkFromProcs(s: State, p: Pid, c: Pid, v: int, t: State)
    requires t == ForkFrom(s, p, c, v)
    ensures t.procs == s.procs
    decreases USER_PAGES - v
  {
    if v < USER_PAGES { ForkFromProcs(ForkPage(s, p, c, v), p, c, v + 1, t); }
  }

  /** Fork keeps the invariant, and gives the child its own copy of every private page. */
  lemma ForkCorrect(s: State, p: Pid, c: Pid)
    requires Inv(s) && OneToOne(s) && p in s.procs && c !in s.procs
    requires |s.procs| + 1 < REF_MODULUS
    ensures Inv(Fork(s, p, c)) && OneToOne(Fork(s, p, c))
    ensures Abstract(Fork(s, p, c)) == SpecFork(Abstract(s), p, c)
  {
    ForkFromCorrect(s, p, c, Spawn(s, p, c), Fork(s, p, c));
  }

  lemma ForkStep(s: State, p: Pid, c: Pid, t: State)
    requires Inv(s) && OneToOne(s) && p in s.procs && c !in s.procs && t == Fork(s, p, c)
    requires |t.procs| < REF_MODULUS
    ensures Inv(t) && OneToOne(t)
    ensures Abstract(t) == SpecFork(Abstract(s), p, c)
  {
    ForkFromProcs(Spawn(s, p, c), p, c, 0, t);
    OneMore(s.procs, c);
    ForkCorrect(s, p, c);
  }

  // ---------------------------------------------------------------- teardown

  lemma DropUsers(s: State, k: Key, t: State, f: Frame)
    requires t == ExitPage(s, k)
    ensures Users(t, f) == Users(s, f) - {k}
  {
  }

  lemma DropFrame(s: State, k: Key, t: State, f: Frame)
    requires Typed(s) && f in s.managed && FrameOk(s, f) && t == ExitPage(s, k)
    requires k in s.pages ==> EntryOk(s, k)
    ensures FrameOk(t, f)
  {
    DropUsers(s, k, t, f);
    assert k in Users(s, f) <==> Private(s, k) && s.pages[k].frame == f;
  }

  lemma DropEntry(s: State, k: Key, t: State, x: Key)
    requires t == ExitPage(s, k) && x in t.pages && EntryOk(s, x)
    requires Private(s, k) ==> FrameOk(s, s.pages[k].frame) && s.pages[k].frame !in s.pinned
    ensures EntryOk(t, x)
  {
    if Private(s, k) && Private(s, x) && s.pages[x].rw && s.pages[x].frame == s.pages[k].frame {
      SoleUser(s, s.pages[k].frame, k, x);
    }
  }

  /** Dropping one entry keeps the counts exact and frees the frame with its last user. */
  lemma ExitPageInv(s: State, k: Key, t: State)
    requires Inv(s) && t == ExitPage(s, k)
    ensures Inv(t) && t.pages == s.pages - {k}
    ensures t.procs == s.procs && t.regions == s.regions && t.managed == s.managed && t.mem == s.mem
  {
    if Private(s, k) { NotPinned(s, k); }
    forall f | f in s.managed ensures FrameOk(t, f) { DropFrame(s, k, t, f); }
    forall x | x in t.pages ensures EntryOk(t, x) { DropEntry(s, k, t, x); }
  }

  lemma FewerOneToOne(s: State, t: State)
    requires OneToOne(s) && t.managed == s.managed
    requires forall k :: k in t.pages ==> k in s.pages && t.pages[k] == s.pages[k] && IsShared(t, k) == IsShared(s, k)
    ensures OneToOne(t)
  {
    assert forall k :: Private(t, k) ==> Private(s, k);
  }

  /** What a walk over the pages of p from v upwards has removed. */
  ghost predicate Dropped(s: State, p: Pid, v: int, t: State) {
    && t.procs == s.procs && t.regions == s.regions && t.managed == s.managed && t.mem == s.mem
    && (forall k :: k in t.pages <==> k in s.pages && !(k.pid == p && v <= k.vpage < USER_PAGES))
    && (forall k :: k in t.pages ==> t.pages[k] == s.pages[k])
  }

  lemma {:induction false} ExitFromInv(s: State, p: Pid, v: int, t: State)
    requires Inv(s) && t == ExitFrom(s, p, v)
    ensures Inv(t) && Dropped(s, p, v, t)
    decreases USER_PAGES - v
  {
    if v < USER_PAGES {
      var s' := ExitPage(s, Key(p, v));
      ExitPageInv(s, Key(p, v), s');
      ExitFromInv(s', p, v + 1, t);
      assert forall k: Key :: k == Key(p, v) <==> k.pid == p && k.vpage == v;
    }
  }

  lemma DropProcessInv(s: State, p: Pid, t: State)
    requires Inv(s) && (forall k :: k in s.pages ==> k.pid != p)
    requires t == s.(procs := s.procs - {p}, regions := Without(s.regions, p))
    ensures Inv(t)
  {
    forall k | k in s.pages ensures EntryOk(t, k) && Private(t, k) == Private(s, k) { assert EntryOk(s, k); }
    forall f | f in s.managed ensures FrameOk(t, f) {
      assert FrameOk(s, f);
      assert Users(t, f) == Users(s, f);
    }
  }

  lemma ExitAt(s: State, p: Pid, u: State, t: State, a: SpecState, k: Key)
    requires Dropped(s, p, 0, u) && t == u.(procs := u.procs - {p}, regions := Without(u.regions, p))
    requires a == SpecExit(Abstract(s), p) && (k in s.pages ==> 0 <= k.vpage < USER_PAGES)
    ensures k in a.pages <==> Private(t, k)
    ensures k in a.pages ==> k in t.pages && a.pages[k] == View(t, k)
    ensures k in a.foreign <==> k in t.pages && !Private(t, k)
    ensures k in a.foreign ==> k in t.pages && a.foreign[k] == Foreign(t.pages[k].frame, View(t, k))
  {
    assert k in t.pages ==> IsShared(t, k) == IsShared(s, k);
  }

  lemma ExitFromAbstract(s: State, p: Pid, u: State, t: State)
    requires Dropped(s, p, 0, u) && t == u.(procs := u.procs - {p}, regions := Without(u.regions, p))
    requires forall k :: k in s.pages ==> 0 <= k.vpage < USER_PAGES
    ensures Abstract(t) == SpecStep(Abstract(s), DoExit(p), true)
  {
    hide Private, View;
    var a := SpecExit(Abstract(s), p);
    forall k
      ensures k in a.pages <==> Private(t, k)
      ensures k in a.pages ==> k in t.pages && a.pages[k] == View(t, k)
      ensures k in a.foreign <==> k in t.pages && !Private(t, k)
      ensures k in a.foreign ==> k in t.pages && a.foreign[k] == Foreign(t.pages[k].frame, View(t, k))
    {
      ExitAt(s, p, u, t, a, k);
    }
    AbstractIs(t, a);
  }

  lemma ExitToCorrect(s: State, p: Pid, u: State, t: State)
    requires Inv(s) && OneToOne(s)
    requires u == ExitFrom(s, p, 0) && t == u.(procs := u.procs - {p}, regions := Without(u.regions, p))
    ensures Inv(t) && OneToOne(t)
    ensures Abstract(t) == SpecStep(Abstract(s), DoExit(p), true)
  {
    ExitFromInv(s, p, 0, u);
    forall k | k in s.pages ensures 0 <= k.vpage < USER_PAGES { assert EntryOk(s, k); }
    DropProcessInv(u, p, t);
    FewerOneToOne(s, t);
    ExitFromAbstract(s, p, u, t);
  }

  /** Teardown keeps the invariant and removes exactly the process's own pages. */
  lemma ExitCorrect(s: State, p: Pid)
    requires Inv(s) && OneToOne(s)
    ensures Inv(Exit(s, p)) && OneToOne(Exit(s, p))
    ensures Abstract(Exit(s, p)) == SpecStep(Abstract(s), DoExit(p), true)
  {
    ExitToCorrect(s, p, ExitFrom(s, p, 0), Exit(s, p));
  }

  /** Forgetting the region of an unmapped page affects no entry. */
  lemma ForgetRegion(s: State, k: Key, t: State)
    requires Inv(s) && k !in s.pages && t == s.(regions := s.regions - {k})
    ensures Inv(t)
  {
    forall x | x in s.pages ensures EntryOk(t, x) && Private(t, x) == Private(s, x) { assert EntryOk(s, x); }
    forall f | f in s.managed ensures FrameOk(t, f) {
      assert FrameOk(s, f);
      assert Users(t, f) == Users(s, f);
    }
  }

  /** munmap of a page keeps the invariant and removes exactly that page. */
  lemma MunmapCorrect(s: State, k: Key, t: State)
    requires Inv(s) && OneToOne(s) && k in s.regions && t == Munmap(s, k).0
    ensures Inv(t) && OneToOne(t)
    ensures Abstract(t) == SpecStep(Abstract(s), DoMunmap(k.pid, k.vpage), true)
  {
    hide Inv, OneToOne, Abstract, SpecStep;
    var u := ExitPage(s, k);
    ExitPageInv(s, k, u);
    ForgetRegion(u, k, t);
    FewerOneToOne(s, t);
    MunmapAbstract(s, k, u, t);
  }

  lemma MunmapAbstract(s: State, k: Key, u: State, t: State)
    requires u.pages == s.pages - {k} && u.procs == s.procs && u.regions == s.regions && u.managed == s.managed && u.mem == s.mem
    requires t == u.(regions := u.regions - {k})
    ensures Abstract(t) == SpecStep(Abstract(s), DoMunmap(k.pid, k.vpage), true)
  {
    var a := SpecStep(Abstract(s), DoMunmap(k.pid, k.vpage), true);
    assert k == Key(k.pid, k.vpage);
    forall x | x in t.pages ensures Private(t, x) == Private(s, x) && View(t, x) == View(s, x) { }
    hide View, Private;
    AbstractIs(t, a);
  }

  /**
   The teardown of one page of a range. Its frame is released below an anonymous private region only: the pages
   of `filed` belong to file-backed regions, and those of no region are just unmapped.
   */
  function Unmap(s: State, k: Key, filed: set<Key>): State {
    if k in s.regions && k !in filed then Munmap(s, k).0
    else s.(pages := s.pages - {k}, regions := s.regions - {k})
  }

  /** munmap of the pages from v up to n of process p, one after the other. */
  function MunmapFrom(s: State, p: Pid, v: int, n: int, filed: set<Key>): State
    decreases n - v
  {
    if v >= n then s else MunmapFrom(Unmap(s, Key(p, v), filed), p, v + 1, n, filed)
  }

  /** A counted page that munmap drops without releasing its frame. */
  ghost predicate Orphaned(s: State, k: Key, filed: set<Key>) {
    Private(s, k) && (k !in s.regions || k in filed)
  }

  predicate Within(k: Key, p: Pid, v: int, n: int) { k.pid == p && v <= k.vpage < n }

  function Outside<T>(m: map<Key, T>, p: Pid, v: int, n: int): map<Key, T> {
    map k | k in m && !Within(k, p, v, n) :: m[k]
  }

  function Forget(a: SpecState, p: Pid, v: int, n: int): SpecState {
    SpecState(a.procs, Outside(a.regions, p, v, n), Outside(a.pages, p, v, n), Outside(a.foreign, p, v, n))
  }

  lemma OutsideStep<T>(m: map<Key, T>, p: Pid, v: int, n: int)
    requires v < n
    ensures Outside(m - {Key(p, v)}, p, v + 1, n) == Outside(m, p, v, n)
  {
    assert forall k: Key :: k == Key(p, v) <==> k.pid == p && k.vpage == v;
  }

  lemma OutsideNothing<T>(m: map<Key, T>, p: Pid, v: int, n: int)
    requires v >= n
    ensures Outside(m, p, v, n) == m
  {
  }

  lemma UnmapAbstract(s: State, k: Key, filed: set<Key>)
    ensures Abstract(Unmap(s, k, filed)) == SpecStep(Abstract(s), DoMunmap(k.pid, k.vpage), true)
  {
    var t := Unmap(s, k, filed);
    MunmapAbstract(s, k, t.(regions := s.regions), t);
  }

  /** munmap of a range forgets every page and region of the range and nothing else. */
  lemma {:induction false} MunmapRangeForgets(s: State, p: Pid, v: int, n: int, filed: set<Key>, t: State)
    requires t == MunmapFrom(s, p, v, n, filed)
    ensures Abstract(t) == Forget(Abstract(s), p, v, n)
    decreases n - v
  {
    hide Outside, Abstract, Unmap;
    var a := Abstract(s);
    if v < n {
      UnmapAbstract(s, Key(p, v), filed);
      MunmapRangeForgets(Unmap(s, Key(p, v), filed), p, v + 1, n, filed, t);
      OutsideStep(a.regions, p, v, n);
      OutsideStep(a.pages, p, v, n);
      OutsideStep(a.foreign, p, v, n);
    } else {
      OutsideNothing(a.regions, p, v, n);
      OutsideNothing(a.pages, p, v, n);
      OutsideNothing(a.foreign, p, v, n);
    }
  }

  /** Dropping a page that is not counted affects no other entry and no count. */
  lemma DropForeign(s: State, k: Key, t: State)
    requires Inv(s) && OneToOne(s) && !Private(s, k) && t == s.(pages := s.pages - {k}, regions := s.regions - {k})
    ensures Inv(t) && OneToOne(t)
  {
    forall x | x in t.pages ensures EntryOk(t, x) && Private(t, x) == Private(s, x) { assert EntryOk(s, x); }
    forall f | f in s.managed ensures FrameOk(t, f) {
      assert FrameOk(s, f);
      assert Users(t, f) == Users(s, f);
    }
    FewerOneToOne(s, t);
  }

  lemma UnmapShape(s: State, k: Key, filed: set<Key>, t: State)
    requires t == Unmap(s, k, filed)
    ensures t.pages == s.pages - {k} && t.managed == s.managed && t.pinned == s.pinned
    ensures forall x :: x != k ==> (Private(t, x) <==> Private(s, x)) && (Orphaned(t, x, filed) <==> Orphaned(s, x, filed))
  {
  }

  lemma {:induction false} MunmapRangeInv(s: State, p: Pid, v: int, n: int, filed: set<Key>, t: State)
    requires Inv(s) && OneToOne(s) && t == MunmapFrom(s, p, v, n, filed)
    requires forall k :: Within(k, p, v, n) ==> !Orphaned(s, k, filed)
    ensures Inv(t) && OneToOne(t)
    decreases n - v
  {
    hide Inv, OneToOne, Munmap, Private;
    if v < n {
      var k := Key(p, v);
      var u := Unmap(s, k, filed);
      assert Within(k, p, v, n);
      if k in s.regions && k !in filed { MunmapCorrect(s, k, u); } else { DropForeign(s, k, u); }
      UnmapShape(s, k, filed, u);
      hide Unmap, Orphaned;
      forall x | Within(x, p, v + 1, n) ensures !Orphaned(u, x, filed) { assert Within(x, p, v, n); }
      MunmapRangeInv(u, p, v + 1, n, filed, t);
    }
  }

  /** The frame of an orphaned page keeps its count, for its process maps it nowhere else, and loses a user. */
  lemma {:induction false} OrphanCount(s: State, p: Pid, v: int, n: int, filed: set<Key>, o: Key, f: Frame, t: State)
    requires t == MunmapFrom(s, p, v, n, filed)
    requires forall k :: Within(k, p, v, n) && Private(s, k) && s.pages[k].frame == f ==> k == o
    requires Private(s, o) ==> Orphaned(s, o, filed)
    ensures RefCount(t, f) == RefCount(s, f) && t.managed == s.managed && t.pinned == s.pinned
    ensures forall k :: k in t.pages ==> k in s.pages && t.pages[k] == s.pages[k] && !Within(k, p, v, n)
    ensures forall k :: k in t.pages ==> (Private(t, k) <==> Private(s, k))
    decreases n - v
  {
    if v < n {
      var u := Unmap(s, Key(p, v), filed);
      UnmapShape(s, Key(p, v), filed, u);
      assert Within(Key(p, v), p, v, n);
      assert RefCount(u, f) == RefCount(s, f);
      hide Unmap, Private, Orphaned, RefCount;
      forall k | Within(k, p, v + 1, n) && Private(u, k) && u.pages[k].frame == f ensures k == o { assert Within(k, p, v, n); }
      OrphanCount(u, p, v + 1, n, filed, o, f, t);
      assert forall k: Key :: k == Key(p, v) <==> k.pid == p && k.vpage == v;
    }
  }

  lemma OrphanLeaks(s: State, p: Pid, v: int, n: int, filed: set<Key>, o: Key, t: State)
    requires Inv(s) && OneToOne(s) && t == MunmapFrom(s, p, v, n, filed) && Within(o, p, v, n) && Orphaned(s, o, filed)
    ensures !Inv(t)
  {
    var f := s.pages[o].frame;
    assert forall k :: Within(k, p, v, n) && Private(s, k) && s.pages[k].frame == f ==> k == o by { hide Inv; }
    OrphanCount(s, p, v, n, filed, o, f, t);
    assert FrameOk(s, f) && o in Users(s, f);
    assert Users(t, f) <= Users(s, f) - {o};
    FewerUsers(Users(t, f), Users(s, f) - {o});
    assert !FrameOk(t, f);
  }

  /** One process with one page that no region covers. */
  function Uncovered(): State {
    State({1}, map[], map[Key(1, 0) := Mapping(5, true, false, false)], map[], map[5 := 1], {}, {5}, {})
  }

  /** Its munmap leaves a frame that nothing maps and that is not free. */
  lemma UncoveredLeaks()
    ensures Inv(Uncovered()) && OneToOne(Uncovered())
    ensures var t := MunmapFrom(Uncovered(), 1, 0, 1, {}); t.pages == map[] && 5 !in t.free && RefCount(t, 5) == 1 && !Inv(t)
  {
    var s := Uncovered();
    assert Users(s, 5) == {Key(1, 0)};
    assert Within(Key(1, 0), 1, 0, 1);
    OrphanLeaks(s, 1, 0, 1, {}, Key(1, 0), MunmapFrom(s, 1, 0, 1, {}));
  }

  lemma {:induction false} FewerUsers(a: set<Key>, b: set<Key>)
    requires a <= b
    ensures |a| <= |b|
  {
    if k :| k in a { FewerUsers(a - {k}, b - {k}); }
  }

  /**
   munmap of a range forgets every page of it, covered by a region or not, and keeps the counts exact if and only
   if no counted page of the range lies in a file-backed region or in none: the frames of those are never released.
   */
  lemma MunmapRangeCorrect(s: State, p: Pid, v: int, n: int, filed: set<Key>, t: State)
    requires Inv(s) && OneToOne(s) && t == MunmapFrom(s, p, v, n, filed)
    ensures Abstract(t) == Forget(Abstract(s), p, v, n)
    ensures Inv(t) && OneToOne(t) <==> forall k :: Within(k, p, v, n) ==> !Orphaned(s, k, filed)
  {
    hide Inv, OneToOne, Abstract, Forget, Orphaned, MunmapFrom;
    MunmapRangeForgets(s, p, v, n, filed, t);
    if o :| Within(o, p, v, n) && Orphaned(s, o, filed) {
      OrphanLeaks(s, p, v, n, filed, o, t);
    } else {
      MunmapRangeInv(s, p, v, n, filed, t);
    }
  }

  // ---------------------------------------------------------------- faults

  /** A fresh frame is visible to nobody, so filling it changes no existing page. */
  /** No page of any kind maps a free frame. */
  lemma FreshUnmapped(s: State, f: Frame, k: Key)
    requires Typed(s) && f in s.free && FrameOk(s, f) && k in s.pages && EntryOk(s, k)
    ensures s.pages[k].frame != f
  {
    if Private(s, k) { FreshUnseen(s, f, k); }
  }

  lemma FreshUnseen(s: State, f: Frame, k: Key)
    requires Typed(s) && f in s.free && FrameOk(s, f) && Private(s, k)
    ensures s.pages[k].frame != f
  {
    assert k !in Users(s, f);
  }

  lemma CopyUsers(s: State, k: Key, f: Frame, t: State, h: Frame)
    requires Private(s, k) && s.pages[k].cow && RefCount(s, s.pages[k].frame) > 1 && f in s.free && f in s.managed
    requires t == CowFault(s, k, Full(f)).0
    ensures Users(t, h) == Users(s, h) - {k} + (if h == f then {k} else {})
    ensures k in Users(s, h) <==> h == s.pages[k].frame
  {
  }

  lemma CopyCount(s: State, k: Key, f: Frame, t: State, h: Frame)
    requires Typed(s) && Private(s, k) && s.pages[k].cow && RefCount(s, s.pages[k].frame) > 1 && f in s.free
    requires t == CowFault(s, k, Full(f)).0 && s.pages[k].frame != f
    ensures t.pinned == s.pinned && (h in t.free <==> h in s.free && h != f)
    ensures RefCount(t, h) == if h == f then 1 else if h == s.pages[k].frame then RefCount(s, h) - 1 else RefCount(s, h)
  {
  }

  lemma CopyFrame(s: State, k: Key, f: Frame, t: State, h: Frame)
    requires Typed(s) && Private(s, k) && s.pages[k].cow && RefCount(s, s.pages[k].frame) > 1 && f in s.free
    requires t == CowFault(s, k, Full(f)).0
    requires h in s.managed && FrameOk(s, h) && FrameOk(s, f) && s.pages[k].frame !in s.pinned
    ensures FrameOk(t, h)
  {
    CopyUsers(s, k, f, t, h);
    assert s.pages[k].frame != f by { assert k in Users(s, s.pages[k].frame); }
    CopyCount(s, k, f, t, h);
    hide Users, CowFault, RefCount, Private;
  }

  lemma CopyEntry(s: State, k: Key, f: Frame, t: State, x: Key)
    requires Typed(s) && Private(s, k) && s.pages[k].cow && RefCount(s, s.pages[k].frame) > 1 && f in s.free
    requires t == CowFault(s, k, Full(f)).0 && x in t.pages
    requires EntryOk(s, k) && EntryOk(s, x) && FrameOk(s, f) && FrameOk(s, s.pages[k].frame) && s.pages[k].frame !in s.pinned
    ensures EntryOk(t, x)
    ensures SameView(s, t, x)
  {
    if Private(s, x) { FreshUnseen(s, f, x); }
  }

  lemma CopyOneToOne(s: State, k: Key, f: Frame, t: State)
    requires OneToOne(s) && Typed(s) && FrameOk(s, f)
    requires Private(s, k) && s.pages[k].cow && RefCount(s, s.pages[k].frame) > 1 && f in s.free
    requires t == CowFault(s, k, Full(f)).0
    ensures OneToOne(t)
  {
    forall x, y | Private(t, x) && Private(t, y) && x.pid == y.pid && t.pages[x].frame == t.pages[y].frame
      ensures x == y
    {
      if x != k { FreshUnseen(s, f, x); }
      if y != k { FreshUnseen(s, f, y); }
    }
  }

  lemma CopyInv(s: State, k: Key, f: Frame, t: State)
    requires Inv(s) && OneToOne(s)
    requires Private(s, k) && s.pages[k].cow && RefCount(s, s.pages[k].frame) > 1 && f in s.free
    requires t == CowFault(s, k, Full(f)).0
    ensures Inv(t) && OneToOne(t)
    ensures forall x :: SameView(s, t, x)
  {
    NotPinned(s, k);
    assert FrameOk(s, f);
    forall h | h in s.managed ensures FrameOk(t, h) { CopyFrame(s, k, f, t, h); }
    forall x | x in t.pages ensures EntryOk(t, x) && SameView(s, t, x) { CopyEntry(s, k, f, t, x); }
    CopyOneToOne(s, k, f, t);
  }

  /** Two states whose entries differ in nothing but their permission bits. */
  ghost predicate SameFrames(s: State, t: State) {
    && s.procs == t.procs && s.regions == t.regions && s.managed == t.managed
    && s.refs == t.refs && s.free == t.free && s.pinned == t.pinned
    && (forall k :: k in s.pages <==> k in t.pages)
    && (forall k :: k in s.pages ==> s.pages[k].frame == t.pages[k].frame)
  }

  lemma PermissionsOnly(s: State, t: State)
    requires SameFrames(s, t)
    ensures OneToOne(s) ==> OneToOne(t)
    ensures Typed(s) && FramesOk(s) ==> Typed(t) && FramesOk(t)
  {
    assert forall k :: Private(t, k) <==> Private(s, k);
    forall f | f in s.managed && FrameOk(s, f) ensures FrameOk(t, f) {
      assert Users(t, f) == Users(s, f);
    }
  }

  lemma PromoteEntry(s: State, k: Key, t: State, x: Key)
    requires Private(s, k) && s.pages[k].cow && RefCount(s, s.pages[k].frame) == 1 && x in s.pages && EntryOk(s, x)
    requires t == s.(pages := s.pages[k := s.pages[k].(rw := true, cow := false)])
    ensures EntryOk(t, x) && SameView(s, t, x)
  {
  }

  lemma PromoteInv(s: State, k: Key, t: State)
    requires Inv(s) && OneToOne(s) && Private(s, k) && s.pages[k].cow && RefCount(s, s.pages[k].frame) <= 1
    requires t == s.(pages := s.pages[k := s.pages[k].(rw := true, cow := false)])
    ensures Inv(t) && OneToOne(t)
    ensures forall x :: SameView(s, t, x)
  {
    assert RefCount(s, s.pages[k].frame) == 1 by { NotPinned(s, k); }
    PermissionsOnly(s, t);
    forall x ensures SameView(s, t, x) && (x in t.pages ==> EntryOk(t, x)) {
      if x in s.pages { PromoteEntry(s, k, t, x); }
    }
  }

  lemma SameAbstract(s: State, t: State)
    requires s.procs == t.procs && s.regions == t.regions && forall k :: SameView(s, t, k)
    ensures Abstract(s) == Abstract(t)
  {
    forall k
      ensures k in Abstract(s).pages <==> Private(t, k)
      ensures k in Abstract(s).pages ==> k in t.pages && Abstract(s).pages[k] == View(t, k)
      ensures k in Abstract(s).foreign <==> k in t.pages && !Private(t, k)
      ensures k in Abstract(s).foreign ==> k in t.pages && Abstract(s).foreign[k] == Foreign(t.pages[k].frame, View(t, k))
    {
      assert SameView(s, t, k);
    }
    AbstractIs(t, Abstract(s));
  }

  /** The copy-on-write fault is invisible: nobody's pages change, and on success the entry is writable. */
  lemma CowFaultCorrect(s: State, k: Key, grant: Grant, t: State, ok: bool)
    requires Inv(s) && OneToOne(s) && k in s.pages && (t, ok) == CowFault(s, k, grant)
    ensures Inv(t) && OneToOne(t) && t.procs == s.procs
    ensures Abstract(t) == Abstract(s)
    ensures ok ==> k in t.pages && t.pages[k].rw
  {
    assert EntryOk(s, k);
    if ok {
      assert Private(s, k);
      if RefCount(s, s.pages[k].frame) > 1 {
        CopyInv(s, k, grant.value, t);
      } else {
        PromoteInv(s, k, t);
      }
      SameAbstract(s, t);
    }
  }

  // ---------------------------------------------------------------- demand paging

  lemma InstallFrame(s: State, k: Key, m: Mapping, data: Page, t: State, h: Frame)
    requires Typed(s) && k !in s.pages && m.frame in s.free && t == Install(s, k, m, data, IsShared(s, k))
    requires h in s.managed && FrameOk(s, h) && FrameOk(s, m.frame)
    ensures FrameOk(t, h)
  {
    assert Users(t, h) == Users(s, h) + (if h == m.frame && !IsShared(s, k) then {k} else {});
    assert k !in Users(s, h);
  }

  lemma InstallEntry(s: State, k: Key, m: Mapping, data: Page, t: State, x: Key)
    requires Typed(s) && k !in s.pages && m.frame in s.free && t == Install(s, k, m, data, IsShared(s, k))
    requires k.pid in s.procs && 0 <= k.vpage < USER_PAGES && FrameOk(s, m.frame) && (IsShared(s, k) ==> !m.cow)
    requires x in t.pages && (x != k ==> EntryOk(s, x))
    ensures EntryOk(t, x)
    ensures x != k ==> SameView(s, t, x)
  {
    if x != k && Private(s, x) { FreshUnseen(s, m.frame, x); }
  }

  lemma InstallOneToOne(s: State, k: Key, m: Mapping, data: Page, t: State)
    requires Typed(s) && OneToOne(s) && FrameOk(s, m.frame)
    requires k !in s.pages && m.frame in s.free && t == Install(s, k, m, data, IsShared(s, k))
    ensures OneToOne(t)
  {
    forall x, y | Private(t, x) && Private(t, y) && x.pid == y.pid && t.pages[x].frame == t.pages[y].frame
      ensures x == y
    {
      if x != k { FreshUnseen(s, m.frame, x); }
      if y != k { FreshUnseen(s, m.frame, y); }
    }
  }

  /** Backing a new page with a free frame keeps the invariant and every other page. */
  lemma InstallInv(s: State, k: Key, m: Mapping, data: Page, t: State)
    requires Inv(s) && OneToOne(s) && k !in s.pages && m.frame in s.free
    requires t == Install(s, k, m, data, IsShared(s, k)) && (IsShared(s, k) ==> !m.cow)
    requires k.pid in s.procs && 0 <= k.vpage < USER_PAGES
    ensures Inv(t) && OneToOne(t)
    ensures forall x :: x != k ==> SameView(s, t, x)
  {
    assert FrameOk(s, m.frame);
    forall h | h in s.managed ensures FrameOk(t, h) { InstallFrame(s, k, m, data, t, h); }
    forall x | x in t.pages ensures EntryOk(t, x) && (x != k ==> SameView(s, t, x)) { InstallEntry(s, k, m, data, t, x); }
    InstallOneToOne(s, k, m, data, t);
  }

  /** A frame taken and given back at once was free and is free again; only its own contents may have changed. */
  lemma ReturnedFrame(s: State, f: Frame, t: State)
    requires Inv(s) && OneToOne(s) && f in s.free && t == Decref(Take(s, f, ZeroPage()), f)
    ensures Inv(t) && OneToOne(t) && t == s.(mem := t.mem) && Abstract(t) == Abstract(s)
  {
    assert FrameOk(s, f);
    assert t.refs == s.refs && t.free == s.free;
    PermissionsOnly(s, t);
    SameEntries(s, t);
    forall x | x in s.pages ensures View(t, x) == View(s, x) {
      assert EntryOk(s, x);
      FreshUnmapped(s, f, x);
    }
    AbstractIs(t, Abstract(s));
  }

  /** Demand paging adds one zero page to the faulting process and changes nothing else. */
  lemma DemandCorrect(s: State, k: Key, write: bool, grant: Grant, t: State, ok: bool)
    requires Inv(s) && OneToOne(s) && k !in s.pages && (t, ok) == DemandFault(s, k, write, grant)
    ensures Inv(t) && OneToOne(t) && t.procs == s.procs
    ensures Abstract(t) == if ok then SpecTouch(Abstract(s), k, grant) else Abstract(s)
    ensures ok ==> k in t.pages && (write ==> t.pages[k].rw)
    ensures !ok ==> t == s.(mem := t.mem)
  {
    if !ok && t != s { ReturnedFrame(s, grant.value, t); }
    if ok {
      InstallInv(s, k, t.pages[k], ZeroPage(), t);
      var a := SpecTouch(Abstract(s), k, grant);
      forall x
        ensures x in a.pages <==> Private(t, x)
        ensures x in a.pages ==> x in t.pages && a.pages[x] == View(t, x)
        ensures x in a.foreign <==> x in t.pages && !Private(t, x)
        ensures x in a.foreign ==> x in t.pages && a.foreign[x] == Foreign(t.pages[x].frame, View(t, x))
      {
        if x != k { assert SameView(s, t, x); }
      }
      AbstractIs(t, a);
    }
  }

  // ---------------------------------------------------------------- stores

  /** Only pages outside private memory share the frame of another page that is written to. */
  lemma PokeShares(s: State, k: Key, x: Key)
    requires Typed(s) && FramesOk(s) && k in s.pages && s.pages[k].rw && EntryOk(s, k) && x in s.pages && EntryOk(s, x)
    requires s.pages[x].frame == s.pages[k].frame
    ensures x == k || (!Private(s, x) && !Private(s, k))
  {
    if Private(s, x) { NotPinned(s, x); }
    if Private(s, k) { NotPinned(s, k); }
    if Private(s, k) && Private(s, x) { SoleUser(s, s.pages[k].frame, k, x); }
  }

  lemma PokeAt(s: State, k: Key, off: nat, b: Byte, t: State, x: Key)
    requires k in s.pages && off < PAGE_SIZE && t == Poke(s, s.pages[k].frame, off, b) && x in s.pages
    ensures View(t, x) == if s.pages[x].frame == s.pages[k].frame then SpecPoke(View(s, x), off, b) else View(s, x)
  {
  }

  lemma PokeCorrect(s: State, k: Key, off: nat, b: Byte, t: State)
    requires Inv(s) && OneToOne(s) && k in s.pages && s.pages[k].rw && off < PAGE_SIZE
    requires t == Poke(s, s.pages[k].frame, off, b)
    ensures Inv(t) && OneToOne(t)
    ensures forall g :: Abstract(t) == SpecStore(Abstract(s), k, off, b, g)
  {
    PermissionsOnly(s, t);
    SameEntries(s, t);
    forall g ensures Abstract(t) == SpecStore(Abstract(s), k, off, b, g) { PokeAbstract(s, k, off, b, t, g); }
  }

  lemma SameEntries(s: State, t: State)
    requires EntriesOk(s) && t == s.(mem := t.mem)
    ensures EntriesOk(t)
  {
    forall x | x in t.pages ensures EntryOk(t, x) { assert EntryOk(s, x); }
  }

  lemma PokeAbstract(s: State, k: Key, off: nat, b: Byte, t: State, g: Grant)
    requires Inv(s) && k in s.pages && s.pages[k].rw && off < PAGE_SIZE && t == Poke(s, s.pages[k].frame, off, b)
    ensures Abstract(t) == SpecStore(Abstract(s), k, off, b, g)
  {
    hide SpecPoke, View;
    var a := SpecStore(Abstract(s), k, off, b, g);
    assert EntryOk(s, k);
    forall x
      ensures x in a.pages ==> x in t.pages && a.pages[x] == View(t, x)
      ensures x in a.foreign ==> x in t.pages && a.foreign[x] == Foreign(t.pages[x].frame, View(t, x))
    {
      if x in s.pages {
        assert EntryOk(s, x);
        PokeAt(s, k, off, b, t, x);
        if s.pages[x].frame == s.pages[k].frame { PokeShares(s, k, x); }
      }
    }
    AbstractIs(t, a);
  }

  /** A store to a page that was touched first is the store. */
  lemma TouchedTwice(a: SpecState, k: Key, off: nat, b: Byte, g: Grant)
    requires off < PAGE_SIZE
    ensures SpecStore(SpecTouch(a, k, g), k, off, b, g) == SpecStore(a, k, off, b, g)
  {
    hide SpecPoke, SpecWrite;
  }

  /** A store that takes effect changes one byte of the storing process's own page. */
  lemma StoreCorrect(s: State, k: Key, off: nat, b: Byte, grant: Grant, t: State, ok: bool)
    requires Inv(s) && OneToOne(s) && off < PAGE_SIZE && (t, ok) == Store(s, k, off, b, grant)
    ensures Inv(t) && OneToOne(t) && t.procs == s.procs
    ensures Abstract(t) == if ok then SpecStore(Abstract(s), k, off, b, grant) else Abstract(s)
  {
    hide Inv, OneToOne, Abstract, SpecStore, SpecTouch, CowFault, DemandFault;
    TouchedTwice(Abstract(s), k, off, b, grant);
    if k in s.pages && s.pages[k].rw {
      PokeCorrect(s, k, off, b, t);
    } else {
      var (u, granted) := PageFault(s, k, true, grant);
      if k in s.pages {
        CowFaultCorrect(s, k, grant, u, granted);
      } else {
        DemandCorrect(s, k, true, grant, u, granted);
      }
      if granted {
        PokeCorrect(u, k, off, b, t);
      }
    }
  }

  // ---------------------------------------------------------------- every run

  lemma MmapCorrect(s: State, k: Key, r: Region, t: State)
    requires Inv(s) && OneToOne(s) && k.pid in s.procs && (t, true) == Mmap(s, k, r)
    ensures Inv(t) && OneToOne(t)
    ensures Abstract(t) == SpecStep(Abstract(s), DoMmap(k.pid, k.vpage, r), true)
  {
    forall x | x in s.pages ensures EntryOk(t, x) && SameView(s, t, x) { assert EntryOk(s, x); }
    forall f | f in s.managed ensures FrameOk(t, f) {
      assert FrameOk(s, f);
      assert Users(t, f) == Users(s, f);
    }
    FewerOneToOne(s, t);
    assert k == Key(k.pid, k.vpage);
    AbstractIs(t, SpecStep(Abstract(s), DoMmap(k.pid, k.vpage, r), true));
  }

  lemma StepCorrect(s: State, e: Event, t: State, ok: bool)
    requires Inv(s) && OneToOne(s) && (t, ok) == Step(s, e) && |t.procs| < REF_MODULUS
    ensures Inv(t) && OneToOne(t)
    ensures Abstract(t) == SpecStep(Abstract(s), e, ok)
  {
    if e.p in s.procs {
      match e {
        case DoFork(p, c) =>
          if c !in s.procs { ForkStep(s, p, c, t); }
        case DoStore(p, v, off, b, g) =>
          if off < PAGE_SIZE { StoreCorrect(s, Key(p, v), off, b, g, t, ok); }
        case DoTouch(p, v, g) =>
          if Key(p, v) !in s.pages { DemandCorrect(s, Key(p, v), false, g, t, ok); }
        case DoMmap(p, v, r) =>
          if ok { MmapCorrect(s, Key(p, v), r, t); }
        case DoMunmap(p, v) =>
          if ok { MunmapCorrect(s, Key(p, v), t); }
        case DoExit(p) => ExitCorrect(s, p);
      }
    }
  }

  /** The run never has 65536 processes alive at once. */
  ghost predicate Bounded(s: State, es: seq<Event>) {
    forall i :: 0 <= i <= |es| ==> |Run(s, es[..i]).procs| < REF_MODULUS
  }

  /**
   Copy-on-write refines eager copying: over every run of forks, faults, stores, mappings and
   exits, each process holds in each private page what it would hold had fork copied every page.
   */
  lemma {:induction false} RunRefinesEager(s: State, es: seq<Event>)
    requires Inv(s) && OneToOne(s) && Bounded(s, es)
    ensures Inv(Run(s, es)) && OneToOne(Run(s, es))
    ensures Abstract(Run(s, es)) == SpecRun(Abstract(s), es, Outcomes(s, es))
  {
    if es != [] {
      var es' := es[..|es| - 1];
      forall i | 0 <= i <= |es'| ensures |Run(s, es'[..i]).procs| < REF_MODULUS { assert es'[..i] == es[..i]; }
      RunRefinesEager(s, es');
      assert es[..|es|] == es;
      StepCorrect(Run(s, es'), es[|es| - 1], Run(s, es), Step(Run(s, es'), es[|es| - 1]).1);
      assert Outcomes(s, es)[..|es| - 1] == Outcomes(s, es');
    }
  }

  // ---------------------------------------------------------------- when events take effect

  /** What the eager machine lets a process write. */
  ghost predicate SpecMayStore(a: SpecState, k: Key) {
    if k in a.pages then a.pages[k].writable
    else if k in a.foreign then a.foreign[k].page.writable
    else k in a.regions && a.regions[k].write
  }

  ghost predicate SpecMayTouch(a: SpecState, k: Key) {
    k in a.pages || k in a.foreign || (k in a.regions && (a.regions[k].read || a.regions[k].write || a.regions[k].exec))
  }

  /** Whether an event takes effect on the eager machine, which never runs out of memory. */
  ghost predicate SpecAllows(a: SpecState, e: Event) {
    e.p in a.procs && match e
      case DoFork(_, c) => c !in a.procs
      case DoStore(p, v, off, _, _) => off < PAGE_SIZE && SpecMayStore(a, Key(p, v))
      case DoTouch(p, v, _) => SpecMayTouch(a, Key(p, v))
      case DoMmap(p, v, _) => 0 <= v < USER_PAGES && Key(p, v) !in a.regions && Key(p, v) !in a.pages && Key(p, v) !in a.foreign
      case DoMunmap(p, v) => Key(p, v) in a.regions
      case DoExit(_) => true
  }

  /** A store must copy the page first: it is write-protected for copy-on-write and its frame has other users. */
  predicate Copies(s: State, k: Key) {
    && k in s.pages && !s.pages[k].rw && s.pages[k].cow
    && (if s.pages[k].frame in s.managed then RefCount(s, s.pages[k].frame) else 1) > 1
  }

  /** An access brings the page in: it is not there, and its region allows the access. */
  predicate Demands(s: State, k: Key, write: bool) {
    k !in s.pages && k in s.regions &&
    var r := s.regions[k];
    (r.read || r.write || r.exec) && (write ==> r.write)
  }

  /** The frames an access takes, if it takes any, are there to be had. */
  predicate SuppliedAt(s: State, k: Key, write: bool, g: Grant) {
    && (write && Copies(s, k) ==> Granted(s, g))
    && (Demands(s, k, write) ==> g.Full? && Granted(s, g))
  }

  predicate Supplied(s: State, e: Event) {
    && (e.DoStore? ==> SuppliedAt(s, Key(e.p, e.v), true, e.grant))
    && (e.DoTouch? ==> SuppliedAt(s, Key(e.p, e.v), false, e.grant))
  }

  /** A store takes effect exactly when the eager machine allows it and the frame it takes, if any, can be had. */
  lemma StoreSucceeds(s: State, k: Key, off: nat, b: Byte, grant: Grant)
    requires Inv(s) && off < PAGE_SIZE
    ensures Store(s, k, off, b, grant).1 <==> SpecMayStore(Abstract(s), k) && SuppliedAt(s, k, true, grant)
  {
    if k in s.pages { assert EntryOk(s, k); }
  }

  /**
   A fault is handled exactly when the frame it takes, if any, can be had and, on an absent page, the eager machine allows
   the access, or, on a page without write access, it is a write to a copy-on-write page.
   */
  lemma FaultHandledIff(s: State, k: Key, write: bool, grant: Grant)
    ensures k !in s.pages ==>
      (PageFault(s, k, write, grant).1 <==>
        SuppliedAt(s, k, write, grant) && if write then SpecMayStore(Abstract(s), k) else SpecMayTouch(Abstract(s), k))
    ensures k in s.pages && !s.pages[k].rw ==>
      (PageFault(s, k, write, grant).1 <==> SuppliedAt(s, k, write, grant) && write && s.pages[k].cow)
  {
  }

  /** An event takes effect exactly when the eager machine allows it and the frame it takes, if any, can be had. */
  lemma StepSucceeds(s: State, e: Event)
    requires Inv(s)
    ensures Step(s, e).1 <==> SpecAllows(Abstract(s), e) && Supplied(s, e)
  {
    hide Store, Fork, Exit, Munmap, SpecMayStore;
    if e.DoStore? && e.off < PAGE_SIZE { StoreSucceeds(s, Key(e.p, e.v), e.off, e.b, e.grant); }
    if e.DoMunmap? { MunmapSucceeds(s, Key(e.p, e.v)); }
  }

  lemma MunmapSucceeds(s: State, k: Key)
    ensures Munmap(s, k).1 <==> k in s.regions
  {
  }

  /** The eager machine by itself: every event it allows takes effect. */
  ghost function Eager(a: SpecState, es: seq<Event>): SpecState {
    if es == [] then a
    else
      var b := Eager(a, es[..|es| - 1]);
      SpecStep(b, es[|es| - 1], SpecAllows(b, es[|es| - 1]))
  }

  /** Every event of the run finds the frame it asks for. */
  ghost predicate AllSupplied(s: State, es: seq<Event>) {
    forall i :: 0 <= i < |es| ==> Supplied(Run(s, es[..i]), es[i])
  }

  /**
   With memory to be had, the two machines cannot be told apart: over every run each process sees the contents it
   would see had fork copied every page, and each event succeeds exactly when it would have succeeded there.
   */
  lemma {:induction false} RunIsEager(s: State, es: seq<Event>)
    requires Inv(s) && OneToOne(s) && Bounded(s, es) && AllSupplied(s, es)
    ensures Abstract(Run(s, es)) == Eager(Abstract(s), es)
    ensures forall i :: 0 <= i < |es| ==> (Outcomes(s, es)[i] <==> SpecAllows(Eager(Abstract(s), es[..i]), es[i]))
  {
    hide SpecAllows, SpecStep, Step, Abstract, Inv, OneToOne;
    if es != [] {
      var n := |es| - 1;
      var es' := es[..n];
      assert forall i :: 0 <= i <= n ==> es'[..i] == es[..i];
      RunIsEager(s, es');
      RunRefinesEager(s, es');
      assert Supplied(Run(s, es[..n]), es[n]);
      StepSucceeds(Run(s, es'), es[n]);
      RunRefinesEager(s, es);
      assert Outcomes(s, es)[..n] == Outcomes(s, es');
      EagerAlong(s, es);
    }
  }

  /** One more step of the run on the eager machine, as it is told the outcome. */
  lemma EagerAlong(s: State, es: seq<Event>)
    requires es != []
    ensures SpecRun(Abstract(s), es, Outcomes(s, es))
      == var n := |es| - 1; SpecStep(SpecRun(Abstract(s), es[..n], Outcomes(s, es[..n])), es[n], Outcomes(s, es)[n])
  {
    hide SpecStep, Step, Abstract;
    assert Outcomes(s, es)[..|es| - 1] == Outcomes(s, es[..|es| - 1]);
  }

  /** The machine before the first process maps anything. */
  ghost predicate Boot(s: State) {
    && s.regions == map[] && s.pages == map[] && s.pinned == {} && 0 !in s.managed
    && s.free == s.managed && s.refs.Keys == s.managed && (forall f :: f in s.refs ==> s.refs[f] == 0)
  }

  /** What holds of the counts in every reachable state. */
  lemma CountsExact(s: State, es: seq<Event>, f: Frame)
    requires Boot(s) && Bounded(s, es)
    ensures var t := Run(s, es);
      f in t.managed && f !in t.pinned ==>
        && RefCount(t, f) == |Users(t, f)|
        && (f in t.free <==> Users(t, f) == {})
        && (forall k :: k in Users(t, f) && t.pages[k].rw ==> RefCount(t, f) == 1)
  {
    BootInv(s);
    RunRefinesEager(s, es);
    var t := Run(s, es);
    if f in t.managed { assert FrameOk(t, f); }
    forall k | k in Users(t, f) && t.pages[k].rw ensures RefCount(t, f) == 1 { assert EntryOk(t, k); }
  }

  lemma BootInv(s: State)
    requires Boot(s)
    ensures Inv(s) && OneToOne(s)
  {
    forall f | f in s.managed ensures FrameOk(s, f) { assert Users(s, f) == {}; }
  }

  // ---------------------------------------------------------------- where isolation would fail

  /** A writable entry over a frame that another entry maps lets one process write another's page. */
  lemma WritableAliasLeaks(s: State, k: Key, l: Key, off: nat, b: Byte)
    requires k in s.pages && l in s.pages && s.pages[k].frame == s.pages[l].frame && s.pages[k].rw && off < PAGE_SIZE
    ensures View(Store(s, k, off, b, Refused).0, l).data == View(s, l).data[off := b]
  {
  }

  /** The 16-bit count stays exact through one more sharer if and only if the sharers number below 65536. */
  lemma CountExactIff(s: State, p: Pid, c: Pid, v: int)
    requires Inv(s) && 0 <= v && Mirror(s, p, c, v) && Private(s, Key(p, v))
    ensures var f, t := s.pages[Key(p, v)].frame, ForkPage(s, p, c, v);
      RefCount(t, f) == |Users(t, f)| <==> |Users(s, f)| + 1 < REF_MODULUS
  {
    var t := ForkPage(s, p, c, v);
    var f := s.pages[Key(p, v)].frame;
    NotPinned(s, Key(p, v));
    assert IsShared(s, Key(c, v)) == IsShared(s, Key(p, v));
    ForkUsers(s, p, c, v, t, f);
    assert |Users(s, f) + {Key(c, v)}| == |Users(s, f)| + 1;
  }

  /** An undercounted copy-on-write frame is written in place, under every other process that maps it. */
  lemma UndercountLeaks(s: State, k: Key, l: Key, off: nat, b: Byte)
    requires k in s.pages && l in s.pages && k != l && s.pages[k].frame == s.pages[l].frame && off < PAGE_SIZE
    requires s.pages[k].cow && !s.pages[k].rw && RefCount(s, s.pages[k].frame) <= 1
    ensures View(Store(s, k, off, b, Refused).0, l).data == View(s, l).data[off := b]
  {
  }

  /** mprotect on a present page: the entry is rebuilt from the new protection alone. */
  function Mprotect(s: State, k: Key, write: bool, exec: bool): State {
    if k !in s.pages then s
    else s.(pages := s.pages[k := Mapping(s.pages[k].frame, write, false, !exec)])
  }

  /** mprotect changes the rights of that page to the ones asked for, and nothing else that any process sees. */
  lemma MprotectShows(s: State, k: Key, write: bool, exec: bool)
    ensures var t := Mprotect(s, k, write, exec);
      && (k in s.pages ==> k in t.pages && View(t, k) == SpecPage(View(s, k).data, write, !exec) && t.pages[k].frame == s.pages[k].frame)
      && forall x :: x != k ==> SameView(s, t, x)
  {
  }

  /** mprotect keeps the sole-owner invariant if and only if it grants no write or the page has one owner. */
  lemma MprotectKeepsInvIff(s: State, k: Key, write: bool, exec: bool)
    requires Inv(s) && Private(s, k)
    ensures Inv(Mprotect(s, k, write, exec)) <==> !write || RefCount(s, s.pages[k].frame) == 1
  {
    var t := Mprotect(s, k, write, exec);
    PermissionsOnly(s, t);
    if write && RefCount(s, s.pages[k].frame) != 1 {
      assert !EntryOk(t, k);
    } else {
      forall x | x in t.pages ensures EntryOk(t, x) { assert EntryOk(s, x); }
    }
  }

  /** Otherwise the caller's next store lands in every sharer's page. */
  lemma MprotectLeaks(s: State, k: Key, l: Key, exec: bool, off: nat, b: Byte)
    requires Inv(s) && Private(s, k) && Private(s, l) && k != l && s.pages[k].frame == s.pages[l].frame && off < PAGE_SIZE
    ensures RefCount(s, s.pages[k].frame) > 1
    ensures View(Store(Mprotect(s, k, true, exec), k, off, b, Refused).0, l).data == View(s, l).data[off := b]
  {
    NotPinned(s, k);
    var us := Users(s, s.pages[k].frame);
    assert l in us - {k} && |us - {k}| == |us| - 1;
    WritableAliasLeaks(Mprotect(s, k, true, exec), k, l, off, b);
  }
}
