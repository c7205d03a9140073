/**
 The virtual memory manager as the kernel runs it: page tables, counts and frames are
 fields updated in place, and fork and teardown are loops over the user half of the
 address space.  The small methods are the steps of `CopyOnWrite`; the operations a process sees keep the
 invariant and show every process what the machine that copies every page would show it.
 */
module VirtualMemory {
  import opened Basics
  import opened Cow = CopyOnWrite
  import opened ForkFailure

  /** What is left of a clone that has reached page v leads to the state `goal`. */
  ghost predicate Remaining(s: State, p: Pid, c: Pid, v: int, goal: State) {
    ForkFrom(s, p, c, v) == goal
  }

  lemma RemainingStep(s: State, p: Pid, c: Pid, v: int, goal: State, t: State)
    requires v < USER_PAGES && Remaining(s, p, c, v, goal) && t == ForkPage(s, p, c, v)
    ensures Remaining(t, p, c, v + 1, goal)
  {
  }

  lemma StripFork(s: State, p: Pid, c: Pid)
    requires Inv(s) && c !in s.procs
    ensures Strip(Spawn(s, p, c), c) == s
  {
    StripSpawn(s, p, c);
  }

  /** Counts, entries and free frames agree, and no process maps a counted frame twice. */
  ghost predicate Consistent(s: State) { Inv(s) && OneToOne(s) }

  class Vmm {
    const managed: set<Frame>
    var procs: set<Pid>
    var regions: map<Key, Region>
    var pages: map<Key, Mapping>
    var mem: map<Frame, Page>
    var refs: map<Frame, int>
    var free: set<Frame>
    var pinned: set<Frame>

    ghost function Snapshot(): State
      reads this
    {
      State(procs, regions, pages, mem, refs, free, managed, pinned)
    }

    /** Powers up with every managed frame free and no process mapping anything. */
    constructor (managed: set<Frame>, procs: set<Pid>)
      requires 0 !in managed
      ensures this.managed == managed && this.procs == procs
      ensures Boot(Snapshot()) && Consistent(Snapshot())
    {
      this.managed := managed;
      this.procs := procs;
      regions, pages, mem, pinned := map[], map[], map[], {};
      refs := map f | f in managed :: 0;
      free := managed;
      new;
      BootInv(Snapshot());
    }

    method Incref(f: Frame)
      modifies `refs
      ensures Snapshot() == Cow.Incref(old(Snapshot()), f)
    {
      if f == 0 || f !in managed { return; }
      var n := if f in refs then refs[f] else 0;
      refs := refs[f := (n + 1) % REF_MODULUS];
    }

    method Decref(f: Frame)
      modifies `refs, `free
      ensures Snapshot() == Cow.Decref(old(Snapshot()), f)
    {
      if f == 0 || f !in managed { return; }
      var n := if f in refs then refs[f] else 0;
      if n > 0 {
        refs := refs[f := n - 1];
        if n - 1 == 0 { free := free + {f}; }
      }
    }

    /** One frame with one reference, filled with `data`; `grant` is the buddy allocator's answer. */
    method AllocPage(grant: Grant, data: Page) returns (ok: bool)
      modifies `free, `refs, `mem
      ensures ok == Granted(old(Snapshot()), grant)
      ensures Snapshot() == if ok then Take(old(Snapshot()), grant.value, data) else old(Snapshot())
    {
      ok := !grant.Refused? && grant.value in free;
      if ok {
        free, refs, mem := free - {grant.value}, refs[grant.value := 1], mem[grant.value := data];
      }
    }

    method BeginClone(p: Pid, c: Pid)
      modifies `procs, `regions
      ensures Snapshot() == Spawn(old(Snapshot()), p, c)
    {
      procs, regions := procs + {c}, regions + Rename(regions, p, c);
    }

    /** One leaf of the clone: share the page with the child, write-protecting it first if private. */
    method ClonePage(p: Pid, c: Pid, v: int)
      modifies `pages, `refs
      ensures Snapshot() == ForkPage(old(Snapshot()), p, c, v)
    {
      var k, l := Key(p, v), Key(c, v);
      if k in pages {
        var m := pages[k];
        if !(k in regions && regions[k].shared) && m.frame in managed {
          if m.rw {
            m := m.(rw := false, cow := true);
          }
          pages := pages[k := m];
          Incref(m.frame);
        }
        pages := pages[l := m];
      }
    }

    /** One round of the clone's walk. */
    method CloneNext(p: Pid, c: Pid, v: int, ghost n: int, ghost goal: State, ghost aborted: State)
      requires p != c && v < USER_PAGES && Remaining(Snapshot(), p, c, v, goal)
      requires v < n && AbortFrom(Strip(Snapshot(), c), p, v, n) == aborted
      modifies `pages, `refs
      ensures Remaining(Snapshot(), p, c, v + 1, goal)
      ensures AbortFrom(Strip(Snapshot(), c), p, v + 1, n) == aborted
    {
      hide Strip, ForkPage, AbortPage;
      ghost var s := Snapshot();
      ClonePage(p, c, v);
      RemainingStep(s, p, c, v, goal, Snapshot());
      StripStep(s, p, c, v);
    }

    /**
     Clones p's address space into the new process c, sharing private frames copy-on-write. The frames for the
     child's tables last for the pages below `n`; when they run out the child is abandoned and nothing is undone.
     */
    method CloneUserMappings(p: Pid, c: Pid, n: int) returns (ok: bool)
      requires Consistent(Snapshot()) && p in procs && c !in procs && |procs| + 1 < REF_MODULUS && n >= 0
      modifies this
      ensures ok <==> n >= USER_PAGES
      ensures ok ==> Consistent(Snapshot()) && Abstract(Snapshot()) == SpecFork(Abstract(old(Snapshot())), p, c)
      ensures !ok ==> Snapshot() == AbortFrom(old(Snapshot()), p, 0, n) && Abstract(Snapshot()) == Abstract(old(Snapshot()))
      ensures !ok ==> (Inv(Snapshot()) <==> forall w: int :: 0 <= w < n ==> !Private(old(Snapshot()), Key(p, w)))
    {
      hide Inv, OneToOne, Abstract, SpecFork, ForkPage, Strip;
      ghost var s := Snapshot();
      ghost var goal, aborted := Fork(s, p, c), AbortFrom(s, p, 0, n);
      StripFork(s, p, c);
      BeginClone(p, c);
      var v := 0;
      while v < n && v < USER_PAGES
        invariant 0 <= v <= n && v <= USER_PAGES && Remaining(Snapshot(), p, c, v, goal)
        invariant AbortFrom(Strip(Snapshot(), c), p, v, n) == aborted
      {
        CloneNext(p, c, v, n, goal, aborted);
        v := v + 1;
      }
      ok := v == USER_PAGES;
      if ok {
        ForkCorrect(s, p, c);
      } else {
        Abandon(c);
        FailedForkExactIff(s, p, n);
      }
    }

    /** Drops the unfinished child. */
    method Abandon(c: Pid)
      modifies `procs, `regions, `pages
      ensures Snapshot() == Strip(old(Snapshot()), c)
    {
      procs, regions, pages := procs - {c}, Cow.Without(regions, c), Cow.Without(pages, c);
    }

    /** One leaf of the teardown: shared frames are only unmapped, private ones lose a reference. */
    method FreePage(k: Key)
      modifies `pages, `refs, `free
      ensures Snapshot() == ExitPage(old(Snapshot()), k)
    {
      if k in pages {
        if !(k in regions && regions[k].shared) { Decref(pages[k].frame); }
        pages := pages - {k};
      }
    }

    /** Releases every private frame of p and forgets the process. */
    method FreeUserPages(p: Pid)
      modifies this
      ensures Snapshot() == Exit(old(Snapshot()), p)
      ensures old(Consistent(Snapshot())) ==> Consistent(Snapshot()) && Abstract(Snapshot()) == SpecExit(Abstract(old(Snapshot())), p)
    {
      hide Inv, OneToOne, Abstract, ExitPage;
      ghost var goal := ExitFrom(Snapshot(), p, 0);
      ghost var s := Snapshot();
      var v := 0;
      while v < USER_PAGES
        invariant s == Snapshot() && ExitFrom(s, p, v) == goal
      {
        FreePage(Key(p, v));
        s := ExitPage(s, Key(p, v));
        v := v + 1;
      }
      procs, regions := procs - {p}, Cow.Without(regions, p);
      if old(Consistent(Snapshot())) { ExitCorrect(old(Snapshot()), p); }
    }

    /** Resolves a fault at page k with whatever frame the allocator grants. */
    method Resolve(k: Key, write: bool, grant: Grant) returns (ok: bool)
      modifies this
      ensures (Snapshot(), ok) == PageFault(old(Snapshot()), k, write, grant)
    {
      if k in pages {
        if !write || !pages[k].cow { return false; }
        var m := pages[k];
        var n := if m.frame in managed then (if m.frame in refs then refs[m.frame] else 0) else 1;
        if n > 1 {
          ok := AllocPage(grant, if m.frame in mem then mem[m.frame] else ZeroPage());
          if !ok { return; }
          pages := pages[k := m.(frame := grant.value, rw := true, cow := false)];
          Decref(m.frame);
        } else {
          pages := pages[k := m.(rw := true, cow := false)];
        }
        return true;
      }
      if k !in regions { return false; }
      var r := regions[k];
      if !r.read && !r.write && !r.exec { return false; }
      if write && !r.write { return false; }
      ok := AllocPage(grant, ZeroPage());
      if !ok { return; }
      if grant.Bare? {
        Decref(grant.value);
        return false;
      }
      pages := pages[k := Mapping(grant.value, r.write, false, !r.exec)];
      if r.shared { pinned := pinned + {grant.value}; }
    }

    /**
     A fault brings in a zero page or gives a write access its own copy; no process sees its memory change, and
     after a handled write fault the access goes through.
     */
    method HandlePageFault(k: Key, write: bool, grant: Grant) returns (ok: bool)
      requires Consistent(Snapshot())
      modifies this
      ensures Consistent(Snapshot()) && procs == old(procs)
      ensures Abstract(Snapshot()) == if ok && k !in old(pages) then SpecTouch(Abstract(old(Snapshot())), k, grant) else Abstract(old(Snapshot()))
      ensures ok ==> k in pages && (write ==> pages[k].rw)
      ensures !ok ==> pages == old(pages) && refs == old(refs) && free == old(free)
      ensures k !in old(pages) ==>
        (ok <==>
          SuppliedAt(old(Snapshot()), k, write, grant)
          && if write then SpecMayStore(Abstract(old(Snapshot())), k) else SpecMayTouch(Abstract(old(Snapshot())), k))
      ensures k in old(pages) && !old(pages)[k].rw ==> (ok <==> SuppliedAt(old(Snapshot()), k, write, grant) && write && old(pages)[k].cow)
    {
      hide Inv, OneToOne, Abstract, SpecTouch, SuppliedAt, SpecMayStore, SpecMayTouch;
      ghost var s := Snapshot();
      FaultHandledIff(s, k, write, grant);
      ok := Resolve(k, write, grant);
      if k in s.pages {
        if write { CowFaultCorrect(s, k, grant, Snapshot(), ok); }
      } else {
        DemandCorrect(s, k, write, grant, Snapshot(), ok);
      }
    }

    /**
     A user store: write through a writable entry, otherwise fault and retry. It changes one byte of the storing
     process's page, and succeeds exactly when the machine that copies every page allows it and the frame it takes,
     if any, can be had.
     */
    method StoreByte(k: Key, off: nat, b: Byte, grant: Grant) returns (ok: bool)
      requires off < PAGE_SIZE && Consistent(Snapshot())
      modifies this
      ensures Consistent(Snapshot()) && procs == old(procs)
      ensures Abstract(Snapshot()) == if ok then SpecStore(Abstract(old(Snapshot())), k, off, b, grant) else Abstract(old(Snapshot()))
      ensures ok <==> SpecMayStore(Abstract(old(Snapshot())), k) && SuppliedAt(old(Snapshot()), k, true, grant)
    {
      hide Inv, OneToOne, Abstract, SpecStore, SpecMayStore, PageFault;
      ghost var s := Snapshot();
      ok := true;
      if !(k in pages && pages[k].rw) { ok := Resolve(k, true, grant); }
      ok := ok && k in pages && pages[k].rw;
      if ok {
        var f := pages[k].frame;
        mem := mem[f := (if f in mem then mem[f] else ZeroPage())[off := b]];
      }
      StoreCorrect(s, k, off, b, grant, Snapshot(), ok);
      StoreSucceeds(s, k, off, b, grant);
    }
  }
}
