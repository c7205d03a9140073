/**
 Blocking on a pseudoterminal master, as a state machine over the steps between lock operations: readers
 that queue, block, re-check and yield, and the writers, echoing writers and closers that wake them.
 */
module PtyWake {
  import opened Basics

  /** The ring holds one byte less than its 4096 slots. */
  const CAPACITY: int := 4095

  datatype RunState = Running | Blocked | Ready

  /** What a wake pass is followed by. */
  datatype After = ThenIdle | ThenUnlock | ThenSleep

  /** Where a thread is in one of the four operations. */
  datatype Pc =
    | Idle
    | ReadTest                 // reader, pty lock held, at the test of the loop
    | ReadQueued               // entry is on the wait queue
    | ReadBlocked              // state set to BLOCKED, about to re-check
    | ReadWaiting              // lock released, in sched_yield
    | ReadWoken                // running again, entry still queued
    | ReadRelock               // pty lock held again, about to leave the queue
    | WriteHeld(wrote: bool)   // slave writer, pty lock held
    | WriteWake                // lock released, about to look at the queue
    | WriteSleep               // waiting for room in the ring
    | EchoHeld(wake: bool)     // master writer, pty lock held; wake is its wake_master flag
    | EchoWake(wake: bool)     // lock released, about to look at the queue
    | CloseHeld                // slave closer, pty lock held
    | CloseWake                // count decremented, about to wake
    | CloseDone                // about to release the lock
    | OpenHeld                 // slave opener, pty lock held
    | Pass(rest: seq<int>, after: After)  // inside wait_queue_wake_all, queue lock held

  datatype Thread = Thread(state: RunState, pc: Pc)

  /** Bytes in the ring, open slaves, the wait queue, the holders of both locks, and the threads. */
  datatype State = State(data: int, slaves: int, queue: seq<int>, lock: int, queueLock: int, threads: map<int, Thread>)

  const NOBODY: int := -1

  function Goto(s: State, t: int, pc: Pc): State
    requires t in s.threads
  {
    s.(threads := s.threads[t := s.threads[t].(pc := pc)])
  }

  function SetState(s: State, t: int, r: RunState): State
    requires t in s.threads
  {
    s.(threads := s.threads[t := s.threads[t].(state := r)])
  }

  // ---------------------------------------------------------------- steps

  /** An idle thread begins operation k, if it gets the pty lock. */
  function BeginStep(s: State, t: int, k: int): State
    requires t in s.threads
  {
    if s.lock != NOBODY then s
    else
      var pc := if k == 0 then ReadTest else if k == 1 then WriteHeld(false) else if k == 2 then EchoHeld(false) else if k == 3 then OpenHeld else CloseHeld;
      Goto(s.(lock := t), t, pc)
  }

  /** A reader: test, queue, block, re-check, yield, take the lock again, leave the queue. */
  function ReadStep(s: State, t: int, k: int): State
    requires t in s.threads
  {
    match s.threads[t].pc
    case ReadTest =>
      if s.data > 0 then
        var n := if 1 <= k <= s.data then k else s.data;
        Goto(s.(data := s.data - n, lock := NOBODY), t, Idle)
      else if s.slaves == 0 then Goto(s.(lock := NOBODY), t, Idle)
      else if s.queueLock != NOBODY then s
      else Goto(s.(queue := [t] + s.queue), t, ReadQueued)
    case ReadQueued => Goto(SetState(s, t, Blocked), t, ReadBlocked)
    case ReadBlocked =>
      if s.data > 0 || s.slaves == 0 then Goto(SetState(s.(lock := NOBODY), t, Running), t, ReadWoken)
      else Goto(s.(lock := NOBODY), t, ReadWaiting)
    case ReadWaiting =>
      if s.threads[t].state == Ready then Goto(SetState(s, t, Running), t, ReadWoken) else s
    case ReadWoken => if s.lock != NOBODY then s else Goto(s.(lock := t), t, ReadRelock)
    case ReadRelock =>
      if s.queueLock != NOBODY then s
      else Goto(SetState(s.(queue := Without(s.queue, t)), t, Running), t, ReadTest)
    case _ => s
  }

  /** A slave writer: fill the ring, release, wake; on a full ring wake first and sleep until there is room. */
  function WriteStep(s: State, t: int, k: int): State
    requires t in s.threads
  {
    match s.threads[t].pc
    case WriteHeld(wrote) =>
      if s.data == CAPACITY && !wrote then
        if s.queue == [] then Goto(s.(lock := NOBODY), t, WriteSleep)
        else if s.queueLock != NOBODY then s
        else Goto(s.(queueLock := t), t, Pass(s.queue, ThenSleep))
      else if 1 <= k && s.data + k <= CAPACITY then Goto(s.(data := s.data + k), t, WriteHeld(true))
      else Goto(s.(lock := NOBODY), t, WriteWake)
    case WriteWake =>
      if s.queue == [] then Goto(s, t, Idle)
      else if s.queueLock != NOBODY then s
      else Goto(s.(queueLock := t), t, Pass(s.queue, ThenIdle))
    case WriteSleep => if s.lock != NOBODY then s else Goto(s.(lock := t), t, WriteHeld(false))
    case _ => s
  }

  /** A master writer that echoes, and the closing and opening of a slave. */
  function OtherStep(s: State, t: int, k: int): State
    requires t in s.threads
  {
    match s.threads[t].pc
    case EchoHeld(wake) =>
      if 1 <= k then
        var n := if s.data + k <= CAPACITY then k else CAPACITY - s.data;
        Goto(s.(data := s.data + n), t, EchoHeld(true))
      else Goto(s.(lock := NOBODY), t, EchoWake(wake))
    case EchoWake(wake) =>
      if !wake || s.queue == [] then Goto(s, t, Idle)
      else if s.queueLock != NOBODY then s
      else Goto(s.(queueLock := t), t, Pass(s.queue, ThenIdle))
    case CloseHeld => Goto(s.(slaves := if s.slaves > 0 then s.slaves - 1 else 0), t, CloseWake)
    case CloseWake =>
      if s.queueLock != NOBODY then s else Goto(s.(queueLock := t), t, Pass(s.queue, ThenUnlock))
    case CloseDone => Goto(s.(lock := NOBODY), t, Idle)
    case OpenHeld => Goto(s.(slaves := s.slaves + 1, lock := NOBODY), t, Idle)
    case _ => s
  }

  /** One entry of a wake pass, or its end. */
  function PassStep(s: State, t: int): State
    requires t in s.threads && s.threads[t].pc.Pass?
  {
    var Pass(rest, after) := s.threads[t].pc;
    if rest == [] then
      var u := s.(queueLock := NOBODY);
      match after
      case ThenIdle => Goto(u, t, Idle)
      case ThenUnlock => Goto(u, t, CloseDone)
      case ThenSleep => Goto(u.(lock := NOBODY), t, WriteSleep)
    else
      var r := rest[0];
      var u := if r in s.threads && s.threads[r].state == Blocked then SetState(s, r, Ready) else s;
      Goto(u, t, Pass(rest[1..], after))
  }

  predicate Reading(pc: Pc) {
    pc == ReadTest || pc == ReadQueued || pc == ReadBlocked || pc == ReadWaiting || pc == ReadWoken || pc == ReadRelock
  }

  predicate Writing(pc: Pc) { pc.WriteHeld? || pc == WriteWake || pc == WriteSleep }

  /** One step of thread t; k is the number of bytes moved or the operation an idle thread begins. */
  function Step(s: State, t: int, k: int): State
    requires t in s.threads
  {
    var pc := s.threads[t].pc;
    if pc == Idle then BeginStep(s, t, k)
    else if Reading(pc) then ReadStep(s, t, k)
    else if Writing(pc) then WriteStep(s, t, k)
    else if pc.Pass? then PassStep(s, t)
    else OtherStep(s, t, k)
  }

  // ---------------------------------------------------------------- the invariant

  predicate HoldsLock(pc: Pc) {
    match pc
    case ReadTest => true
    case ReadQueued => true
    case ReadBlocked => true
    case ReadRelock => true
    case WriteHeld(_) => true
    case EchoHeld(_) => true
    case CloseHeld => true
    case CloseWake => true
    case CloseDone => true
    case OpenHeld => true
    case Pass(_, after) => after != ThenIdle
    case _ => false
  }

  predicate InQueue(pc: Pc) {
    pc == ReadQueued || pc == ReadBlocked || pc == ReadWaiting || pc == ReadWoken || pc == ReadRelock
  }

  /** What holds of each thread by itself. */
  ghost predicate ThreadOk(s: State, t: int)
    requires t in s.threads
  {
    var h := s.threads[t];
    && (HoldsLock(h.pc) <==> s.lock == t)
    && (h.pc.Pass? <==> s.queueLock == t)
    && (InQueue(h.pc) <==> t in s.queue)
    && (h.state == Blocked ==> h.pc == ReadBlocked || h.pc == ReadWaiting)
    && (h.pc == ReadBlocked || h.pc == ReadWaiting ==> h.state != Running)
    && (h.pc == ReadQueued || h.pc == ReadBlocked ==> s.data == 0 && s.slaves > 0)
    && (h.pc.Pass? ==> forall r :: r in h.pc.rest ==> r in s.queue)
  }

  /** What holds of the shared state by itself. */
  ghost predicate Shared(s: State) {
    && 0 <= s.data <= CAPACITY && s.slaves >= 0
    && NOBODY !in s.threads && (s.lock == NOBODY || s.lock in s.threads) && (s.queueLock == NOBODY || s.queueLock in s.threads)
    && Distinct(s.queue)
    && (forall t :: t in s.queue ==> t in s.threads)
  }

  ghost predicate Shape(s: State) {
    Shared(s) && forall t :: t in s.threads ==> ThreadOk(s, t)
  }

  /** Thread w has something to report and has not yet finished the wake pass that will reach r. */
  predicate WillWake(s: State, w: int, r: int)
    requires w in s.threads
  {
    match s.threads[w].pc
    case WriteHeld(wrote) => wrote
    case WriteWake => true
    case EchoHeld(wake) => wake
    case EchoWake(wake) => wake
    case CloseWake => true
    case Pass(rest, _) => r in rest
    case _ => false
  }

  /** A reader asleep although there is data or nobody left to write it. */
  predicate Asleep(s: State, r: int)
    requires r in s.threads
  {
    s.threads[r] == Thread(Blocked, ReadWaiting) && (s.data > 0 || s.slaves == 0)
  }

  ghost predicate Awaited(s: State, r: int)
    requires r in s.threads
  {
    Asleep(s, r) ==> exists w :: w in s.threads && WillWake(s, w, r)
  }

  /** No wake-up is lost. */
  ghost predicate NoneLost(s: State) {
    forall r :: r in s.threads ==> Awaited(s, r)
  }

  ghost predicate Inv(s: State) {
    Shape(s) && NoneLost(s)
  }

  // ---------------------------------------------------------------- every step keeps it

  /** What a step of t leaves of another thread x: its place, its locks and its entry; at most it is woken. */
  ghost predicate Spared(s: State, u: State, t: int, x: int)
    requires t in s.threads && x in s.threads
  {
    && x in u.threads && u.threads[x].pc == s.threads[x].pc
    && (u.threads[x].state == s.threads[x].state || (s.threads[x].state == Blocked && u.threads[x].state == Ready))
    && (u.lock == x <==> s.lock == x) && (u.queueLock == x <==> s.queueLock == x) && (x in u.queue <==> x in s.queue)
    && (u.data != s.data || u.slaves != s.slaves ==> s.lock == t)
    && (u.queue == s.queue || s.queueLock == NOBODY)
  }

  lemma SparedOk(s: State, u: State, t: int, x: int)
    requires Shape(s) && t in s.threads && x in s.threads && x != t && Spared(s, u, t, x)
    ensures ThreadOk(u, x)
  {
    assert ThreadOk(s, t) && ThreadOk(s, x);
  }

  lemma ReadSpares(s: State, t: int, k: int, x: int)
    requires Shared(s) && t in s.threads && ThreadOk(s, t) && x in s.threads && x != t && Reading(s.threads[t].pc)
    ensures Spared(s, ReadStep(s, t, k), t, x)
  {
    WithoutDistinct(s.queue, t);
  }

  lemma WriteSpares(s: State, t: int, k: int, x: int)
    requires Shared(s) && t in s.threads && ThreadOk(s, t) && x in s.threads && x != t && Writing(s.threads[t].pc)
    ensures Spared(s, WriteStep(s, t, k), t, x)
  {
  }

  lemma OtherSpares(s: State, t: int, k: int, x: int)
    requires Shared(s) && t in s.threads && ThreadOk(s, t) && x in s.threads && x != t && !s.threads[t].pc.Pass?
    ensures Spared(s, OtherStep(s, t, k), t, x)
  {
  }

  lemma PassSpares(s: State, t: int, x: int)
    requires Shared(s) && t in s.threads && ThreadOk(s, t) && x in s.threads && x != t && s.threads[t].pc.Pass?
    ensures Spared(s, PassStep(s, t), t, x)
  {
  }

  lemma StepSpares(s: State, t: int, k: int, x: int)
    requires Shape(s) && t in s.threads && x in s.threads && x != t
    ensures Spared(s, Step(s, t, k), t, x)
  {
    hide ReadStep, WriteStep, OtherStep, PassStep, BeginStep, Spared, ThreadOk;
    var pc := s.threads[t].pc;
    if pc == Idle {
      BeginSpares(s, t, k, x);
    } else if Reading(pc) {
      ReadSpares(s, t, k, x);
    } else if Writing(pc) {
      WriteSpares(s, t, k, x);
    } else if pc.Pass? {
      PassSpares(s, t, x);
    } else {
      OtherSpares(s, t, k, x);
    }
  }

  lemma BeginSpares(s: State, t: int, k: int, x: int)
    requires Shared(s) && t in s.threads && ThreadOk(s, t) && x in s.threads && x != t && s.threads[t].pc == Idle
    ensures Spared(s, BeginStep(s, t, k), t, x)
  {
  }

  /** What a step makes of the thread that takes it, and of the shared state. */
  ghost predicate SelfOk(s: State, u: State, t: int) {
    && t in u.threads && ThreadOk(u, t) && u.threads.Keys == s.threads.Keys
    && 0 <= u.data <= CAPACITY && u.slaves >= 0
    && (u.lock == s.lock || u.lock == NOBODY || u.lock == t) && (u.queueLock == s.queueLock || u.queueLock == NOBODY || u.queueLock == t)
    && Distinct(u.queue)
    && (forall x :: x in u.queue ==> x in s.queue || x == t)
  }

  lemma ReadSelf(s: State, t: int, k: int)
    requires Shared(s) && t in s.threads && ThreadOk(s, t) && Reading(s.threads[t].pc)
    ensures SelfOk(s, ReadStep(s, t, k), t)
  {
    hide ReadStep, SelfOk, ThreadOk, Shared;
    var pc := s.threads[t].pc;
    if pc == ReadTest { TestSelf(s, t, k); }
    else if pc == ReadRelock { RelockSelf(s, t, k); }
    else if pc == ReadQueued || pc == ReadBlocked { BlockSelf(s, t, k); }
    else { WakeSelf(s, t, k); }
  }

  lemma TestSelf(s: State, t: int, k: int)
    requires Shared(s) && t in s.threads && ThreadOk(s, t) && s.threads[t].pc == ReadTest
    ensures SelfOk(s, ReadStep(s, t, k), t)
  {
  }

  lemma BlockSelf(s: State, t: int, k: int)
    requires Shared(s) && t in s.threads && ThreadOk(s, t) && (s.threads[t].pc == ReadQueued || s.threads[t].pc == ReadBlocked)
    ensures SelfOk(s, ReadStep(s, t, k), t)
  {
  }

  lemma WakeSelf(s: State, t: int, k: int)
    requires Shared(s) && t in s.threads && ThreadOk(s, t) && (s.threads[t].pc == ReadWaiting || s.threads[t].pc == ReadWoken)
    ensures SelfOk(s, ReadStep(s, t, k), t)
  {
  }

  lemma RelockSelf(s: State, t: int, k: int)
    requires Shared(s) && t in s.threads && ThreadOk(s, t) && s.threads[t].pc == ReadRelock
    ensures SelfOk(s, ReadStep(s, t, k), t)
  {
    WithoutDistinct(s.queue, t);
  }

  lemma WriteSelf(s: State, t: int, k: int)
    requires Shared(s) && t in s.threads && ThreadOk(s, t) && Writing(s.threads[t].pc)
    ensures SelfOk(s, WriteStep(s, t, k), t)
  {
    hide WriteStep, SelfOk, ThreadOk, Shared;
    if s.threads[t].pc.WriteHeld? { HeldSelf(s, t, k); } else { UnheldSelf(s, t, k); }
  }

  lemma HeldSelf(s: State, t: int, k: int)
    requires Shared(s) && t in s.threads && ThreadOk(s, t) && s.threads[t].pc.WriteHeld?
    ensures SelfOk(s, WriteStep(s, t, k), t)
  {
  }

  lemma UnheldSelf(s: State, t: int, k: int)
    requires Shared(s) && t in s.threads && ThreadOk(s, t) && (s.threads[t].pc == WriteWake || s.threads[t].pc == WriteSleep)
    ensures SelfOk(s, WriteStep(s, t, k), t)
  {
  }

  lemma OtherSelf(s: State, t: int, k: int)
    requires Shared(s) && t in s.threads && ThreadOk(s, t) && !s.threads[t].pc.Pass?
    ensures SelfOk(s, OtherStep(s, t, k), t)
  {
    hide OtherStep, SelfOk, ThreadOk, Shared;
    var pc := s.threads[t].pc;
    if pc.EchoHeld? || pc.EchoWake? { EchoSelf(s, t, k); }
    else if pc == CloseHeld || pc == CloseWake { CloseSelf(s, t, k); }
    else { DoneSelf(s, t, k); }
  }

  lemma EchoSelf(s: State, t: int, k: int)
    requires Shared(s) && t in s.threads && ThreadOk(s, t) && (s.threads[t].pc.EchoHeld? || s.threads[t].pc.EchoWake?)
    ensures SelfOk(s, OtherStep(s, t, k), t)
  {
  }

  lemma CloseSelf(s: State, t: int, k: int)
    requires Shared(s) && t in s.threads && ThreadOk(s, t) && (s.threads[t].pc == CloseHeld || s.threads[t].pc == CloseWake)
    ensures SelfOk(s, OtherStep(s, t, k), t)
  {
  }

  lemma DoneSelf(s: State, t: int, k: int)
    requires Shared(s) && t in s.threads && ThreadOk(s, t) && !s.threads[t].pc.Pass?
    requires var pc := s.threads[t].pc; !pc.EchoHeld? && !pc.EchoWake? && pc != CloseHeld && pc != CloseWake
    ensures SelfOk(s, OtherStep(s, t, k), t)
  {
  }

  lemma PassSelf(s: State, t: int)
    requires Shared(s) && t in s.threads && ThreadOk(s, t) && s.threads[t].pc.Pass?
    ensures SelfOk(s, PassStep(s, t), t)
  {
    hide PassStep, SelfOk, ThreadOk, Shared;
    if s.threads[t].pc.rest == [] { PassEnds(s, t); } else { PassGoesOn(s, t); }
  }

  lemma PassEnds(s: State, t: int)
    requires Shared(s) && t in s.threads && ThreadOk(s, t) && s.threads[t].pc.Pass? && s.threads[t].pc.rest == []
    ensures SelfOk(s, PassStep(s, t), t)
  {
  }

  lemma PassGoesOn(s: State, t: int)
    requires Shared(s) && t in s.threads && ThreadOk(s, t) && s.threads[t].pc.Pass? && s.threads[t].pc.rest != []
    ensures SelfOk(s, PassStep(s, t), t)
  {
    hide HoldsLock, InQueue;
    var rest, after := s.threads[t].pc.rest, s.threads[t].pc.after;
    PassKind(rest, rest[1..], after);
    assert s.threads[t].pc == Pass(rest, after);
    assert rest[0] != t;
    var u := PassStep(s, t);
    assert u.threads[t] == s.threads[t].(pc := Pass(rest[1..], after));
  }

  lemma PassKind(p: seq<int>, q: seq<int>, after: After)
    ensures !InQueue(Pass(p, after)) && !InQueue(Pass(q, after)) && (HoldsLock(Pass(p, after)) <==> HoldsLock(Pass(q, after)))
  {
  }

  lemma BeginSelf(s: State, t: int, k: int)
    requires Shared(s) && t in s.threads && ThreadOk(s, t) && s.threads[t].pc == Idle
    ensures SelfOk(s, BeginStep(s, t, k), t)
  {
  }

  /** Every step keeps the locks, the queue and the thread states consistent. */
  lemma StepShape(s: State, t: int, k: int)
    requires Shape(s) && t in s.threads
    ensures Shape(Step(s, t, k)) && Step(s, t, k).threads.Keys == s.threads.Keys
  {
    hide ReadStep, WriteStep, OtherStep, PassStep, BeginStep, Spared, ThreadOk;
    var u, pc := Step(s, t, k), s.threads[t].pc;
    if pc == Idle { BeginSelf(s, t, k); }
    else if Reading(pc) { ReadSelf(s, t, k); }
    else if Writing(pc) { WriteSelf(s, t, k); }
    else if pc.Pass? { PassSelf(s, t); }
    else { OtherSelf(s, t, k); }
    forall x | x in u.threads ensures ThreadOk(u, x) {
      if x != t {
        StepSpares(s, t, k, x);
        SparedOk(s, u, t, x);
      }
    }
  }

  /** A thread that owes r a wake-up still does after its step, or the step was the wake-up. */
  lemma StillWakes(s: State, t: int, k: int, r: int)
    requires t in s.threads && r in s.threads && r != t && r in s.queue && WillWake(s, t, r) && s.threads[r].state == Blocked
    ensures var u := Step(s, t, k); t in u.threads && r in u.threads && (WillWake(u, t, r) || u.threads[r].state == Ready)
  {
    hide PassStep, WriteStep, OtherStep;
    var pc := s.threads[t].pc;
    if pc.Pass? {
      StillPasses(s, t, r);
    } else if Writing(pc) {
      StillWrites(s, t, k, r);
    } else {
      StillOther(s, t, k, r);
    }
  }

  lemma StillPasses(s: State, t: int, r: int)
    requires t in s.threads && r in s.threads && r != t && s.threads[r].state == Blocked && s.threads[t].pc.Pass? && r in s.threads[t].pc.rest
    ensures var u := PassStep(s, t); t in u.threads && r in u.threads && (WillWake(u, t, r) || u.threads[r].state == Ready)
  {
    var rest := s.threads[t].pc.rest;
    assert rest == [rest[0]] + rest[1..];
  }

  lemma StillWrites(s: State, t: int, k: int, r: int)
    requires t in s.threads && r in s.threads && r != t && r in s.queue && Writing(s.threads[t].pc) && WillWake(s, t, r)
    ensures var u := WriteStep(s, t, k); t in u.threads && r in u.threads && WillWake(u, t, r)
  {
  }

  lemma StillOther(s: State, t: int, k: int, r: int)
    requires t in s.threads && r in s.threads && r != t && r in s.queue && !Writing(s.threads[t].pc) && !s.threads[t].pc.Pass? && WillWake(s, t, r)
    ensures var u := OtherStep(s, t, k); t in u.threads && r in u.threads && WillWake(u, t, r)
  {
  }

  /** A step that leaves r asleep in vain where it was not makes the thread that took it owe the wake-up. */
  lemma NewlyAsleep(s: State, t: int, k: int, r: int)
    requires Shared(s) && t in s.threads && ThreadOk(s, t) && r in s.threads && ThreadOk(s, r) && !Asleep(s, r)
    ensures var u := Step(s, t, k); t in u.threads && r in u.threads && (Asleep(u, r) ==> WillWake(u, t, r))
  {
    hide ReadStep, PassStep, WriteStep, OtherStep, ThreadOk, Shared, Asleep, WillWake;
    var pc := s.threads[t].pc;
    if pc == Idle {
      NewlyBegun(s, t, k, r);
    } else if Reading(pc) {
      NewlyRead(s, t, k, r);
    } else if Writing(pc) {
      NewlyWritten(s, t, k, r);
    } else if pc.Pass? {
      NewlyPassed(s, t, r);
    } else {
      NewlyOther(s, t, k, r);
    }
  }

  lemma NewlyBegun(s: State, t: int, k: int, r: int)
    requires t in s.threads && r in s.threads && !Asleep(s, r) && s.threads[t].pc == Idle
    ensures var u := BeginStep(s, t, k); t in u.threads && r in u.threads && !Asleep(u, r)
  {
  }

  lemma NewlyWritten(s: State, t: int, k: int, r: int)
    requires t in s.threads && r in s.threads && !Asleep(s, r) && Writing(s.threads[t].pc)
    ensures var u := WriteStep(s, t, k); t in u.threads && r in u.threads && (Asleep(u, r) ==> WillWake(u, t, r))
  {
  }

  lemma NewlyPassed(s: State, t: int, r: int)
    requires t in s.threads && r in s.threads && !Asleep(s, r) && s.threads[t].pc.Pass?
    ensures var u := PassStep(s, t); t in u.threads && r in u.threads && !Asleep(u, r)
  {
  }

  lemma NewlyOther(s: State, t: int, k: int, r: int)
    requires Shared(s) && t in s.threads && r in s.threads && !Asleep(s, r)
    requires var pc := s.threads[t].pc; pc != Idle && !Reading(pc) && !Writing(pc) && !pc.Pass?
    ensures var u := OtherStep(s, t, k); t in u.threads && r in u.threads && (Asleep(u, r) ==> WillWake(u, t, r))
  {
  }

  lemma NewlyRead(s: State, t: int, k: int, r: int)
    requires Shared(s) && t in s.threads && ThreadOk(s, t) && r in s.threads && !Asleep(s, r) && Reading(s.threads[t].pc)
    ensures var u := ReadStep(s, t, k); t in u.threads && r in u.threads && !Asleep(u, r)
  {
    hide HoldsLock, InQueue;
  }

  /** No step loses a wake-up. */
  lemma StepKeeps(s: State, t: int, k: int)
    requires Inv(s) && t in s.threads
    ensures Inv(Step(s, t, k))
  {
    hide Step, ThreadOk, Shared, WillWake, Asleep;
    StepShape(s, t, k);
    var u := Step(s, t, k);
    forall r | r in u.threads ensures Awaited(u, r) {
      if Asleep(u, r) { FindWaker(s, t, k, r); }
    }
  }

  lemma FindWaker(s: State, t: int, k: int, r: int)
    requires Inv(s) && t in s.threads && r in s.threads
    requires var u := Step(s, t, k); r in u.threads && Asleep(u, r)
    ensures var u := Step(s, t, k); exists w :: w in u.threads && WillWake(u, w, r)
  {
    hide Step, HoldsLock, InQueue;
    var u := Step(s, t, k);
    assert ThreadOk(s, t) && ThreadOk(s, r);
    if !Asleep(s, r) {
      NewlyAsleep(s, t, k, r);
    } else {
      assert Awaited(s, r);
      var w :| w in s.threads && WillWake(s, w, r);
      if w == t {
        QueuedKind(s.threads[r].pc);
        StillWakes(s, t, k, r);
      } else {
        StepSpares(s, t, k, w);
        assert WillWake(u, w, r);
      }
    }
  }

  lemma QueuedKind(pc: Pc)
    ensures pc == ReadWaiting ==> InQueue(pc)
  {
  }

  // ---------------------------------------------------------------- runs

  ghost predicate Boot(s: State) {
    && 0 <= s.data <= CAPACITY && s.slaves >= 0 && s.queue == [] && s.lock == NOBODY && s.queueLock == NOBODY
    && NOBODY !in s.threads && forall t :: t in s.threads ==> s.threads[t] == Thread(Running, Idle)
  }

  /** The state after a schedule of (thread, choice) pairs; pairs naming no thread are skipped. */
  function Run(s: State, schedule: seq<(int, int)>): State
    decreases |schedule|
  {
    if schedule == [] then s else Run(Next(s, schedule[0]), schedule[1..])
  }

  function Next(s: State, c: (int, int)): State {
    if c.0 in s.threads then Step(s, c.0, c.1) else s
  }

  /** In every state of every interleaving, a reader asleep in vain has a waker still to come. */
  lemma {:induction false} RunNoneLost(s: State, schedule: seq<(int, int)>)
    requires Inv(s)
    ensures Inv(Run(s, schedule))
    decreases |schedule|
  {
    if schedule != [] {
      var (t, k) := schedule[0];
      if t in s.threads { StepKeeps(s, t, k); }
      RunNoneLost(if t in s.threads then Step(s, t, k) else s, schedule[1..]);
    }
  }

  lemma BootInv(s: State)
    requires Boot(s)
    ensures Inv(s)
  {
  }

  lemma RunFromBoot(s: State, schedule: seq<(int, int)>)
    requires Boot(s)
    ensures NoneLost(Run(s, schedule))
  {
    BootInv(s);
    RunNoneLost(s, schedule);
  }

  // ---------------------------------------------------------------- a read from beginning to end

  /** An opening adds one slave, a closing takes one away if there is one, and nothing else changes their number. */
  lemma SlavesCounted(s: State, t: int, k: int)
    requires t in s.threads && s.slaves >= 0
    ensures var n, pc := s.slaves, s.threads[t].pc;
      Step(s, t, k).slaves == if pc == OpenHeld then n + 1 else if pc == CloseHeld && n > 0 then n - 1 else n
  {
  }

  /** At the test a reader takes some of the bytes there are, ends if no slave is left, and queues itself otherwise. */
  lemma ReadDecides(s: State, t: int, k: int)
    requires t in s.threads && s.threads[t].pc == ReadTest && s.queueLock == NOBODY && s.data >= 0
    ensures t in Step(s, t, k).threads
    ensures var u := Step(s, t, k);
      if s.data > 0 then u.threads[t].pc == Idle && u.lock == NOBODY && 0 <= u.data < s.data && (1 <= k <= s.data ==> u.data == s.data - k)
      else if s.slaves == 0 then u.threads[t].pc == Idle && u.lock == NOBODY && u.data == 0
      else u.threads[t].pc == ReadQueued && t in u.queue && u.data == 0
  {
  }

  /** A reader comes back only with bytes or at the end of the line. */
  lemma ReadReturns(s: State, t: int, k: int)
    requires t in s.threads && Reading(s.threads[t].pc) && Step(s, t, k).threads[t].pc == Idle && s.data >= 0
    ensures if s.data > 0 then 0 <= Step(s, t, k).data < s.data else s.slaves == 0
  {
  }

  function Two(data: int, queue: seq<int>, lock: int, queueLock: int, a: Thread, b: Thread): State {
    State(data, 1, queue, lock, queueLock, map[1 := a, 2 := b])
  }

  const RESTING: Thread := Thread(Running, Idle)
  const SLEEPING: Thread := Thread(Blocked, ReadWaiting)

  lemma ReaderQueues()
    ensures Next(Next(Two(0, [], NOBODY, NOBODY, RESTING, RESTING), (1, 0)), (1, 0))
      == Two(0, [1], 1, NOBODY, Thread(Running, ReadQueued), RESTING)
  {
    hide WriteStep, OtherStep, PassStep;
    var s1 := Two(0, [], 1, NOBODY, Thread(Running, ReadTest), RESTING);
    assert Next(Two(0, [], NOBODY, NOBODY, RESTING, RESTING), (1, 0)) == s1;
    assert Next(s1, (1, 0)) == Two(0, [1], 1, NOBODY, Thread(Running, ReadQueued), RESTING);
  }

  lemma ReaderYields()
    ensures Next(Next(Two(0, [1], 1, NOBODY, Thread(Running, ReadQueued), RESTING), (1, 0)), (1, 0))
      == Two(0, [1], NOBODY, NOBODY, SLEEPING, RESTING)
  {
    hide WriteStep, OtherStep, PassStep;
    var s3 := Two(0, [1], 1, NOBODY, Thread(Blocked, ReadBlocked), RESTING);
    assert Next(Two(0, [1], 1, NOBODY, Thread(Running, ReadQueued), RESTING), (1, 0)) == s3;
    assert Next(s3, (1, 0)) == Two(0, [1], NOBODY, NOBODY, SLEEPING, RESTING);
  }

  lemma WriterWrites()
    ensures Next(Next(Two(0, [1], NOBODY, NOBODY, SLEEPING, RESTING), (2, 1)), (2, 1))
      == Two(1, [1], 2, NOBODY, SLEEPING, Thread(Running, WriteHeld(true)))
  {
    hide ReadStep, OtherStep, PassStep;
    var s5 := Two(0, [1], 2, NOBODY, SLEEPING, Thread(Running, WriteHeld(false)));
    assert Next(Two(0, [1], NOBODY, NOBODY, SLEEPING, RESTING), (2, 1)) == s5;
    assert Next(s5, (2, 1)) == Two(1, [1], 2, NOBODY, SLEEPING, Thread(Running, WriteHeld(true)));
  }

  lemma WriterUnlocks()
    ensures Next(Two(1, [1], 2, NOBODY, SLEEPING, Thread(Running, WriteHeld(true))), (2, 0))
      == Two(1, [1], NOBODY, NOBODY, SLEEPING, Thread(Running, WriteWake))
  {
    hide ReadStep, OtherStep, PassStep, BeginStep;
  }

  lemma WriterLooks()
    ensures Next(Two(1, [1], NOBODY, NOBODY, SLEEPING, Thread(Running, WriteWake)), (2, 0))
      == Two(1, [1], NOBODY, 2, SLEEPING, Thread(Running, Pass([1], ThenIdle)))
  {
    hide ReadStep, OtherStep, BeginStep, PassStep;
  }

  lemma WriterPasses()
    ensures Next(Two(1, [1], NOBODY, 2, SLEEPING, Thread(Running, Pass([1], ThenIdle))), (2, 0))
      == Two(1, [1], NOBODY, 2, Thread(Ready, ReadWaiting), Thread(Running, Pass([], ThenIdle)))
  {
    hide ReadStep, WriteStep, OtherStep, BeginStep;
    assert [1][1..] == [];
  }

  lemma WriterEnds()
    ensures Next(Two(1, [1], NOBODY, 2, Thread(Ready, ReadWaiting), Thread(Running, Pass([], ThenIdle))), (2, 0))
      == Two(1, [1], NOBODY, NOBODY, Thread(Ready, ReadWaiting), RESTING)
  {
    hide ReadStep, WriteStep, OtherStep, BeginStep;
  }

  lemma ReaderWoken()
    ensures Next(Next(Two(1, [1], NOBODY, NOBODY, Thread(Ready, ReadWaiting), RESTING), (1, 0)), (1, 0))
      == Two(1, [1], 1, NOBODY, Thread(Running, ReadRelock), RESTING)
  {
    hide WriteStep, OtherStep, PassStep, BeginStep;
    var s11 := Two(1, [1], NOBODY, NOBODY, Thread(Running, ReadWoken), RESTING);
    assert Next(Two(1, [1], NOBODY, NOBODY, Thread(Ready, ReadWaiting), RESTING), (1, 0)) == s11;
    assert Next(s11, (1, 0)) == Two(1, [1], 1, NOBODY, Thread(Running, ReadRelock), RESTING);
  }

  lemma ReaderTakes()
    ensures Next(Next(Two(1, [1], 1, NOBODY, Thread(Running, ReadRelock), RESTING), (1, 0)), (1, 1)) == Two(0, [], NOBODY, NOBODY, RESTING, RESTING)
  {
    hide WriteStep, OtherStep, PassStep, BeginStep;
    assert Without([1], 1) == [];
    var s13 := Two(1, [], 1, NOBODY, Thread(Running, ReadTest), RESTING);
    assert Next(Two(1, [1], 1, NOBODY, Thread(Running, ReadRelock), RESTING), (1, 0)) == s13;
    assert Next(s13, (1, 1)) == Two(0, [], NOBODY, NOBODY, RESTING, RESTING);
  }

  lemma {:induction false} RunAppend(s: State, a: seq<(int, int)>, b: seq<(int, int)>)
    ensures Run(s, a + b) == Run(Run(s, a), b)
    decreases |a|
  {
    hide Next;
    if a == [] {
      assert a + b == b;
    } else {
      assert (a + b)[1..] == a[1..] + b;
      RunAppend(Next(s, a[0]), a[1..], b);
    }
  }

  lemma Follow(s: State, schedule: seq<(int, int)>)
    requires schedule != []
    ensures Run(s, schedule) == Run(Next(s, schedule[0]), schedule[1..])
  {
  }

  lemma RunTwo(s: State, c: (int, int), d: (int, int))
    ensures Run(s, [c, d]) == Next(Next(s, c), d)
  {
    hide Next;
    Follow(s, [c, d]);
    assert [c, d][1..] == [d];
    Follow(Next(s, c), [d]);
  }

  lemma RunThree(s: State, c: (int, int), d: (int, int), e: (int, int))
    ensures Run(s, [c, d, e]) == Next(Next(Next(s, c), d), e)
  {
    hide Next;
    Follow(s, [c, d, e]);
    assert [c, d, e][1..] == [d, e];
    RunTwo(Next(s, c), d, e);
  }

  /** From boot: a reader finds nothing and goes to sleep. */
  lemma SleepReached() returns (schedule: seq<(int, int)>)
    ensures var s := Two(0, [], NOBODY, NOBODY, RESTING, RESTING); Boot(s) && Run(s, schedule) == Two(0, [1], NOBODY, NOBODY, SLEEPING, RESTING)
  {
    hide Run, Next;
    var s := Two(0, [], NOBODY, NOBODY, RESTING, RESTING);
    ReaderQueues();
    ReaderYields();
    RunTwo(s, (1, 0), (1, 0));
    RunTwo(Run(s, [(1, 0), (1, 0)]), (1, 0), (1, 0));
    RunAppend(s, [(1, 0), (1, 0)], [(1, 0), (1, 0)]);
    schedule := [(1, 0), (1, 0)] + [(1, 0), (1, 0)];
  }

  /** From there: a writer queues a byte and wakes the reader, which takes the byte. */
  lemma WokenReads() returns (schedule: seq<(int, int)>)
    ensures Run(Two(0, [1], NOBODY, NOBODY, SLEEPING, RESTING), schedule) == Two(0, [], NOBODY, NOBODY, RESTING, RESTING)
  {
    hide Run, Next;
    var s := Two(0, [1], NOBODY, NOBODY, SLEEPING, RESTING);
    var a, b, c := [(2, 1), (2, 1), (2, 0)], [(2, 0), (2, 0), (2, 0)], [(1, 0), (1, 0)];
    WriterWrites();
    WriterUnlocks();
    RunThree(s, (2, 1), (2, 1), (2, 0));
    WriterLooks();
    WriterPasses();
    WriterEnds();
    RunThree(Run(s, a), (2, 0), (2, 0), (2, 0));
    RunAppend(s, a, b);
    ReaderWoken();
    RunTwo(Run(s, a + b), (1, 0), (1, 0));
    RunAppend(s, a + b, c);
    ReaderTakes();
    RunTwo(Run(s, a + b + c), (1, 0), (1, 1));
    RunAppend(s, a + b + c, [(1, 0), (1, 1)]);
    schedule := a + b + c + [(1, 0), (1, 1)];
  }

  /** The thread's next step takes it to another place in its code. */
  predicate Moves(s: State, x: int)
    requires x in s.threads
  {
    var u := Step(s, x, 0);
    x in u.threads && u.threads[x].pc != s.threads[x].pc
  }

  /** The waker is never stuck: it can take a step itself, or the thread that holds the queue lock can. */
  lemma WakerAdvances(s: State, w: int, r: int) returns (x: int)
    requires Inv(s) && w in s.threads && r in s.threads && Asleep(s, r) && WillWake(s, w, r)
    ensures x in s.threads && Moves(s, x)
    ensures x == w || x == s.queueLock
  {
    hide Step, Moves;
    assert ThreadOk(s, w) && ThreadOk(s, r);
    var pc := s.threads[w].pc;
    if pc.Pass? || s.queueLock == NOBODY || pc.WriteHeld? || pc.EchoHeld? {
      x := w;
      CanStep(s, w);
    } else {
      x := s.queueLock;
      assert ThreadOk(s, x);
      CanStep(s, x);
    }
  }

  lemma PassAdvances(s: State, x: int)
    requires x in s.threads && s.threads[x].pc.Pass?
    ensures x in PassStep(s, x).threads && PassStep(s, x).threads[x].pc != s.threads[x].pc
  {
    var rest := s.threads[x].pc.rest;
    if rest != [] { assert |rest[1..]| < |rest|; }
  }

  lemma CanStep(s: State, w: int)
    requires w in s.threads && s.queue != []
    requires var pc := s.threads[w].pc;
      pc.Pass? || pc == WriteHeld(true) || pc == EchoHeld(true) || (s.queueLock == NOBODY && (pc == WriteWake || pc == EchoWake(true) || pc == CloseWake))
    ensures Moves(s, w)
  {
    hide PassStep;
    if s.threads[w].pc.Pass? { PassAdvances(s, w); }
  }
}
