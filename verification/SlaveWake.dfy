/**
 Blocking on a pseudoterminal slave, as a state machine over the steps between lock operations: readers that wait
 for a line or for bytes, the master's writers and closer that wake them, and the mode changes that do not.
 */
module SlaveWake {
  import opened Basics
  import P = PtyWake

  datatype RunState = Running | Blocked | Ready

  /** Bytes queued for the slave, the newlines counted among them, the mode, and whether the master is open. */
  datatype Line = Line(bytes: int, newlines: int, canonical: bool, open: bool)

  /** A read would not wait: a finished line in canonical mode, any byte otherwise, or end of file. */
  predicate Wakeful(l: Line) { (l.bytes > 0 && (!l.canonical || l.newlines > 0)) || !l.open }

  datatype Pc =
    | Idle
    | ReadTest                 // reader, pty lock held, at the test of the loop
    | ReadQueued               // entry is on the wait queue
    | ReadBlocked              // state set to BLOCKED, about to re-check
    | ReadWaiting              // lock released, in sched_yield
    | ReadWoken                // running again, entry still queued
    | ReadRelock               // pty lock held again, about to leave the queue
    | WriteHeld(wake: bool)    // master writer, pty lock held; wake is its wake_slave flag
    | WriteWake(wake: bool)    // lock released, about to look at the queue
    | CloseHeld                // master closer, pty lock held
    | CloseWake                // about to wake, lock still held
    | CloseDone                // about to release the lock
    | ModeHeld                 // mode change, pty lock held
    | Pass(rest: seq<int>, locked: bool)  // inside wait_queue_wake_all, queue lock held

  datatype Thread = Thread(state: RunState, pc: Pc)

  datatype State = State(line: Line, queue: seq<int>, lock: int, queueLock: int, threads: map<int, Thread>)

  const NOBODY: int := P.NOBODY

  function Goto(s: State, t: int, pc: Pc): State
    requires t in s.threads
  {
    s.(threads := s.threads[t := s.threads[t].(pc := pc)])
  }

  function SetState(s: State, t: int, r: RunState): State
    requires t in s.threads
  {
    s.(threads := s.threads[t := s.threads[t].(state := r)])
  }

  // ---------------------------------------------------------------- steps

  function BeginStep(s: State, t: int, k: int): State
    requires t in s.threads
  {
    if s.lock != NOBODY then s
    else Goto(s.(lock := t), t, if k == 0 then ReadTest else if k == 1 then WriteHeld(false) else if k == 2 then CloseHeld else ModeHeld)
  }

  /** What a read takes out: in canonical mode up to one newline, else any number of bytes; k is how many. */
  function Taken(l: Line, k: int): Line
    requires l.bytes > 0
  {
    var n := if 1 <= k <= l.bytes then k else l.bytes;
    l.(bytes := l.bytes - n, newlines := if l.canonical && k % 2 == 0 && l.newlines > 0 then l.newlines - 1 else l.newlines)
  }

  /** A reader: test, queue, block, re-check, yield, take the lock again, leave the queue. */
  function ReadStep(s: State, t: int, k: int): State
    requires t in s.threads
  {
    match s.threads[t].pc
    case ReadTest =>
      if Wakeful(s.line) then
        Goto(s.(line := if s.line.bytes > 0 then Taken(s.line, k) else s.line, lock := NOBODY), t, Idle)
      else if s.queueLock != NOBODY then s
      else Goto(s.(queue := [t] + s.queue), t, ReadQueued)
    case ReadQueued => Goto(SetState(s, t, Blocked), t, ReadBlocked)
    case ReadBlocked =>
      if Wakeful(s.line) then Goto(SetState(s.(lock := NOBODY), t, Running), t, ReadWoken)
      else Goto(s.(lock := NOBODY), t, ReadWaiting)
    case ReadWaiting =>
      if s.threads[t].state == Ready then Goto(SetState(s, t, Running), t, ReadWoken) else s
    case ReadWoken => if s.lock != NOBODY then s else Goto(s.(lock := t), t, ReadRelock)
    case ReadRelock =>
      if s.queueLock != NOBODY then s
      else Goto(SetState(s.(queue := Without(s.queue, t)), t, Running), t, ReadTest)
    case _ => s
  }

  /** A master writer: queues a byte (k = 1) or a newline (k = 2), erases one (k = 3), or is done. */
  function WriteStep(s: State, t: int, k: int): State
    requires t in s.threads
  {
    var l := s.line;
    match s.threads[t].pc
    case WriteHeld(wake) =>
      if (k == 1 || k == 2) && l.bytes < P.CAPACITY then
        Goto(s.(line := l.(bytes := l.bytes + 1, newlines := l.newlines + k - 1)), t, WriteHeld(true))
      else if k == 3 && l.canonical && l.bytes > l.newlines then Goto(s.(line := l.(bytes := l.bytes - 1)), t, WriteHeld(wake))
      else Goto(s.(lock := NOBODY), t, WriteWake(wake))
    case WriteWake(wake) =>
      if !wake || s.queue == [] then Goto(s, t, Idle)
      else if s.queueLock != NOBODY then s
      else Goto(s.(queueLock := t), t, Pass(s.queue, false))
    case _ => s
  }

  /** The master's closing, which ends the line only without open slaves (k = 0), and the change of mode. */
  function OtherStep(s: State, t: int, k: int): State
    requires t in s.threads
  {
    match s.threads[t].pc
    case CloseHeld => Goto(if k == 0 then s.(line := s.line.(open := false)) else s, t, CloseWake)
    case CloseWake =>
      if s.queueLock != NOBODY then s else Goto(s.(queueLock := t), t, Pass(s.queue, true))
    case CloseDone => Goto(s.(lock := NOBODY), t, Idle)
    case ModeHeld => Goto(s.(line := NewMode(s.line, k), lock := NOBODY), t, Idle)
    case _ => s
  }

  /** A new mode: raw when k is negative, else canonical; on entering canonical mode k newlines are counted. */
  function NewMode(l: Line, k: int): Line {
    if k < 0 then l.(canonical := false)
    else if l.canonical then l
    else l.(canonical := true, newlines := if k <= l.bytes then k else l.bytes)
  }

  /** One entry of a wake pass, or its end. */
  function PassStep(s: State, t: int): State
    requires t in s.threads && s.threads[t].pc.Pass?
  {
    var Pass(rest, locked) := s.threads[t].pc;
    if rest == [] then Goto(s.(queueLock := NOBODY), t, if locked then CloseDone else Idle)
    else
      var r := rest[0];
      var u := if r in s.threads && s.threads[r].state == Blocked then SetState(s, r, Ready) else s;
      Goto(u, t, Pass(rest[1..], locked))
  }

  predicate Reading(pc: Pc) {
    pc == ReadTest || pc == ReadQueued || pc == ReadBlocked || pc == ReadWaiting || pc == ReadWoken || pc == ReadRelock
  }

  predicate Writing(pc: Pc) { pc.WriteHeld? || pc.WriteWake? }

  function Step(s: State, t: int, k: int): State
    requires t in s.threads
  {
    var pc := s.threads[t].pc;
    if pc == Idle then BeginStep(s, t, k)
    else if Reading(pc) then ReadStep(s, t, k)
    else if Writing(pc) then WriteStep(s, t, k)
    else if pc.Pass? then PassStep(s, t)
    else OtherStep(s, t, k)
  }

  // ---------------------------------------------------------------- the invariant

  predicate HoldsLock(pc: Pc) {
    match pc
    case ReadTest => true
    case ReadQueued => true
    case ReadBlocked => true
    case ReadRelock => true
    case WriteHeld(_) => true
    case CloseHeld => true
    case CloseWake => true
    case CloseDone => true
    case ModeHeld => true
    case Pass(_, locked) => locked
    case _ => false
  }

  predicate InQueue(pc: Pc) {
    pc == ReadQueued || pc == ReadBlocked || pc == ReadWaiting || pc == ReadWoken || pc == ReadRelock
  }

  /** What holds of each thread by itself. */
  ghost predicate ThreadOk(s: State, t: int)
    requires t in s.threads
  {
    var h := s.threads[t];
    && (HoldsLock(h.pc) <==> s.lock == t)
    && (h.pc.Pass? <==> s.queueLock == t)
    && (InQueue(h.pc) <==> t in s.queue)
    && (h.state == Blocked ==> h.pc == ReadBlocked || h.pc == ReadWaiting)
    && (h.pc == ReadQueued || h.pc == ReadBlocked ==> !Wakeful(s.line))
    && (h.pc.Pass? ==> forall r :: r in h.pc.rest ==> r in s.queue)
  }

  ghost predicate Shared(s: State) {
    && NOBODY !in s.threads && (s.lock == NOBODY || s.lock in s.threads) && (s.queueLock == NOBODY || s.queueLock in s.threads)
    && Distinct(s.queue) && (forall t :: t in s.queue ==> t in s.threads)
  }

  ghost predicate Shape(s: State) {
    Shared(s) && forall t :: t in s.threads ==> ThreadOk(s, t)
  }

  /** Thread w has something to report and has not yet finished the wake pass that will reach r. */
  predicate WillWake(s: State, w: int, r: int)
    requires w in s.threads
  {
    match s.threads[w].pc
    case WriteHeld(wake) => wake
    case WriteWake(wake) => wake
    case CloseWake => true
    case Pass(rest, _) => r in rest
    case _ => false
  }

  predicate Waiting(s: State, r: int)
    requires r in s.threads
  {
    s.threads[r] == Thread(Blocked, ReadWaiting)
  }

  ghost predicate Owed(s: State, r: int) {
    exists w :: w in s.threads && WillWake(s, w, r)
  }

  /** No wake-up is lost: a reader that sleeps although it could read has a waker still to come. */
  ghost predicate NoneLost(s: State) {
    Wakeful(s.line) ==> forall r :: r in s.threads && Waiting(s, r) ==> Owed(s, r)
  }

  ghost predicate Inv(s: State) { Shape(s) && NoneLost(s) }

  // ---------------------------------------------------------------- every step keeps the shape

  /** What a step of t leaves of another thread x: its place, its locks and its entry; at most it is woken. */
  ghost predicate Spared(s: State, u: State, t: int, x: int)
    requires t in s.threads && x in s.threads
  {
    && x in u.threads && u.threads[x].pc == s.threads[x].pc
    && (u.threads[x].state == s.threads[x].state || (s.threads[x].state == Blocked && u.threads[x].state == Ready))
    && (u.lock == x <==> s.lock == x) && (u.queueLock == x <==> s.queueLock == x) && (x in u.queue <==> x in s.queue)
    && (u.line != s.line ==> s.lock == t) && (u.queue == s.queue || s.queueLock == NOBODY)
  }

  /** What a step makes of the thread that takes it, and of the shared state. */
  ghost predicate SelfOk(s: State, u: State, t: int) {
    && t in u.threads && ThreadOk(u, t) && u.threads.Keys == s.threads.Keys
    && (u.lock == s.lock || u.lock == NOBODY || u.lock == t) && (u.queueLock == s.queueLock || u.queueLock == NOBODY || u.queueLock == t)
    && Distinct(u.queue) && (forall x :: x in u.queue ==> x in s.queue || x == t)
  }

  lemma SparedOk(s: State, u: State, t: int, x: int)
    requires Shape(s) && t in s.threads && x in s.threads && x != t && Spared(s, u, t, x)
    ensures ThreadOk(u, x)
  {
    assert ThreadOk(s, t) && ThreadOk(s, x);
  }

  lemma ReadSpares(s: State, t: int, k: int, x: int)
    requires Shared(s) && t in s.threads && ThreadOk(s, t) && x in s.threads && x != t && Reading(s.threads[t].pc)
    ensures Spared(s, ReadStep(s, t, k), t, x)
  {
    hide Wakeful, Taken;
    WithoutDistinct(s.queue, t);
  }

  lemma OthersSpare(s: State, t: int, k: int, x: int)
    requires Shared(s) && t in s.threads && ThreadOk(s, t) && x in s.threads && x != t && !s.threads[t].pc.Pass?
    ensures s.threads[t].pc == Idle ==> Spared(s, BeginStep(s, t, k), t, x)
    ensures Spared(s, WriteStep(s, t, k), t, x) && Spared(s, OtherStep(s, t, k), t, x)
  {
    hide Wakeful, NewMode;
  }

  lemma PassSpares(s: State, t: int, x: int)
    requires Shared(s) && t in s.threads && ThreadOk(s, t) && x in s.threads && x != t && s.threads[t].pc.Pass?
    ensures Spared(s, PassStep(s, t), t, x)
  {
    hide Wakeful;
  }

  lemma StepSpares(s: State, t: int, k: int, x: int)
    requires Shape(s) && t in s.threads && x in s.threads && x != t
    ensures Spared(s, Step(s, t, k), t, x)
  {
    hide ReadStep, WriteStep, OtherStep, PassStep, BeginStep, Spared, ThreadOk;
    var pc := s.threads[t].pc;
    if Reading(pc) { ReadSpares(s, t, k, x); } else if pc.Pass? { PassSpares(s, t, x); } else { OthersSpare(s, t, k, x); }
  }

  lemma ReadSelf(s: State, t: int, k: int)
    requires Shared(s) && t in s.threads && ThreadOk(s, t) && Reading(s.threads[t].pc)
    ensures SelfOk(s, ReadStep(s, t, k), t)
  {
    hide ReadStep, SelfOk, ThreadOk, Shared;
    var pc := s.threads[t].pc;
    if pc == ReadTest { TestSelf(s, t, k); } else if pc == ReadRelock { RelockSelf(s, t, k); } else { SleepSelf(s, t, k); }
  }

  lemma TestSelf(s: State, t: int, k: int)
    requires Shared(s) && t in s.threads && ThreadOk(s, t) && s.threads[t].pc == ReadTest
    ensures SelfOk(s, ReadStep(s, t, k), t)
  {
    hide Taken;
  }

  lemma SleepSelf(s: State, t: int, k: int)
    requires Shared(s) && t in s.threads && ThreadOk(s, t)
    requires var pc := s.threads[t].pc; pc == ReadQueued || pc == ReadBlocked || pc == ReadWaiting || pc == ReadWoken
    ensures SelfOk(s, ReadStep(s, t, k), t)
  {
    hide Wakeful;
  }

  lemma RelockSelf(s: State, t: int, k: int)
    requires Shared(s) && t in s.threads && ThreadOk(s, t) && s.threads[t].pc == ReadRelock
    ensures SelfOk(s, ReadStep(s, t, k), t)
  {
    hide Wakeful;
    WithoutDistinct(s.queue, t);
  }

  lemma WriteSelf(s: State, t: int, k: int)
    requires Shared(s) && t in s.threads && ThreadOk(s, t) && Writing(s.threads[t].pc)
    ensures SelfOk(s, WriteStep(s, t, k), t)
  {
    hide Wakeful;
  }

  lemma OtherSelf(s: State, t: int, k: int)
    requires Shared(s) && t in s.threads && ThreadOk(s, t) && !s.threads[t].pc.Pass?
    ensures SelfOk(s, OtherStep(s, t, k), t)
  {
    hide NewMode;
  }

  lemma BeginSelf(s: State, t: int, k: int)
    requires Shared(s) && t in s.threads && ThreadOk(s, t) && s.threads[t].pc == Idle
    ensures SelfOk(s, BeginStep(s, t, k), t)
  {
    hide Wakeful;
  }

  lemma PassSelf(s: State, t: int)
    requires Shared(s) && t in s.threads && ThreadOk(s, t) && s.threads[t].pc.Pass?
    ensures SelfOk(s, PassStep(s, t), t)
  {
    hide PassStep, SelfOk, ThreadOk, Shared;
    if s.threads[t].pc.rest == [] { PassEnds(s, t); } else { PassGoesOn(s, t); }
  }

  lemma PassEnds(s: State, t: int)
    requires Shared(s) && t in s.threads && ThreadOk(s, t) && s.threads[t].pc.Pass? && s.threads[t].pc.rest == []
    ensures SelfOk(s, PassStep(s, t), t)
  {
    hide Wakeful;
  }

  lemma PassGoesOn(s: State, t: int)
    requires Shared(s) && t in s.threads && ThreadOk(s, t) && s.threads[t].pc.Pass? && s.threads[t].pc.rest != []
    ensures SelfOk(s, PassStep(s, t), t)
  {
    hide HoldsLock, InQueue, Wakeful;
    var rest, locked := s.threads[t].pc.rest, s.threads[t].pc.locked;
    PassKind(rest, rest[1..], locked);
    assert s.threads[t].pc == Pass(rest, locked);
    assert rest[0] != t;
    var u := PassStep(s, t);
    assert u.threads[t] == s.threads[t].(pc := Pass(rest[1..], locked));
  }

  lemma PassKind(p: seq<int>, q: seq<int>, locked: bool)
    ensures !InQueue(Pass(p, locked)) && !InQueue(Pass(q, locked)) && (HoldsLock(Pass(p, locked)) <==> HoldsLock(Pass(q, locked)))
  {
  }

  /** Every step keeps the locks, the queue and the thread states consistent. */
  lemma StepShape(s: State, t: int, k: int)
    requires Shape(s) && t in s.threads
    ensures Shape(Step(s, t, k)) && Step(s, t, k).threads.Keys == s.threads.Keys
  {
    hide ReadStep, WriteStep, OtherStep, PassStep, BeginStep, Spared, ThreadOk;
    var u, pc := Step(s, t, k), s.threads[t].pc;
    if pc == Idle { BeginSelf(s, t, k); }
    else if Reading(pc) { ReadSelf(s, t, k); }
    else if Writing(pc) { WriteSelf(s, t, k); }
    else if pc.Pass? { PassSelf(s, t); }
    else { OtherSelf(s, t, k); }
    forall x | x in u.threads ensures ThreadOk(u, x) {
      if x != t {
        StepSpares(s, t, k, x);
        SparedOk(s, u, t, x);
      }
    }
  }

  // ---------------------------------------------------------------- when no wake-up is lost

  /** A thread that owes r a wake-up still does after its step, or the step was the wake-up. */
  lemma StillWakes(s: State, t: int, k: int, r: int)
    requires t in s.threads && r in s.threads && r != t && r in s.queue && WillWake(s, t, r) && s.threads[r].state == Blocked
    ensures var u := Step(s, t, k); t in u.threads && r in u.threads && (WillWake(u, t, r) || u.threads[r].state == Ready)
  {
    hide PassStep;
    if s.threads[t].pc.Pass? { StillPasses(s, t, r); }
  }

  lemma StillPasses(s: State, t: int, r: int)
    requires t in s.threads && r in s.threads && r != t && s.threads[r].state == Blocked && s.threads[t].pc.Pass? && r in s.threads[t].pc.rest
    ensures var u := PassStep(s, t); t in u.threads && r in u.threads && (WillWake(u, t, r) || u.threads[r].state == Ready)
  {
    var rest := s.threads[t].pc.rest;
    assert rest == [rest[0]] + rest[1..];
  }

  /** Whoever makes waiting pointless, other than by a change of mode, owes the wake-up. */
  lemma NewlyWakeful(s: State, t: int, k: int, r: int)
    requires t in s.threads && s.threads[t].pc != ModeHeld && !Wakeful(s.line)
    ensures var u := Step(s, t, k); t in u.threads && (Wakeful(u.line) ==> WillWake(u, t, r))
  {
    hide PassStep;
    if s.threads[t].pc.Pass? { PassLine(s, t); }
  }

  lemma PassLine(s: State, t: int)
    requires t in s.threads && s.threads[t].pc.Pass?
    ensures PassStep(s, t).line == s.line && t in PassStep(s, t).threads
  {
  }

  /** Nobody goes to sleep on a line that can be read. */
  lemma NewlyWaiting(s: State, t: int, k: int, r: int)
    requires t in s.threads && r in s.threads && !Waiting(s, r)
    ensures var u := Step(s, t, k); r in u.threads && (Waiting(u, r) ==> !Wakeful(u.line))
  {
    hide Taken, NewMode;
  }

  /** A change of mode after which some reader could read and nobody is going to tell it. */
  ghost predicate Stranding(s: State, t: int, k: int)
    requires t in s.threads
  {
    s.threads[t].pc == ModeHeld && Wakeful(NewMode(s.line, k)) && exists r :: r in s.threads && Waiting(s, r) && !Owed(s, r)
  }

  /** Only a change to raw mode over an unfinished line strands a reader. */
  lemma StrandingIs(s: State, t: int, k: int)
    requires Inv(s) && t in s.threads && Stranding(s, t, k)
    ensures k < 0 && s.line.canonical && s.line.bytes > 0 && s.line.newlines <= 0
  {
    assert !Wakeful(s.line);
  }

  lemma FindWaker(s: State, t: int, k: int, r: int)
    requires Inv(s) && t in s.threads && r in s.threads && s.threads[t].pc != ModeHeld
    requires var u := Step(s, t, k); r in u.threads && Waiting(u, r) && Wakeful(u.line)
    ensures Owed(Step(s, t, k), r)
  {
    hide Step, HoldsLock, InQueue, Wakeful;
    var u := Step(s, t, k);
    assert ThreadOk(s, t) && ThreadOk(s, r);
    if !Waiting(s, r) { NewlyWaiting(s, t, k, r); }
    if Wakeful(s.line) {
      assert Owed(s, r);
      var w :| w in s.threads && WillWake(s, w, r);
      if w == t {
        WaitingQueued(s, r);
        StillWakes(s, t, k, r);
      } else {
        StepSpares(s, t, k, w);
      }
    } else {
      NewlyWakeful(s, t, k, r);
    }
  }

  lemma WaitingQueued(s: State, r: int)
    requires r in s.threads && Waiting(s, r) && ThreadOk(s, r)
    ensures r in s.queue
  {
  }

  /** A change of mode wakes nobody, so it keeps the law exactly when every waiting reader it concerns is owed a wake-up. */
  lemma ModeKeepsIff(s: State, t: int, k: int)
    requires Inv(s) && t in s.threads && s.threads[t].pc == ModeHeld
    ensures NoneLost(Step(s, t, k)) <==> !Stranding(s, t, k)
  {
    hide Shape, Wakeful, NewMode;
    var u := Step(s, t, k);
    forall r ensures Owed(u, r) <==> Owed(s, r) {
      if w :| w in s.threads && WillWake(s, w, r) { assert w != t && w in u.threads && WillWake(u, w, r); }
      if w :| w in u.threads && WillWake(u, w, r) { assert w != t && w in s.threads && WillWake(s, w, r); }
    }
    assert forall r :: r in s.threads ==> (Waiting(u, r) <==> Waiting(s, r));
  }

  /** No step loses a wake-up, except for a stranding change of mode, which always does. */
  lemma StepKeepsIff(s: State, t: int, k: int)
    requires Inv(s) && t in s.threads
    ensures Inv(Step(s, t, k)) <==> !Stranding(s, t, k)
  {
    hide Step, ThreadOk, Shared, WillWake, Waiting, Owed;
    StepShape(s, t, k);
    var u := Step(s, t, k);
    if s.threads[t].pc == ModeHeld {
      ModeKeepsIff(s, t, k);
    } else if Wakeful(u.line) {
      forall r | r in u.threads && Waiting(u, r) ensures Owed(u, r) { FindWaker(s, t, k, r); }
    }
  }

  /** At the test a reader takes what may be read, ends if the master is gone, and queues itself otherwise. */
  lemma ReadDecides(s: State, t: int, k: int)
    requires t in s.threads && s.threads[t].pc == ReadTest && s.queueLock == NOBODY && s.line.bytes >= 0
    ensures t in Step(s, t, k).threads
    ensures var u := Step(s, t, k);
      if !Wakeful(s.line) then u.threads[t].pc == ReadQueued && t in u.queue && u.line == s.line
      else
        && u.threads[t].pc == Idle && u.lock == NOBODY && (s.line.bytes > 0 ==> 0 <= u.line.bytes < s.line.bytes)
        && (u.line.newlines == s.line.newlines || (s.line.canonical && 0 <= u.line.newlines == s.line.newlines - 1))
  {
  }

  /** A reader comes back only when there was something to read or the master is gone. */
  lemma ReadReturns(s: State, t: int, k: int)
    requires t in s.threads && Reading(s.threads[t].pc) && Step(s, t, k).threads[t].pc == Idle
    ensures Wakeful(s.line)
  {
  }

  /** A change of mode sets the mode asked for and leaves the bytes; on entering canonical mode it counts the newlines anew. */
  lemma ModeSets(s: State, t: int, k: int)
    requires t in s.threads && s.threads[t].pc == ModeHeld && s.line.bytes >= 0
    ensures var l := Step(s, t, k).line;
      && l.canonical == (k >= 0) && l.bytes == s.line.bytes && l.open == s.line.open
      && l.newlines == (if k < 0 || s.line.canonical then s.line.newlines else if k <= l.bytes then k else l.bytes)
  {
  }

  /** Only the closing of the master, without open slaves, ends the line. */
  lemma LineEnds(s: State, t: int, k: int)
    requires t in s.threads
    ensures Step(s, t, k).line.open == (s.line.open && !(s.threads[t].pc == CloseHeld && k == 0))
  {
  }

  // ---------------------------------------------------------------- runs

  ghost predicate Boot(s: State) {
    && s.queue == [] && s.lock == NOBODY && s.queueLock == NOBODY
    && NOBODY !in s.threads && forall t :: t in s.threads ==> s.threads[t] == Thread(Running, Idle)
  }

  /** The state after a schedule of (thread, choice) pairs; pairs naming no thread are skipped. */
  function Run(s: State, schedule: seq<(int, int)>): State
    decreases |schedule|
  {
    if schedule == [] then s else Run(Next(s, schedule[0]), schedule[1..])
  }

  function Next(s: State, c: (int, int)): State {
    if c.0 in s.threads then Step(s, c.0, c.1) else s
  }

  /** No change of mode on the way strands a reader. */
  ghost predicate NoneStranded(s: State, schedule: seq<(int, int)>)
    decreases |schedule|
  {
    schedule != [] ==>
      && (schedule[0].0 in s.threads ==> !Stranding(s, schedule[0].0, schedule[0].1))
      && NoneStranded(Next(s, schedule[0]), schedule[1..])
  }

  /** In every interleaving without a stranding change of mode, a reader that sleeps in vain has a waker still to come. */
  lemma {:induction false} RunNoneLost(s: State, schedule: seq<(int, int)>)
    requires Inv(s) && NoneStranded(s, schedule)
    ensures Inv(Run(s, schedule))
    decreases |schedule|
  {
    hide Inv, Step, Stranding;
    if schedule != [] {
      if schedule[0].0 in s.threads { StepKeepsIff(s, schedule[0].0, schedule[0].1); }
      RunNoneLost(Next(s, schedule[0]), schedule[1..]);
    }
  }

  lemma RunFromBoot(s: State, schedule: seq<(int, int)>)
    requires Boot(s) && NoneStranded(s, schedule)
    ensures NoneLost(Run(s, schedule))
  {
    assert Inv(s);
    RunNoneLost(s, schedule);
  }

  /** The state in which thread 1 waits for the end of the line and thread 2 holds the lock to change the mode. */
  function BeforeSwitch(): State {
    State(Line(1, 0, true, true), [1], 2, NOBODY, map[1 := Thread(Blocked, ReadWaiting), 2 := Thread(Running, ModeHeld)])
  }

  function Two(l: Line, queue: seq<int>, lock: int, a: Thread, b: Thread): State {
    State(l, queue, lock, NOBODY, map[1 := a, 2 := b])
  }

  const RESTING: Thread := Thread(Running, Idle)

  lemma ByteBegun()
    ensures Next(Next(Two(Line(0, 0, true, true), [], NOBODY, RESTING, RESTING), (2, 1)), (2, 1))
      == Two(Line(1, 0, true, true), [], 2, RESTING, Thread(Running, WriteHeld(true)))
  {
    hide ReadStep, OtherStep, PassStep;
    var l0, l1 := Line(0, 0, true, true), Line(1, 0, true, true);
    var s1 := Two(l0, [], 2, RESTING, Thread(Running, WriteHeld(false)));
    assert Next(Two(l0, [], NOBODY, RESTING, RESTING), (2, 1)) == s1;
    assert Next(s1, (2, 1)) == Two(l1, [], 2, RESTING, Thread(Running, WriteHeld(true)));
  }

  lemma ByteEnded()
    ensures Next(Next(Two(Line(1, 0, true, true), [], 2, RESTING, Thread(Running, WriteHeld(true))), (2, 0)), (2, 0))
      == Two(Line(1, 0, true, true), [], NOBODY, RESTING, RESTING)
  {
    hide ReadStep, OtherStep, PassStep;
    var l := Line(1, 0, true, true);
    var s3 := Two(l, [], NOBODY, RESTING, Thread(Running, WriteWake(true)));
    assert Next(Two(l, [], 2, RESTING, Thread(Running, WriteHeld(true))), (2, 0)) == s3;
    assert Next(s3, (2, 0)) == Two(l, [], NOBODY, RESTING, RESTING);
  }

  /** Thread 2 queues a byte without a newline. */
  lemma ByteQueued()
    ensures Run(Two(Line(0, 0, true, true), [], NOBODY, RESTING, RESTING), [(2, 1), (2, 1), (2, 0), (2, 0)])
      == Two(Line(1, 0, true, true), [], NOBODY, RESTING, RESTING)
  {
    hide Run, Next;
    ByteBegun();
    ByteEnded();
    Four(Two(Line(0, 0, true, true), [], NOBODY, RESTING, RESTING), (2, 1), (2, 1), (2, 0), (2, 0));
  }

  lemma ReaderQueues()
    ensures Next(Next(Two(Line(1, 0, true, true), [], NOBODY, RESTING, RESTING), (1, 0)), (1, 0))
      == Two(Line(1, 0, true, true), [1], 1, Thread(Running, ReadQueued), RESTING)
  {
    hide WriteStep, OtherStep, PassStep;
    var l := Line(1, 0, true, true);
    var s5 := Two(l, [], 1, Thread(Running, ReadTest), RESTING);
    assert Next(Two(l, [], NOBODY, RESTING, RESTING), (1, 0)) == s5;
    assert Next(s5, (1, 0)) == Two(l, [1], 1, Thread(Running, ReadQueued), RESTING);
  }

  lemma ReaderYields()
    ensures Next(Next(Two(Line(1, 0, true, true), [1], 1, Thread(Running, ReadQueued), RESTING), (1, 0)), (1, 0))
      == Two(Line(1, 0, true, true), [1], NOBODY, Thread(Blocked, ReadWaiting), RESTING)
  {
    hide WriteStep, OtherStep, PassStep, BeginStep;
    var l := Line(1, 0, true, true);
    var s7 := Two(l, [1], 1, Thread(Blocked, ReadBlocked), RESTING);
    assert Next(Two(l, [1], 1, Thread(Running, ReadQueued), RESTING), (1, 0)) == s7;
    assert Next(s7, (1, 0)) == Two(l, [1], NOBODY, Thread(Blocked, ReadWaiting), RESTING);
  }

  /** Thread 1 finds no finished line and goes to sleep. */
  lemma ReaderSleeps()
    ensures Run(Two(Line(1, 0, true, true), [], NOBODY, RESTING, RESTING), [(1, 0), (1, 0), (1, 0), (1, 0)])
      == Two(Line(1, 0, true, true), [1], NOBODY, Thread(Blocked, ReadWaiting), RESTING)
  {
    hide Run, Next;
    ReaderQueues();
    ReaderYields();
    Four(Two(Line(1, 0, true, true), [], NOBODY, RESTING, RESTING), (1, 0), (1, 0), (1, 0), (1, 0));
  }

  /** From boot: a byte without a newline, a reader that goes to sleep, a thread about to change the mode. */
  lemma SwitchReached() returns (schedule: seq<(int, int)>)
    ensures var s := Two(Line(0, 0, true, true), [], NOBODY, RESTING, RESTING); Boot(s) && Run(s, schedule) == BeforeSwitch()
  {
    hide Run;
    var s := Two(Line(0, 0, true, true), [], NOBODY, RESTING, RESTING);
    var a, b := [(2, 1), (2, 1), (2, 0), (2, 0)], [(1, 0), (1, 0), (1, 0), (1, 0)];
    ByteQueued();
    ReaderSleeps();
    RunAppend(s, a, b);
    RunAppend(s, a + b, [(2, 3)]);
    One(Run(s, a + b), (2, 3));
    schedule := a + b + [(2, 3)];
  }

  lemma {:induction false} RunAppend(s: State, a: seq<(int, int)>, b: seq<(int, int)>)
    ensures Run(s, a + b) == Run(Run(s, a), b)
    decreases |a|
  {
    hide Next;
    if a == [] {
      assert a + b == b;
    } else {
      assert (a + b)[1..] == a[1..] + b;
      RunAppend(Next(s, a[0]), a[1..], b);
    }
  }

  lemma One(s: State, c: (int, int))
    ensures Run(s, [c]) == Next(s, c)
  {
    hide Next;
    Follow(s, [c]);
  }

  lemma Four(s: State, a: (int, int), b: (int, int), c: (int, int), d: (int, int))
    ensures Run(s, [a, b, c, d]) == Next(Next(Next(Next(s, a), b), c), d)
  {
    hide Next, Run;
    Follow(s, [a, b, c, d]);
    assert [a, b, c, d][1..] == [b, c, d] && [b, c, d][1..] == [c, d] && [c, d][1..] == [d];
    Follow(Next(s, a), [b, c, d]);
    Follow(Next(Next(s, a), b), [c, d]);
    One(Next(Next(Next(s, a), b), c), d);
  }

  lemma Follow(s: State, schedule: seq<(int, int)>)
    requires schedule != []
    ensures Run(s, schedule) == Run(Next(s, schedule[0]), schedule[1..])
  {
  }

  /** The switch to raw mode makes the byte readable, and the reader sleeps on with nobody to wake it. */
  lemma RawSwitchStrands()
    ensures var u := Step(BeforeSwitch(), 2, -1);
      Wakeful(u.line) && 1 in u.threads && Waiting(u, 1) && !Owed(u, 1) && forall t :: t in u.threads && t != 1 ==> u.threads[t].pc == Idle
  {
  }
}
