/**
 Writers on a pseudoterminal slave that wait for room, as a state machine over the steps between lock operations:
 the master's readers that wake them, and the closing of the master that does not.
 */
module WriterWake {
  import opened Basics
  import P = PtyWake

  datatype RunState = Running | Blocked | Ready

  /** Bytes queued for the master, open slaves, and whether the master is open. */
  datatype Room = Room(bytes: int, slaves: int, open: bool)

  /** A write would not wait: there is room for a byte, or the master is gone. */
  predicate Wakeful(m: Room) { m.bytes < P.CAPACITY || !m.open }

  datatype Pc =
    | Idle
    | WriteTest      // slave writer, pty lock held, at the top of the loop
    | WriteQueued    // entry is on the wait queue
    | WriteBlocked   // state set to BLOCKED, about to re-check
    | WriteWaiting   // lock released, in sched_yield
    | WriteWoken     // running again, entry still queued
    | WriteRelock    // pty lock held again, about to leave the queue
    | WriteAfter     // off the queue, about to look at the ring once more
    | WriteAgain     // no room after all: lock released, at the top of the loop
    | ReadHeld       // master reader, pty lock held
    | ReadWake       // has taken bytes, about to look at the queue
    | ReadDone       // about to release the lock
    | EchoHeld       // master writer that echoes, pty lock held
    | OpenHeld       // slave opener, pty lock held
    | ShutHeld       // slave closer, pty lock held
    | CloseHeld      // master closer, pty lock held
    | Pass(rest: seq<int>)  // the reader inside wait_queue_wake_all, both locks held

  datatype Thread = Thread(state: RunState, pc: Pc)

  datatype State = State(room: Room, queue: seq<int>, lock: int, queueLock: int, threads: map<int, Thread>)

  const NOBODY: int := P.NOBODY

  function Goto(s: State, t: int, pc: Pc): State
    requires t in s.threads
  {
    s.(threads := s.threads[t := s.threads[t].(pc := pc)])
  }

  function SetState(s: State, t: int, r: RunState): State
    requires t in s.threads
  {
    s.(threads := s.threads[t := s.threads[t].(state := r)])
  }

  // ---------------------------------------------------------------- steps

  /** An idle thread begins operation k, if it gets the pty lock. */
  function BeginStep(s: State, t: int, k: int): State
    requires t in s.threads
  {
    if s.lock != NOBODY then s
    else
      var pc := if k == 0 then WriteTest else if k == 1 then ReadHeld else if k == 2 then EchoHeld
        else if k == 3 then OpenHeld else if k == 4 then ShutHeld else CloseHeld;
      Goto(s.(lock := t), t, pc)
  }

  /** Up to k bytes into the ring. */
  function Filled(m: Room, k: int): Room {
    if k <= 0 || m.bytes >= P.CAPACITY then m
    else m.(bytes := if m.bytes + k <= P.CAPACITY then m.bytes + k else P.CAPACITY)
  }

  /** A slave writer: test, queue, block, re-check, yield, take the lock again, leave the queue, look again. */
  function WriteStep(s: State, t: int, k: int): State
    requires t in s.threads
  {
    match s.threads[t].pc
    case WriteTest =>
      if !s.room.open then Goto(s.(lock := NOBODY), t, Idle)
      else if s.room.bytes < P.CAPACITY then Goto(s.(room := Filled(s.room, k), lock := NOBODY), t, Idle)
      else if s.queueLock != NOBODY then s
      else Goto(s.(queue := [t] + s.queue), t, WriteQueued)
    case WriteQueued => Goto(SetState(s, t, Blocked), t, WriteBlocked)
    case WriteBlocked =>
      if Wakeful(s.room) then Goto(SetState(s.(lock := NOBODY), t, Running), t, WriteWoken)
      else Goto(s.(lock := NOBODY), t, WriteWaiting)
    case WriteWaiting =>
      if s.threads[t].state == Ready then Goto(SetState(s, t, Running), t, WriteWoken) else s
    case WriteWoken => if s.lock != NOBODY then s else Goto(s.(lock := t), t, WriteRelock)
    case WriteRelock =>
      if s.queueLock != NOBODY then s
      else Goto(SetState(s.(queue := Without(s.queue, t)), t, Running), t, WriteAfter)
    case WriteAfter =>
      if !s.room.open then Goto(s.(lock := NOBODY), t, Idle)
      else if s.room.bytes < P.CAPACITY then Goto(s.(room := Filled(s.room, k), lock := NOBODY), t, Idle)
      else Goto(s.(lock := NOBODY), t, WriteAgain)
    case WriteAgain => if s.lock != NOBODY then s else Goto(s.(lock := t), t, WriteTest)
    case _ => s
  }

  /** A master reader: takes k bytes, and wakes the waiting writers if it took any. */
  function ReadStep(s: State, t: int, k: int): State
    requires t in s.threads
  {
    match s.threads[t].pc
    case ReadHeld =>
      if s.room.bytes <= 0 || k <= 0 then Goto(s, t, ReadDone)
      else Goto(s.(room := s.room.(bytes := if k <= s.room.bytes then s.room.bytes - k else 0)), t, ReadWake)
    case ReadWake =>
      if s.queue == [] then Goto(s, t, ReadDone)
      else if s.queueLock != NOBODY then s
      else Goto(s.(queueLock := t), t, Pass(s.queue))
    case ReadDone => Goto(s.(lock := NOBODY), t, Idle)
    case _ => s
  }

  /** The master's closing, which ends the line only without open slaves and wakes no writer. */
  function Closed(m: Room): Room { if m.slaves == 0 then m.(open := false) else m }

  /** An echo into the ring, the opening and closing of a slave, and the closing of the master. */
  function OtherStep(s: State, t: int, k: int): State
    requires t in s.threads
  {
    var m := s.room;
    match s.threads[t].pc
    case EchoHeld => Goto(s.(room := Filled(m, k), lock := NOBODY), t, Idle)
    case OpenHeld => Goto(s.(room := m.(slaves := m.slaves + 1), lock := NOBODY), t, Idle)
    case ShutHeld => Goto(s.(room := m.(slaves := if m.slaves > 0 then m.slaves - 1 else m.slaves), lock := NOBODY), t, Idle)
    case CloseHeld => Goto(s.(room := Closed(m), lock := NOBODY), t, Idle)
    case _ => s
  }

  /** One entry of a wake pass, or its end. */
  function PassStep(s: State, t: int): State
    requires t in s.threads && s.threads[t].pc.Pass?
  {
    var rest := s.threads[t].pc.rest;
    if rest == [] then Goto(s.(queueLock := NOBODY), t, ReadDone)
    else
      var r := rest[0];
      var u := if r in s.threads && s.threads[r].state == Blocked then SetState(s, r, Ready) else s;
      Goto(u, t, Pass(rest[1..]))
  }

  predicate Writing(pc: Pc) {
    || pc == WriteTest || pc == WriteQueued || pc == WriteBlocked || pc == WriteWaiting
    || pc == WriteWoken || pc == WriteRelock || pc == WriteAfter || pc == WriteAgain
  }

  predicate Reading(pc: Pc) { pc == ReadHeld || pc == ReadWake || pc == ReadDone }

  function Step(s: State, t: int, k: int): State
    requires t in s.threads
  {
    var pc := s.threads[t].pc;
    if pc == Idle then BeginStep(s, t, k)
    else if Writing(pc) then WriteStep(s, t, k)
    else if Reading(pc) then ReadStep(s, t, k)
    else if pc.Pass? then PassStep(s, t)
    else OtherStep(s, t, k)
  }

  // ---------------------------------------------------------------- the invariant

  predicate HoldsLock(pc: Pc) {
    !(pc == Idle || pc == WriteWaiting || pc == WriteWoken || pc == WriteAgain)
  }

  predicate InQueue(pc: Pc) {
    pc == WriteQueued || pc == WriteBlocked || pc == WriteWaiting || pc == WriteWoken || pc == WriteRelock
  }

  /** What holds of each thread by itself. */
  ghost predicate ThreadOk(s: State, t: int)
    requires t in s.threads
  {
    var h := s.threads[t];
    && (HoldsLock(h.pc) <==> s.lock == t)
    && (h.pc.Pass? <==> s.queueLock == t)
    && (InQueue(h.pc) <==> t in s.queue)
    && (h.state == Blocked ==> h.pc == WriteBlocked || h.pc == WriteWaiting)
    && (h.pc == WriteQueued || h.pc == WriteBlocked ==> !Wakeful(s.room))
    && (h.pc.Pass? ==> forall r :: r in h.pc.rest ==> r in s.queue)
  }

  predicate RoomOk(m: Room) { 0 <= m.bytes <= P.CAPACITY && 0 <= m.slaves }

  ghost predicate Shared(s: State) {
    && NOBODY !in s.threads && (s.lock == NOBODY || s.lock in s.threads) && (s.queueLock == NOBODY || s.queueLock in s.threads)
    && Distinct(s.queue) && (forall t :: t in s.queue ==> t in s.threads) && RoomOk(s.room)
  }

  ghost predicate Shape(s: State) {
    Shared(s) && forall t :: t in s.threads ==> ThreadOk(s, t)
  }

  /** Thread w has taken bytes and has not yet finished the wake pass that will reach r. */
  predicate WillWake(s: State, w: int, r: int)
    requires w in s.threads
  {
    s.threads[w].pc == ReadWake || (s.threads[w].pc.Pass? && r in s.threads[w].pc.rest)
  }

  predicate Waiting(s: State, r: int)
    requires r in s.threads
  {
    s.threads[r] == Thread(Blocked, WriteWaiting)
  }

  ghost predicate Owed(s: State, r: int) {
    exists w :: w in s.threads && WillWake(s, w, r)
  }

  /** No wake-up is lost: a writer that sleeps although it need not has a waker still to come. */
  ghost predicate NoneLost(s: State) {
    Wakeful(s.room) ==> forall r :: r in s.threads && Waiting(s, r) ==> Owed(s, r)
  }

  ghost predicate Inv(s: State) { Shape(s) && NoneLost(s) }

  // ---------------------------------------------------------------- every step keeps the shape

  /** What a step of t leaves of another thread x: its place, its locks and its entry; at most it is woken. */
  ghost predicate Spared(s: State, u: State, t: int, x: int)
    requires t in s.threads && x in s.threads
  {
    && x in u.threads && u.threads[x].pc == s.threads[x].pc
    && (u.threads[x].state == s.threads[x].state || (s.threads[x].state == Blocked && u.threads[x].state == Ready))
    && (u.lock == x <==> s.lock == x) && (u.queueLock == x <==> s.queueLock == x) && (x in u.queue <==> x in s.queue)
    && (u.room != s.room ==> s.lock == t) && (u.queue == s.queue || s.queueLock == NOBODY)
  }

  /** What a step makes of the thread that takes it, and of the shared state. */
  ghost predicate SelfOk(s: State, u: State, t: int) {
    && t in u.threads && ThreadOk(u, t) && u.threads.Keys == s.threads.Keys && RoomOk(u.room)
    && (u.lock == s.lock || u.lock == NOBODY || u.lock == t) && (u.queueLock == s.queueLock || u.queueLock == NOBODY || u.queueLock == t)
    && Distinct(u.queue) && (forall x :: x in u.queue ==> x in s.queue || x == t)
  }

  lemma SparedOk(s: State, u: State, t: int, x: int)
    requires Shape(s) && t in s.threads && x in s.threads && x != t && Spared(s, u, t, x)
    ensures ThreadOk(u, x)
  {
    assert ThreadOk(s, t) && ThreadOk(s, x);
  }

  lemma WriteSpares(s: State, t: int, k: int, x: int)
    requires Shared(s) && t in s.threads && ThreadOk(s, t) && x in s.threads && x != t && Writing(s.threads[t].pc)
    ensures Spared(s, WriteStep(s, t, k), t, x)
  {
    hide Wakeful, Filled;
    WithoutDistinct(s.queue, t);
  }

  lemma OthersSpare(s: State, t: int, k: int, x: int)
    requires Shared(s) && t in s.threads && ThreadOk(s, t) && x in s.threads && x != t && !s.threads[t].pc.Pass?
    ensures s.threads[t].pc == Idle ==> Spared(s, BeginStep(s, t, k), t, x)
    ensures Spared(s, ReadStep(s, t, k), t, x) && Spared(s, OtherStep(s, t, k), t, x)
  {
    hide Wakeful, Filled, Closed;
  }

  lemma PassSpares(s: State, t: int, x: int)
    requires Shared(s) && t in s.threads && ThreadOk(s, t) && x in s.threads && x != t && s.threads[t].pc.Pass?
    ensures Spared(s, PassStep(s, t), t, x)
  {
    hide Wakeful;
  }

  lemma StepSpares(s: State, t: int, k: int, x: int)
    requires Shape(s) && t in s.threads && x in s.threads && x != t
    ensures Spared(s, Step(s, t, k), t, x)
  {
    hide WriteStep, ReadStep, OtherStep, PassStep, BeginStep, Spared, ThreadOk;
    var pc := s.threads[t].pc;
    if Writing(pc) { WriteSpares(s, t, k, x); } else if pc.Pass? { PassSpares(s, t, x); } else { OthersSpare(s, t, k, x); }
  }

  lemma FilledOk(m: Room, k: int)
    requires RoomOk(m)
    ensures RoomOk(Filled(m, k)) && (Wakeful(Filled(m, k)) ==> Wakeful(m))
  {
  }

  lemma WriteSelf(s: State, t: int, k: int)
    requires Shared(s) && t in s.threads && ThreadOk(s, t) && Writing(s.threads[t].pc)
    ensures SelfOk(s, WriteStep(s, t, k), t)
  {
    hide WriteStep, SelfOk, ThreadOk, Shared;
    var pc := s.threads[t].pc;
    if pc == WriteTest || pc == WriteAfter { TestSelf(s, t, k); } else if pc == WriteRelock { RelockSelf(s, t, k); } else { SleepSelf(s, t, k); }
  }

  lemma TestSelf(s: State, t: int, k: int)
    requires Shared(s) && t in s.threads && ThreadOk(s, t) && (s.threads[t].pc == WriteTest || s.threads[t].pc == WriteAfter)
    ensures SelfOk(s, WriteStep(s, t, k), t)
  {
    FilledOk(s.room, k);
    hide Filled, RoomOk;
  }

  lemma SleepSelf(s: State, t: int, k: int)
    requires Shared(s) && t in s.threads && ThreadOk(s, t)
    requires var pc := s.threads[t].pc; pc == WriteQueued || pc == WriteBlocked || pc == WriteWaiting || pc == WriteWoken || pc == WriteAgain
    ensures SelfOk(s, WriteStep(s, t, k), t)
  {
    hide Wakeful, RoomOk;
  }

  lemma RelockSelf(s: State, t: int, k: int)
    requires Shared(s) && t in s.threads && ThreadOk(s, t) && s.threads[t].pc == WriteRelock
    ensures SelfOk(s, WriteStep(s, t, k), t)
  {
    hide Wakeful, RoomOk;
    WithoutDistinct(s.queue, t);
  }

  lemma ReadSelf(s: State, t: int, k: int)
    requires Shared(s) && t in s.threads && ThreadOk(s, t) && Reading(s.threads[t].pc)
    ensures SelfOk(s, ReadStep(s, t, k), t)
  {
    hide Wakeful;
  }

  lemma OtherSelf(s: State, t: int, k: int)
    requires Shared(s) && t in s.threads && ThreadOk(s, t) && !s.threads[t].pc.Pass?
    ensures SelfOk(s, OtherStep(s, t, k), t)
  {
    FilledOk(s.room, k);
    hide Filled, Wakeful;
  }

  lemma BeginSelf(s: State, t: int, k: int)
    requires Shared(s) && t in s.threads && ThreadOk(s, t) && s.threads[t].pc == Idle
    ensures SelfOk(s, BeginStep(s, t, k), t)
  {
    hide Wakeful, RoomOk;
  }

  lemma PassSelf(s: State, t: int)
    requires Shared(s) && t in s.threads && ThreadOk(s, t) && s.threads[t].pc.Pass?
    ensures SelfOk(s, PassStep(s, t), t)
  {
    hide PassStep, SelfOk, ThreadOk, Shared;
    if s.threads[t].pc.rest == [] { PassEnds(s, t); } else { PassGoesOn(s, t); }
  }

  lemma PassEnds(s: State, t: int)
    requires Shared(s) && t in s.threads && ThreadOk(s, t) && s.threads[t].pc.Pass? && s.threads[t].pc.rest == []
    ensures SelfOk(s, PassStep(s, t), t)
  {
    hide Wakeful, RoomOk;
  }

  lemma PassGoesOn(s: State, t: int)
    requires Shared(s) && t in s.threads && ThreadOk(s, t) && s.threads[t].pc.Pass? && s.threads[t].pc.rest != []
    ensures SelfOk(s, PassStep(s, t), t)
  {
    hide Wakeful, RoomOk;
    var rest := s.threads[t].pc.rest;
    assert s.threads[t].pc == Pass(rest);
    assert rest[0] != t;
    var u := PassStep(s, t);
    assert u.threads[t] == s.threads[t].(pc := Pass(rest[1..]));
  }

  /** Every step keeps the locks, the queue and the thread states consistent. */
  lemma StepShape(s: State, t: int, k: int)
    requires Shape(s) && t in s.threads
    ensures Shape(Step(s, t, k)) && Step(s, t, k).threads.Keys == s.threads.Keys
  {
    hide WriteStep, ReadStep, OtherStep, PassStep, BeginStep, Spared, ThreadOk;
    var u, pc := Step(s, t, k), s.threads[t].pc;
    if pc == Idle { BeginSelf(s, t, k); }
    else if Writing(pc) { WriteSelf(s, t, k); }
    else if Reading(pc) { ReadSelf(s, t, k); }
    else if pc.Pass? { PassSelf(s, t); }
    else { OtherSelf(s, t, k); }
    forall x | x in u.threads ensures ThreadOk(u, x) {
      if x != t {
        StepSpares(s, t, k, x);
        SparedOk(s, u, t, x);
      }
    }
  }

  // ---------------------------------------------------------------- when no wake-up is lost

  /** A thread that owes r a wake-up still does after its step, or the step was the wake-up. */
  lemma StillWakes(s: State, t: int, k: int, r: int)
    requires t in s.threads && r in s.threads && r != t && r in s.queue && WillWake(s, t, r) && s.threads[r].state == Blocked
    ensures var u := Step(s, t, k); t in u.threads && r in u.threads && (WillWake(u, t, r) || u.threads[r].state == Ready)
  {
    hide PassStep;
    if s.threads[t].pc.Pass? { StillPasses(s, t, r); }
  }

  lemma StillPasses(s: State, t: int, r: int)
    requires t in s.threads && r in s.threads && r != t && s.threads[r].state == Blocked && s.threads[t].pc.Pass? && r in s.threads[t].pc.rest
    ensures var u := PassStep(s, t); t in u.threads && r in u.threads && (WillWake(u, t, r) || u.threads[r].state == Ready)
  {
    var rest := s.threads[t].pc.rest;
    assert rest == [rest[0]] + rest[1..];
  }

  /** Whoever makes room owes the wake-up; only the closing of the master makes waiting pointless otherwise. */
  lemma NewlyWakeful(s: State, t: int, k: int, r: int)
    requires t in s.threads && RoomOk(s.room) && s.threads[t].pc != CloseHeld && !Wakeful(s.room)
    ensures var u := Step(s, t, k); t in u.threads && (Wakeful(u.room) ==> WillWake(u, t, r))
  {
    hide PassStep, Filled;
    FilledOk(s.room, k);
    if s.threads[t].pc.Pass? { PassRoom(s, t); }
  }

  lemma PassRoom(s: State, t: int)
    requires t in s.threads && s.threads[t].pc.Pass?
    ensures PassStep(s, t).room == s.room && t in PassStep(s, t).threads
  {
  }

  /** Nobody goes to sleep while there is room. */
  lemma NewlyWaiting(s: State, t: int, k: int, r: int)
    requires t in s.threads && r in s.threads && !Waiting(s, r)
    ensures var u := Step(s, t, k); r in u.threads && (Waiting(u, r) ==> !Wakeful(u.room))
  {
    hide Filled, Closed, PassStep, ReadStep, OtherStep, BeginStep;
    var pc := s.threads[t].pc;
    if pc.Pass? { PassKeepsAwake(s, t, r); } else if !Writing(pc) { OthersKeepAwake(s, t, k, r); }
  }

  lemma PassKeepsAwake(s: State, t: int, r: int)
    requires t in s.threads && r in s.threads && !Waiting(s, r) && s.threads[t].pc.Pass?
    ensures var u := PassStep(s, t); r in u.threads && !Waiting(u, r)
  {
  }

  lemma OthersKeepAwake(s: State, t: int, k: int, r: int)
    requires t in s.threads && r in s.threads && !Waiting(s, r) && !s.threads[t].pc.Pass? && !Writing(s.threads[t].pc)
    ensures var u := Step(s, t, k); r in u.threads && !Waiting(u, r)
  {
    hide Filled, Closed, WriteStep;
  }

  /** A closing of the master after which some writer need not wait and nobody is going to tell it. */
  ghost predicate Stranding(s: State, t: int)
    requires t in s.threads
  {
    s.threads[t].pc == CloseHeld && Wakeful(Closed(s.room)) && exists r :: r in s.threads && Waiting(s, r) && !Owed(s, r)
  }

  /** Only the last closing, with no slave open and the ring full, strands a writer. */
  lemma StrandingIs(s: State, t: int)
    requires Inv(s) && t in s.threads && Stranding(s, t)
    ensures s.room == Room(P.CAPACITY, 0, true)
  {
    assert !Wakeful(s.room);
  }

  lemma FindWaker(s: State, t: int, k: int, r: int)
    requires Inv(s) && t in s.threads && r in s.threads && s.threads[t].pc != CloseHeld
    requires var u := Step(s, t, k); r in u.threads && Waiting(u, r) && Wakeful(u.room)
    ensures Owed(Step(s, t, k), r)
  {
    hide Step, HoldsLock, InQueue, Wakeful, RoomOk;
    var u := Step(s, t, k);
    assert ThreadOk(s, t) && ThreadOk(s, r);
    if !Waiting(s, r) { NewlyWaiting(s, t, k, r); }
    if Wakeful(s.room) {
      assert Owed(s, r);
      var w :| w in s.threads && WillWake(s, w, r);
      if w == t {
        WaitingQueued(s, r);
        StillWakes(s, t, k, r);
      } else {
        StepSpares(s, t, k, w);
      }
    } else {
      NewlyWakeful(s, t, k, r);
    }
  }

  lemma WaitingQueued(s: State, r: int)
    requires r in s.threads && Waiting(s, r) && ThreadOk(s, r)
    ensures r in s.queue
  {
  }

  /** The closing of the master wakes no writer, so it keeps the law exactly when every writer it concerns is owed a wake-up. */
  lemma CloseKeepsIff(s: State, t: int, k: int)
    requires Inv(s) && t in s.threads && s.threads[t].pc == CloseHeld
    ensures NoneLost(Step(s, t, k)) <==> !Stranding(s, t)
  {
    hide Shape, Wakeful, Closed;
    var u := Step(s, t, k);
    forall r ensures Owed(u, r) <==> Owed(s, r) {
      if w :| w in s.threads && WillWake(s, w, r) { assert w != t && w in u.threads && WillWake(u, w, r); }
      if w :| w in u.threads && WillWake(u, w, r) { assert w != t && w in s.threads && WillWake(s, w, r); }
    }
    assert forall r :: r in s.threads ==> (Waiting(u, r) <==> Waiting(s, r));
  }

  /** No step loses a wake-up, except for a stranding closing of the master, which always does. */
  lemma StepKeepsIff(s: State, t: int, k: int)
    requires Inv(s) && t in s.threads
    ensures Inv(Step(s, t, k)) <==> !Stranding(s, t)
  {
    hide Step, ThreadOk, Shared, WillWake, Waiting, Owed;
    StepShape(s, t, k);
    var u := Step(s, t, k);
    if s.threads[t].pc == CloseHeld {
      CloseKeepsIff(s, t, k);
    } else if Wakeful(u.room) {
      forall r | r in u.threads && Waiting(u, r) ensures Owed(u, r) { FindWaker(s, t, k, r); }
    }
  }

  /** Whether it has waited or not, a writer puts bytes where there is room, ends if the master is gone, and waits otherwise. */
  lemma WriteDecides(s: State, t: int, k: int)
    requires t in s.threads && (s.threads[t].pc == WriteTest || s.threads[t].pc == WriteAfter) && s.queueLock == NOBODY && RoomOk(s.room)
    ensures t in Step(s, t, k).threads
    ensures var u := Step(s, t, k);
      if !Wakeful(s.room) then u.room == s.room && u.threads[t].pc == (if s.threads[t].pc == WriteTest then WriteQueued else WriteAgain)
      else u.threads[t].pc == Idle && u.lock == NOBODY && u.room.bytes == (if s.room.open && k > 0 then
        if s.room.bytes + k <= P.CAPACITY then s.room.bytes + k else P.CAPACITY else s.room.bytes)
  {
  }

  /** A reader of the master takes what it asks for as far as it is there, and goes on to wake the writers if it took anything. */
  lemma ReadTakes(s: State, t: int, k: int)
    requires t in s.threads && s.threads[t].pc == ReadHeld && RoomOk(s.room)
    ensures t in Step(s, t, k).threads
    ensures var u, n := Step(s, t, k), s.room.bytes;
      && u.room.bytes == (if k <= 0 then n else if k <= n then n - k else 0)
      && (u.threads[t].pc == ReadWake <==> u.room.bytes < n)
  {
  }

  /** A writer comes back only when there was room or the master is gone. */
  lemma WriteReturns(s: State, t: int, k: int)
    requires t in s.threads && Writing(s.threads[t].pc) && Step(s, t, k).threads[t].pc == Idle
    ensures Wakeful(s.room)
  {
  }

  /** An opening adds one slave, a closing takes one away if there is one, and nothing else changes their number. */
  lemma SlavesCounted(s: State, t: int, k: int)
    requires t in s.threads && s.room.slaves >= 0
    ensures var n, pc := s.room.slaves, s.threads[t].pc;
      Step(s, t, k).room.slaves == if pc == OpenHeld then n + 1 else if pc == ShutHeld && n > 0 then n - 1 else n
  {
  }

  /** Only the closing of the master ends the line, and only when no slave is open. */
  lemma LineEnds(s: State, t: int, k: int)
    requires t in s.threads
    ensures Step(s, t, k).room.open == (s.room.open && !(s.threads[t].pc == CloseHeld && s.room.slaves == 0))
  {
  }

  // ---------------------------------------------------------------- runs

  ghost predicate Boot(s: State) {
    && s.queue == [] && s.lock == NOBODY && s.queueLock == NOBODY && RoomOk(s.room)
    && NOBODY !in s.threads && forall t :: t in s.threads ==> s.threads[t] == Thread(Running, Idle)
  }

  /** The state after a schedule of (thread, choice) pairs; pairs naming no thread are skipped. */
  function Run(s: State, schedule: seq<(int, int)>): State
    decreases |schedule|
  {
    if schedule == [] then s else Run(Next(s, schedule[0]), schedule[1..])
  }

  function Next(s: State, c: (int, int)): State {
    if c.0 in s.threads then Step(s, c.0, c.1) else s
  }

  /** No closing of the master on the way strands a writer. */
  ghost predicate NoneStranded(s: State, schedule: seq<(int, int)>)
    decreases |schedule|
  {
    schedule != [] ==>
      && (schedule[0].0 in s.threads ==> !Stranding(s, schedule[0].0))
      && NoneStranded(Next(s, schedule[0]), schedule[1..])
  }

  lemma {:induction false} RunNoneLost(s: State, schedule: seq<(int, int)>)
    requires Inv(s) && NoneStranded(s, schedule)
    ensures Inv(Run(s, schedule))
    decreases |schedule|
  {
    hide Inv, Step, Stranding;
    if schedule != [] {
      if schedule[0].0 in s.threads { StepKeepsIff(s, schedule[0].0, schedule[0].1); }
      RunNoneLost(Next(s, schedule[0]), schedule[1..]);
    }
  }

  /** In every interleaving without a stranding closing, a writer that sleeps in vain has a waker still to come. */
  lemma RunFromBoot(s: State, schedule: seq<(int, int)>)
    requires Boot(s) && NoneStranded(s, schedule)
    ensures NoneLost(Run(s, schedule))
  {
    assert Inv(s);
    RunNoneLost(s, schedule);
  }

  // ---------------------------------------------------------------- a stranded writer

  function Two(m: Room, queue: seq<int>, lock: int, a: Thread, b: Thread): State {
    State(m, queue, lock, NOBODY, map[1 := a, 2 := b])
  }

  const RESTING: Thread := Thread(Running, Idle)
  const FULL: Room := Room(P.CAPACITY, 1, true)

  /** Thread 1 waits for room, the last slave is closed, and thread 2 holds the lock to close the master. */
  function BeforeClose(): State {
    Two(Room(P.CAPACITY, 0, true), [1], 2, Thread(Blocked, WriteWaiting), Thread(Running, CloseHeld))
  }

  /** Thread 2 fills the ring. */
  lemma RingFilled()
    ensures Next(Next(Two(Room(0, 1, true), [], NOBODY, RESTING, RESTING), (2, 0)), (2, P.CAPACITY)) == Two(FULL, [], NOBODY, RESTING, RESTING)
  {
    hide ReadStep, OtherStep, PassStep;
    var s1 := Two(Room(0, 1, true), [], 2, RESTING, Thread(Running, WriteTest));
    assert Next(Two(Room(0, 1, true), [], NOBODY, RESTING, RESTING), (2, 0)) == s1;
    assert Next(s1, (2, P.CAPACITY)) == Two(FULL, [], NOBODY, RESTING, RESTING);
  }

  lemma WriterQueues()
    ensures Next(Next(Two(FULL, [], NOBODY, RESTING, RESTING), (1, 0)), (1, 0)) == Two(FULL, [1], 1, Thread(Running, WriteQueued), RESTING)
  {
    hide ReadStep, OtherStep, PassStep;
    var s3 := Two(FULL, [], 1, Thread(Running, WriteTest), RESTING);
    assert Next(Two(FULL, [], NOBODY, RESTING, RESTING), (1, 0)) == s3;
    assert Next(s3, (1, 0)) == Two(FULL, [1], 1, Thread(Running, WriteQueued), RESTING);
  }

  lemma WriterYields()
    ensures Next(Next(Two(FULL, [1], 1, Thread(Running, WriteQueued), RESTING), (1, 0)), (1, 0))
      == Two(FULL, [1], NOBODY, Thread(Blocked, WriteWaiting), RESTING)
  {
    hide ReadStep, OtherStep, PassStep, BeginStep;
    var s5 := Two(FULL, [1], 1, Thread(Blocked, WriteBlocked), RESTING);
    assert Next(Two(FULL, [1], 1, Thread(Running, WriteQueued), RESTING), (1, 0)) == s5;
    assert Next(s5, (1, 0)) == Two(FULL, [1], NOBODY, Thread(Blocked, WriteWaiting), RESTING);
  }

  /** Thread 1 finds no room and goes to sleep. */
  lemma WriterSleeps()
    ensures Next(Next(Next(Next(Two(FULL, [], NOBODY, RESTING, RESTING), (1, 0)), (1, 0)), (1, 0)), (1, 0))
      == Two(FULL, [1], NOBODY, Thread(Blocked, WriteWaiting), RESTING)
  {
    hide Next;
    WriterQueues();
    WriterYields();
  }

  /** Thread 2 closes the slave and takes the lock to close the master. */
  lemma SlaveShut()
    ensures Next(Next(Next(Two(FULL, [1], NOBODY, Thread(Blocked, WriteWaiting), RESTING), (2, 4)), (2, 0)), (2, 5)) == BeforeClose()
  {
    hide WriteStep, ReadStep, PassStep;
    var w := Thread(Blocked, WriteWaiting);
    var s7, s8 := Two(FULL, [1], 2, w, Thread(Running, ShutHeld)), Two(Room(P.CAPACITY, 0, true), [1], NOBODY, w, RESTING);
    assert Next(Two(FULL, [1], NOBODY, w, RESTING), (2, 4)) == s7;
    assert Next(s7, (2, 0)) == s8;
    assert Next(s8, (2, 5)) == BeforeClose();
  }

  lemma Follow(s: State, c: (int, int), rest: seq<(int, int)>)
    ensures Run(s, [c] + rest) == Run(Next(s, c), rest)
  {
    hide Next;
    assert ([c] + rest)[1..] == rest;
  }

  /** From boot with an empty ring and one slave: a full ring, a writer asleep, and the master about to close. */
  lemma CloseReached() returns (schedule: seq<(int, int)>)
    ensures var s := Two(Room(0, 1, true), [], NOBODY, RESTING, RESTING); Boot(s) && Run(s, schedule) == BeforeClose()
  {
    hide Run, Next;
    var s := Two(Room(0, 1, true), [], NOBODY, RESTING, RESTING);
    RingFilled();
    WriterSleeps();
    SlaveShut();
    var s1 := Next(s, (2, 0));
    var s2 := Next(s1, (2, P.CAPACITY));
    var s3 := Next(s2, (1, 0));
    var s4 := Next(s3, (1, 0));
    var s5 := Next(s4, (1, 0));
    var s6 := Next(s5, (1, 0));
    var s7 := Next(s6, (2, 4));
    var s8 := Next(s7, (2, 0));
    var a := [(2, 5)];
    Follow(s8, (2, 5), []);
    assert a == [(2, 5)] + [];
    Empty(BeforeClose());
    var b := [(2, 0)] + a; Follow(s7, (2, 0), a);
    var c := [(2, 4)] + b; Follow(s6, (2, 4), b);
    var d := [(1, 0)] + c; Follow(s5, (1, 0), c);
    var e := [(1, 0)] + d; Follow(s4, (1, 0), d);
    var f := [(1, 0)] + e; Follow(s3, (1, 0), e);
    var g := [(1, 0)] + f; Follow(s2, (1, 0), f);
    var h := [(2, P.CAPACITY)] + g; Follow(s1, (2, P.CAPACITY), g);
    schedule := [(2, 0)] + h;
    Follow(s, (2, 0), h);
  }

  lemma Empty(s: State)
    ensures Run(s, []) == s
  {
  }

  /** The closing makes waiting pointless, and the writer sleeps on with nobody to wake it. */
  lemma CloseStrands()
    ensures var u := Step(BeforeClose(), 2, 0);
      Wakeful(u.room) && 1 in u.threads && Waiting(u, 1) && !Owed(u, 1) && forall t :: t in u.threads && t != 1 ==> u.threads[t].pc == Idle
  {
  }
}
