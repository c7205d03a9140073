/**
 A processor's run queue: a circular list of threads, the choice of the next one to run, and how long a
 ready thread can be made to wait.
 */
module RunQueue {
  import opened Basics

  datatype RunState = Ready | Running | Sleeping | Blocked

  predicate Runnable(s: RunState) { s == Ready || s == Running }

  /** The position after i in a ring of n. */
  function After(n: int, i: int): int { if i + 1 < n then i + 1 else 0 }

  /** Each thread's next pointer leads to the thread after it in the ring. */
  ghost predicate Ring(next: map<int, int>, ring: seq<int>) {
    && Distinct(ring)
    && (forall i :: 0 <= i < |ring| ==> ring[i] in next && next[ring[i]] == ring[After(|ring|, i)])
  }

  class Cpu {
    const idle: int
    var head: int
    var empty: bool
    var next: map<int, int>
    var state: map<int, RunState>
    var current: int
    ghost var ring: seq<int>

    /** The list from the head round is one cycle through exactly the threads of the ring. */
    ghost predicate Valid()
      reads this
    {
      && Ring(next, ring) && (empty <==> ring == []) && (!empty ==> head == ring[0])
      && Distinct(ring) && (forall j :: 0 <= j < |ring| ==> ring[j] in state)
    }

    /** The idle thread is in the ring, at its head: there is always something to run. */
    ghost predicate HasIdle()
      reads this
    {
      ring != [] && ring[0] == idle
    }

    /** A processor comes up with its idle thread running. */
    constructor (idle: int)
      ensures Valid() && HasIdle() && this.idle == idle && ring == [idle] && current == idle && state == map[idle := Running]
    {
      this.idle := idle;
      head, empty, next, state, current, ring := idle, false, map[idle := idle], map[idle := Running], idle, [idle];
    }

    /** Appends a thread before the head, after walking to the tail. */
    method Enqueue(t: int, s: RunState)
      requires Valid() && t !in ring
      modifies this
      ensures Valid() && ring == old(ring) + [t] && state == old(state)[t := s] && current == old(current) && (old(HasIdle()) ==> HasIdle())
    {
      state := state[t := s];
      if empty {
        head, empty := t, false;
        next := next[t := t];
        ring := [t];
        return;
      }
      var tail := head;
      ghost var i := 0;
      while next[tail] != head
        invariant 0 <= i < |ring| && tail == ring[i]
        decreases |ring| - i
      {
        i := i + 1;
        tail := next[tail];
      }
      assert i == |ring| - 1;
      next := next[tail := t][t := head];
      ghost var before := ring;
      ring := ring + [t];
      forall k | 0 <= k < |ring| ensures ring[k] in next && next[ring[k]] == ring[After(|ring|, k)] {
        if k < |before| - 1 { assert before[k] != before[|before| - 1]; }
      }
    }

    /** The thread whose next pointer leads to t, found by walking from the head. */
    method FindPrevious(t: int, ghost i: int) returns (prev: int, ghost j: int)
      requires Valid() && 0 <= i < |ring| && ring[i] == t
      ensures 0 <= j < |ring| && prev == ring[j] && After(|ring|, j) == i
    {
      prev, j := head, 0;
      while next[prev] != t
        invariant 0 <= j < |ring| && prev == ring[j] && (i == 0 || j < i)
        decreases |ring| - j
      {
        j := j + 1;
        prev := next[prev];
      }
      Predecessor(next, ring, i, j);
    }

    /** Takes a thread out, after finding its predecessor; the head moves on if it was the head. */
    method Remove(t: int)
      requires Valid() && t in ring
      modifies `head, `empty, `next, `ring
      ensures Valid()
      ensures ring == Without(old(ring), t) && (old(HasIdle()) && t != idle ==> HasIdle())
    {
      hide Without;
      ghost var i :| 0 <= i < |ring| && ring[i] == t;
      WithoutIs(ring, i);
      if next[t] == t {
        SelfLoop(next, ring, i);
        empty := true;
        ring := [];
        return;
      }
      ghost var j;
      var prev;
      prev, j := FindPrevious(t, i);
      next := next[prev := next[t]];
      if head == t { head := next[t]; }
      Shrunk(old(next), ring, i, j);
      ShrunkMembers(ring, i);
      ring := ring[..i] + ring[i + 1..];
    }

    /** Whether a thread is in this processor's ring, by walking once round it. */
    method Contains(t: int) returns (found: bool)
      requires Valid()
      ensures found <==> t in ring
    {
      if empty { return false; }
      var curr := head;
      ghost var i := 0;
      while curr != t
        invariant 0 <= i < |ring| && curr == ring[i] && forall j :: 0 <= j < i ==> ring[j] != t
        decreases |ring| - i
      {
        curr := next[curr];
        i := i + 1;
        if curr == head { return false; }
      }
      found := true;
    }

    /** Reaping takes exactly that thread out of the ring, if it is there and is not the idle thread. */
    method Reap(t: int)
      requires Valid() && HasIdle()
      modifies `head, `empty, `next, `ring
      ensures Valid() && HasIdle()
      ensures forall u :: u in ring <==> u in old(ring) && (u != t || t == idle)
    {
      hide Ring, Without;
      if t == idle { return; }
      var found := Contains(t);
      if !found { return; }
      WithoutDistinct(ring, t);
      Remove(t);
    }

    /** Wakes the threads whose timers have run out, then switches to the first runnable thread after this one. */
    method Yield(expired: set<int>, ghost i: int)
      requires Valid() && 0 <= i < |ring| && ring[i] == current
      modifies `state, `current
      ensures Valid() && var woken := Wake(old(state), ring, expired, i, 1); var j := Scan(ring, woken, i, 1);
        current == ring[j] && state == if j == i then woken else Switched(woken, old(current), current)
      ensures forall t :: t in old(state) ==> state[t] == Outcome(old(state), ring, expired, old(current), current, t)
      ensures current != old(current) ==> Runnable(Woken(old(state), ring, expired, old(current), current))
      ensures current == old(current) ==> forall t :: t in ring && t != current ==> !Runnable(Woken(old(state), ring, expired, current, t))
    {
      hide Ring;
      WakeExpired(expired, i);
      Neighbour(next, ring, i, 1);
      var t := next[current];
      ghost var k := 1;
      while t != current && !Runnable(state[t])
        invariant Valid() && state == Wake(old(state), ring, expired, i, 1) && current == old(current)
        invariant 1 <= k <= |ring| && t == ring[Pos(|ring|, i, k)]
        invariant Scan(ring, state, i, 1) == Scan(ring, state, i, k)
        decreases |ring| - k
      {
        LastPlace(ring, i, k);
        Neighbour(next, ring, i, k + 1);
        t := next[t];
        k := k + 1;
      }
      LastPlace(ring, i, k);
      YieldOutcome(old(state), ring, expired, i);
      if t != current {
        state := Switched(state, current, t);
        current := t;
      }
    }

    /** Walks the ring from the next thread on and readies the sleepers whose time has come. */
    method WakeExpired(expired: set<int>, ghost i: int)
      requires Valid() && 0 <= i < |ring| && ring[i] == current
      modifies `state
      ensures Valid() && state == Wake(old(state), ring, expired, i, 1)
    {
      hide Ring;
      Neighbour(next, ring, i, 1);
      var first := next[current];
      var scan := first;
      ghost var k := 1;
      while true
        invariant 1 <= k <= Max(1, |ring| - 1) && scan == ring[Pos(|ring|, i, k)]
        invariant state.Keys == old(state).Keys && Wake(old(state), ring, expired, i, 1) == Wake(state, ring, expired, i, k)
        decreases |ring| - k
      {
        if scan in expired && (state[scan] == Sleeping || state[scan] == Blocked) { state := state[scan := Ready]; }
        if |ring| > 1 { Neighbour(next, ring, i, k + 1); } else { Neighbour(next, ring, i, 1); }
        scan := next[scan];
        k := k + 1;
        if |ring| > 1 { LastPlace(ring, i, k); }
        if scan == first || scan == current { break; }
      }
    }
  }

  /** One thread's state once its timer has been looked at. */
  function WakeOne(state: map<int, RunState>, expired: set<int>, t: int): map<int, RunState> {
    if t in expired && t in state && (state[t] == Sleeping || state[t] == Blocked) then state[t := Ready] else state
  }

  /** The states once the threads from k places after i on have been looked at. */
  function Wake(state: map<int, RunState>, ring: seq<int>, expired: set<int>, i: int, k: int): (r: map<int, RunState>)
    requires 0 <= i < |ring| && k >= 1
    ensures r.Keys == state.Keys
    decreases |ring| - k
  {
    if k > Max(1, |ring| - 1) then state else Wake(WakeOne(state, expired, ring[Pos(|ring|, i, k)]), ring, expired, i, k + 1)
  }

  /** What looking at the timers makes of a thread: ready, if it sleeps in the ring, is not the running one, and its time has come. */
  function Woken(state: map<int, RunState>, ring: seq<int>, expired: set<int>, current: int, t: int): RunState
    requires t in state
  {
    if t in ring && (t != current || |ring| == 1) && t in expired && !Runnable(state[t]) then Ready else state[t]
  }

  /** What a yield from one thread to another makes of a thread. */
  function Outcome(state: map<int, RunState>, ring: seq<int>, expired: set<int>, from: int, to: int, t: int): RunState
    requires t in state
  {
    var w := Woken(state, ring, expired, from, t);
    if to == from then w else if t == to then Running else if t == from && w == Running then Ready else w
  }

  /** Waking looks at each place from k on once: the expired sleepers there are ready, all other threads are as they were. */
  lemma {:induction false} WakeFrom(state: map<int, RunState>, ring: seq<int>, expired: set<int>, i: int, k: int, x: int)
    requires 0 <= i < |ring| && k >= 1 && x in state
    ensures var seen := exists m :: k <= m <= Max(1, |ring| - 1) && ring[Pos(|ring|, i, m)] == x;
      Wake(state, ring, expired, i, k)[x] == if seen && x in expired && !Runnable(state[x]) then Ready else state[x]
    decreases |ring| - k
  {
    if k <= Max(1, |ring| - 1) {
      WakeFrom(WakeOne(state, expired, ring[Pos(|ring|, i, k)]), ring, expired, i, k + 1, x);
    }
  }

  /** The walk wakes exactly the expired sleepers of the ring, the running thread aside. */
  lemma WakeIs(state: map<int, RunState>, ring: seq<int>, expired: set<int>, i: int, x: int)
    requires Distinct(ring) && 0 <= i < |ring| && x in state
    ensures Wake(state, ring, expired, i, 1)[x] == Woken(state, ring, expired, ring[i], x)
  {
    WakeFrom(state, ring, expired, i, 1, x);
    if x in ring && (x != ring[i] || |ring| == 1) {
      var j :| 0 <= j < |ring| && ring[j] == x;
      var m := if |ring| == 1 then 1 else Distance(|ring|, i, j);
      assert Pos(|ring|, i, m) == j;
    }
  }

  /** What a yield leaves: the thread it takes is runnable, and it stays only if no other one is. */
  lemma YieldOutcome(state: map<int, RunState>, ring: seq<int>, expired: set<int>, i: int)
    requires Distinct(ring) && 0 <= i < |ring| && forall j :: 0 <= j < |ring| ==> ring[j] in state
    ensures forall x :: x in state ==> Wake(state, ring, expired, i, 1)[x] == Woken(state, ring, expired, ring[i], x)
    ensures var y := Scan(ring, Wake(state, ring, expired, i, 1), i, 1);
      && (y != i ==> Runnable(Woken(state, ring, expired, ring[i], ring[y])))
      && (y == i ==> forall t :: t in ring && t != ring[i] ==> !Runnable(Woken(state, ring, expired, ring[i], t)))
  {
    hide Wake, Woken, Scan;
    forall x | x in state ensures Wake(state, ring, expired, i, 1)[x] == Woken(state, ring, expired, ring[i], x) {
      WakeIs(state, ring, expired, i, x);
    }
    var woken := Wake(state, ring, expired, i, 1);
    var y := Scan(ring, woken, i, 1);
    ScanChooses(ring, woken, i, 1);
    if y == i {
      forall t | t in ring && t != ring[i] ensures !Runnable(woken[t]) {
        var j :| 0 <= j < |ring| && ring[j] == t;
        assert Pos(|ring|, i, Distance(|ring|, i, j)) == j;
      }
    }
  }

  /** The choice is a runnable thread, or the running one when no other from there on is. */
  lemma {:induction false} ScanChooses(ring: seq<int>, state: map<int, RunState>, c: int, k: int)
    requires 0 <= c < |ring| && 1 <= k <= |ring| && forall j :: 0 <= j < |ring| ==> ring[j] in state
    ensures var y := Scan(ring, state, c, k);
      && (y == c || Runnable(state[ring[y]]))
      && (y == c ==> forall m :: k <= m < |ring| ==> !Runnable(state[ring[Pos(|ring|, c, m)]]))
    decreases |ring| - k
  {
    if k < |ring| && !Runnable(state[ring[Pos(|ring|, c, k)]]) { ScanChooses(ring, state, c, k + 1); }
  }

  function Switched(state: map<int, RunState>, from: int, to: int): map<int, RunState>
    requires from in state
  {
    state[from := if state[from] == Running then Ready else state[from]][to := Running]
  }

  /** Following the next pointer from k - 1 places after i leads to k places after i. */
  lemma Neighbour(next: map<int, int>, ring: seq<int>, i: int, k: int)
    requires Ring(next, ring) && 0 <= i < |ring| && 1 <= k <= |ring|
    ensures ring[Pos(|ring|, i, k - 1)] in next && next[ring[Pos(|ring|, i, k - 1)]] == ring[Pos(|ring|, i, k)]
  {
    hide Distinct;
    AfterPos(|ring|, i, k);
    hide Pos, After;
    var j := Pos(|ring|, i, k - 1);
    assert ring[j] in next && next[ring[j]] == ring[After(|ring|, j)];
  }

  lemma AfterPos(n: int, i: int, k: int)
    requires 0 <= i < n && 1 <= k <= n
    ensures 0 <= Pos(n, i, k - 1) < n && 0 <= Pos(n, i, k) < n && After(n, Pos(n, i, k - 1)) == Pos(n, i, k)
  {
  }

  /** The walk is back at its start after exactly n places. */
  lemma LastPlace(ring: seq<int>, i: int, k: int)
    requires Distinct(ring) && 0 <= i < |ring| && 1 <= k <= |ring|
    ensures ring[Pos(|ring|, i, k)] == ring[i] <==> k == |ring|
    ensures k > 1 && |ring| > 1 ==> ring[Pos(|ring|, i, k)] != ring[Pos(|ring|, i, 1)]
  {
  }

  /** The position k places after i. */
  function Pos(n: int, i: int, k: int): int { if i + k < n then i + k else i + k - n }

  /** The first runnable thread at k or more places after i; i itself if there is none. */
  function Scan(ring: seq<int>, state: map<int, RunState>, i: int, k: int): (r: int)
    requires 0 <= i < |ring| && 1 <= k <= |ring| && forall j :: 0 <= j < |ring| ==> ring[j] in state
    ensures 0 <= r < |ring|
    decreases |ring| - k
  {
    if k == |ring| then i
    else if Runnable(state[ring[Pos(|ring|, i, k)]]) then Pos(|ring|, i, k)
    else Scan(ring, state, i, k + 1)
  }

  /** Removing position i, whose predecessor is j, leaves a ring. */
  lemma Shrunk(next: map<int, int>, ring: seq<int>, i: int, j: int)
    requires Ring(next, ring) && 0 <= i < |ring| && 0 <= j < |ring| && After(|ring|, j) == i && |ring| >= 2
    ensures Ring(next[ring[j] := next[ring[i]]], ring[..i] + ring[i + 1..])
    ensures i == 0 ==> next[ring[i]] == (ring[..i] + ring[i + 1..])[0]
  {
    var r, n := ring[..i] + ring[i + 1..], |ring|;
    ShrunkMembers(ring, i);
    forall k | 0 <= k < n - 1 ensures r[k] in next[ring[j] := next[ring[i]]] && next[ring[j] := next[ring[i]]][r[k]] == r[After(n - 1, k)] {
      ShrunkAt(next, ring, i, j, k);
    }
    ShrunkDistinct(ring, i);
  }

  lemma ShrunkMembers(ring: seq<int>, i: int)
    requires 0 <= i < |ring|
    ensures var r := ring[..i] + ring[i + 1..]; |r| == |ring| - 1 && forall k :: 0 <= k < |r| ==> r[k] == ring[Old(i, k)]
  {
  }

  lemma ShrunkDistinct(ring: seq<int>, i: int)
    requires Distinct(ring) && 0 <= i < |ring|
    ensures Distinct(ring[..i] + ring[i + 1..])
  {
    ShrunkMembers(ring, i);
  }

  /** The k-th thread of the shrunken ring, by its old position, points to the next one there. */
  lemma ShrunkAt(next: map<int, int>, ring: seq<int>, i: int, j: int, k: int)
    requires Ring(next, ring) && 0 <= i < |ring| && 0 <= j < |ring| && After(|ring|, j) == i && 0 <= k < |ring| - 1
    ensures var o, e := Old(i, k), Old(i, After(|ring| - 1, k)); var m := next[ring[j] := next[ring[i]]];
      ring[o] in m && m[ring[o]] == ring[e]
  {
    var n, o, e := |ring|, Old(i, k), Old(i, After(|ring| - 1, k));
    if o == j {
      assert After(n, i) == e;
    } else {
      assert After(n, o) == e;
      assert ring[o] != ring[j];
    }
  }

  /** Where position k was before position i was taken out. */
  function Old(i: int, k: int): int { if k < i then k else k + 1 }

  // ---------------------------------------------------------------- bounded waiting

  /** How many places x lies after c. */
  function Distance(n: int, c: int, x: int): int { if x > c then x - c else x - c + n }

  /** The choice never goes past a runnable thread. */
  lemma {:induction false} ScanStops(ring: seq<int>, state: map<int, RunState>, c: int, k: int, x: int)
    requires 0 <= c < |ring| && 0 <= x < |ring| && x != c && 1 <= k <= Distance(|ring|, c, x)
    requires (forall j :: 0 <= j < |ring| ==> ring[j] in state) && Runnable(state[ring[x]])
    ensures var y := Scan(ring, state, c, k); y == x || (y != c && Distance(|ring|, y, x) < Distance(|ring|, c, x))
    decreases |ring| - k
  {
    if k < Distance(|ring|, c, x) && !Runnable(state[ring[Pos(|ring|, c, k)]]) { ScanStops(ring, state, c, k + 1, x); }
  }

  /** What happens to a run queue: a yield that finds the threads in these states, or a thread leaves or joins. */
  datatype Event = Turn(found: map<int, RunState>) | Leave(t: int) | Join(t: int)

  /** The ring and the running thread. */
  datatype Queue = Queue(ring: seq<int>, current: int)

  ghost predicate QueueOk(q: Queue) { Distinct(q.ring) && q.current in q.ring }

  /** The place of a thread in the ring. */
  function Place(ring: seq<int>, t: int): (i: int)
    requires t in ring
    ensures 0 <= i < |ring| && ring[i] == t
  {
    if ring[0] == t then 0 else 1 + Place(ring[1..], t)
  }

  /** An event that may happen while thread x waits: x stays runnable and neither it nor the running thread leaves. */
  ghost predicate Allowed(q: Queue, e: Event, x: int) {
    match e
    case Turn(found) => x in found && Runnable(found[x]) && forall t :: t in q.ring ==> t in found
    case Leave(t) => t in q.ring && t != x && t != q.current
    case Join(t) => t !in q.ring
  }

  ghost function Apply(q: Queue, e: Event, x: int): Queue
    requires QueueOk(q) && Allowed(q, e, x)
  {
    match e
    case Turn(found) => q.(current := q.ring[Scan(q.ring, found, Place(q.ring, q.current), 1)])
    case Leave(t) => q.(ring := Without(q.ring, t))
    case Join(t) => q.(ring := q.ring + [t])
  }

  /** How many places thread x lies behind the running one. */
  ghost function Behind(q: Queue, x: int): int
    requires QueueOk(q) && x in q.ring
  {
    Distance(|q.ring|, Place(q.ring, q.current), Place(q.ring, x))
  }

  lemma {:induction false} WithoutIs(s: seq<int>, k: int)
    requires Distinct(s) && 0 <= k < |s|
    ensures Without(s, s[k]) == s[..k] + s[k + 1..]
  {
    if k > 0 {
      WithoutIs(s[1..], k - 1);
      assert s[1..][..k - 1] == s[1..k] && [s[0]] + s[1..k] == s[..k] && s[1..][k..] == s[k + 1..];
    }
  }

  /** A yield brings the processor to x or nearer to it. */
  lemma TurnNearer(q: Queue, e: Event, x: int)
    requires QueueOk(q) && x in q.ring && x != q.current && e.Turn? && Allowed(q, e, x)
    ensures var r := Apply(q, e, x); QueueOk(r) && r.ring == q.ring && (r.current == x || Behind(r, x) < Behind(q, x))
  {
    var c, k := Place(q.ring, q.current), Place(q.ring, x);
    ScanStops(q.ring, e.found, c, 1, k);
    var y := Scan(q.ring, e.found, c, 1);
    PlaceIs(q.ring, y);
  }

  /** A thread that leaves brings the processor no further from x. */
  lemma LeaveNearer(q: Queue, e: Event, x: int)
    requires QueueOk(q) && x in q.ring && x != q.current && e.Leave? && Allowed(q, e, x)
    ensures var r := Apply(q, e, x); QueueOk(r) && x in r.ring && r.current == q.current && Behind(r, x) <= Behind(q, x)
  {
    hide Distinct, Without, Distance;
    var r, k := Apply(q, e, x), Place(q.ring, e.t);
    WithoutDistinct(q.ring, e.t);
    WithoutIs(q.ring, k);
    Shifted(q.ring, r.ring, k, q.current);
    Shifted(q.ring, r.ring, k, x);
    CloserUp(|q.ring|, Place(q.ring, q.current), Place(q.ring, x), k);
  }

  /** Where position i goes when position k is taken out. */
  function Shift(i: int, k: int): int { if i < k then i else i - 1 }

  lemma CloserUp(n: int, c: int, x: int, k: int)
    requires 0 <= c < n && 0 <= x < n && 0 <= k < n && c != x && k != c && k != x
    ensures Distance(n - 1, Shift(c, k), Shift(x, k)) <= Distance(n, c, x)
  {
  }

  lemma Shifted(ring: seq<int>, r: seq<int>, k: int, t: int)
    requires Distinct(ring) && 0 <= k < |ring| && r == ring[..k] + ring[k + 1..] && t in ring && t != ring[k] && Distinct(r)
    ensures t in r && Place(r, t) == Shift(Place(ring, t), k)
  {
    hide Distinct, Place;
    var i := Place(ring, t);
    assert r[Shift(i, k)] == t;
    PlaceIs(r, Shift(i, k));
  }

  /** In a ring without repetitions a thread has one place. */
  lemma PlaceIs(r: seq<int>, j: int)
    requires Distinct(r) && 0 <= j < |r|
    ensures Place(r, r[j]) == j
  {
    hide Place;
  }

  /** A thread that joins brings the processor at most one place further from x. */
  lemma JoinFurther(q: Queue, e: Event, x: int)
    requires QueueOk(q) && x in q.ring && x != q.current && e.Join? && Allowed(q, e, x)
    ensures var r := Apply(q, e, x); QueueOk(r) && x in r.ring && r.current == q.current && Behind(r, x) <= Behind(q, x) + 1
  {
    var r := Apply(q, e, x);
    PlaceIs(r.ring, Place(q.ring, x));
    PlaceIs(r.ring, Place(q.ring, q.current));
  }

  /** A history of the queue under events that may happen while x waits. */
  ghost predicate History(qs: seq<Queue>, es: seq<Event>, x: int) {
    && |qs| == |es| + 1 && QueueOk(qs[0]) && x in qs[0].ring
    && forall i :: 0 <= i < |es| ==> QueueOk(qs[i]) && Allowed(qs[i], es[i], x) && qs[i + 1] == Apply(qs[i], es[i], x)
  }

  function Turns(es: seq<Event>): nat {
    if es == [] then 0 else Turns(es[..|es| - 1]) + if es[|es| - 1].Turn? then 1 else 0
  }

  function Joins(es: seq<Event>): nat {
    if es == [] then 0 else Joins(es[..|es| - 1]) + if es[|es| - 1].Join? then 1 else 0
  }

  /** While x has not run, every yield is paid for by the places it lay behind and the threads that joined. */
  lemma {:induction false} WaitPaid(qs: seq<Queue>, es: seq<Event>, x: int)
    requires History(qs, es, x) && forall i :: 0 <= i <= |es| ==> qs[i].current != x
    ensures QueueOk(qs[|es|]) && x in qs[|es|].ring && Turns(es) + Behind(qs[|es|], x) <= Behind(qs[0], x) + Joins(es)
    decreases |es|
  {
    hide QueueOk, Allowed, Apply, Behind;
    if es != [] {
      var n := |es| - 1;
      WaitPaid(qs[..n + 1], es[..n], x);
      var e := es[n];
      if e.Turn? { TurnNearer(qs[n], e, x); } else if e.Leave? { LeaveNearer(qs[n], e, x); } else { JoinFurther(qs[n], e, x); }
    }
  }

  /**
   Bounded waiting: whatever the other threads do, and whichever of them leave or join, a thread that stays runnable is
   switched to within as many yields as it lies behind the running one, plus one for each thread that joins meanwhile.
   */
  lemma BoundedWait(qs: seq<Queue>, es: seq<Event>, x: int)
    requires History(qs, es, x) && qs[0].current != x && Turns(es) >= Behind(qs[0], x) + Joins(es)
    ensures exists i :: 0 <= i <= |es| && qs[i].current == x
    ensures Behind(qs[0], x) <= |qs[0].ring| - 1
  {
    if forall i :: 0 <= i <= |es| ==> qs[i].current != x {
      WaitPaid(qs, es, x);
    }
  }

  lemma SelfLoop(next: map<int, int>, ring: seq<int>, i: int)
    requires Ring(next, ring) && 0 <= i < |ring| && next[ring[i]] == ring[i]
    ensures |ring| == 1
  {
  }

  lemma Predecessor(next: map<int, int>, ring: seq<int>, i: int, j: int)
    requires Ring(next, ring) && 0 <= i < |ring| && 0 <= j < |ring| && next[ring[j]] == ring[i]
    ensures After(|ring|, j) == i
  {
  }
}
