/** The borrowed-object pool: the object its methods update under a mutex, and the protocol that its
    callers run with a condition variable, as steps of many threads in any order. */
module ObjectPool {

  /** Objects by the order of their creation, threads by name. */
  type Object = nat
  type Thread = nat

  // ----- the pool

  datatype Pool = Pool(maxSize: nat, allocatedSize: nat, borrowedSize: int, objects: seq<Object>)

  datatype Outcome = Got(item: Object) | Full

  function TakeLast(p: Pool): (Pool, Outcome)
    requires p.objects != []
  {
    var last := |p.objects| - 1;
    (p.(objects := p.objects[..last], borrowedSize := p.borrowedSize + 1), Got(p.objects[last]))
  }

  /** The start of both ways to borrow: an idle object, else a new one if the size allows. */
  function Borrow(p: Pool): (Pool, Outcome) {
    if p.objects != [] then TakeLast(p)
    else if p.maxSize == 0 || p.allocatedSize < p.maxSize then
      (p.(allocatedSize := p.allocatedSize + 1, borrowedSize := p.borrowedSize + 1), Got(p.allocatedSize))
    else (p, Full)
  }

  /** What a waiter does when it runs again. */
  function Resume(p: Pool): (Pool, Outcome) {
    if p.objects != [] then TakeLast(p) else (p, Full)
  }

  function GiveBack(p: Pool, o: Object): Pool {
    p.(objects := p.objects + [o], borrowedSize := p.borrowedSize - 1)
  }

  /** The object with its fields; every method is one critical section. */
  class BorrowedObjectPool {
    const maxSize: nat
    var allocatedSize: nat
    var borrowedSize: int
    var objects: seq<Object>

    constructor (maxSize: nat)
      ensures View() == Pool(maxSize, 0, 0, [])
    {
      this.maxSize := maxSize;
      allocatedSize, borrowedSize, objects := 0, 0, [];
    }

    function View(): Pool
      reads this
    {
      Pool(maxSize, allocatedSize, borrowedSize, objects)
    }

    method BorrowFromObjects() returns (o: Object)
      requires objects != []
      modifies `objects, `borrowedSize
      ensures (View(), Got(o)) == TakeLast(old(View()))
    {
      o := objects[|objects| - 1];
      objects := objects[..|objects| - 1];
      borrowedSize := borrowedSize + 1;
    }

    /** The factory is modelled by the number of the object it creates. */
    method AllocateObjectForBorrowing() returns (o: Object)
      modifies `allocatedSize, `borrowedSize
      ensures View() == old(View()).(allocatedSize := old(allocatedSize) + 1, borrowedSize := old(borrowedSize) + 1)
      ensures o == old(allocatedSize)
    {
      o := allocatedSize;
      allocatedSize := allocatedSize + 1;
      borrowedSize := borrowedSize + 1;
    }

    method TryBorrow() returns (outcome: Outcome)
      modifies `objects, `allocatedSize, `borrowedSize
      ensures (View(), outcome) == Borrow(old(View()))
    {
      if objects != [] {
        var o := BorrowFromObjects();
        return Got(o);
      }
      var hasUnlimitedSize := maxSize == 0;
      if hasUnlimitedSize || allocatedSize < maxSize {
        var o := AllocateObjectForBorrowing();
        return Got(o);
      }
      return Full;
    }

    method TryResume() returns (outcome: Outcome)
      modifies `objects, `borrowedSize
      ensures (View(), outcome) == Resume(old(View()))
    {
      if objects == [] { return Full; }
      var o := BorrowFromObjects();
      return Got(o);
    }

    method ReturnObject(o: Object)
      modifies `objects, `borrowedSize
      ensures View() == GiveBack(old(View()), o)
    {
      objects := objects + [o];
      borrowedSize := borrowedSize - 1;
    }
  }

  // ----- the protocol

  /** Where a thread is: in its own code, asleep on the condition variable, woken or timed out but
      not yet holding the mutex again, or between returning an object and notifying. */
  datatype Phase = Running | Sleeping(timed: bool) | Woken(timed: bool) | TimedOut | Notifying

  datatype State = State(pool: Pool, phase: map<Thread, Phase>, held: map<Thread, set<Object>>)

  datatype Step =
    | StartBorrow(t: Thread, timed: bool)
    | RunAgain(t: Thread)
    | Return(t: Thread, o: Object)
    | Notify(t: Thread, chosen: Thread)
    | WakeSpuriously(t: Thread)
    | TimeOut(t: Thread)

  predicate IsSleeping(s: State, t: Thread) { t in s.phase && s.phase[t].Sleeping? }

  /** Threads that will look at the pool again without being notified. */
  function Awake(phase: map<Thread, Phase>): set<Thread> {
    set t | t in phase && (phase[t].Woken? || phase[t].TimedOut?)
  }

  /** Threads that still owe a notification. */
  function Owing(phase: map<Thread, Phase>): set<Thread> {
    set t | t in phase && phase[t].Notifying?
  }

  /** A step a thread can take. A notification goes to a sleeper if there is one. */
  predicate Enabled(s: State, step: Step) {
    && step.t in s.phase && step.t in s.held
    && match step
       case StartBorrow(t, _) => s.phase[t].Running?
       case RunAgain(t) => s.phase[t].Woken? || s.phase[t].TimedOut?
       case Return(t, o) => s.phase[t].Running? && o in s.held[t]
       case Notify(t, chosen) => s.phase[t].Notifying?
                                 && (IsSleeping(s, chosen) || forall u :: u in s.phase ==> !IsSleeping(s, u))
       case WakeSpuriously(t) => s.phase[t].Sleeping?
       case TimeOut(t) => s.phase[t].Sleeping? && s.phase[t].timed
  }

  /** The thread has its object, or waits as `phase` says. */
  function Conclude(s: State, t: Thread, result: (Pool, Outcome), otherwise: Phase): State
    requires t in s.held
  {
    match result.1
    case Got(o) => State(result.0, s.phase[t := Running], s.held[t := s.held[t] + {o}])
    case Full => State(result.0, s.phase[t := otherwise], s.held)
  }

  function Apply(s: State, step: Step): State
    requires Enabled(s, step)
  {
    match step
    case StartBorrow(t, timed) => Conclude(s, t, Borrow(s.pool), Sleeping(timed))
    case RunAgain(t) =>
      Conclude(s, t, Resume(s.pool), if s.phase[t].TimedOut? then Running else Sleeping(s.phase[t].timed))
    case Return(t, o) =>
      State(GiveBack(s.pool, o), s.phase[t := Notifying], s.held[t := s.held[t] - {o}])
    case Notify(t, chosen) =>
      var phase := s.phase[t := Running];
      s.(phase := if IsSleeping(s, chosen) then phase[chosen := Woken(s.phase[chosen].timed)] else phase)
    case WakeSpuriously(t) => s.(phase := s.phase[t := Woken(s.phase[t].timed)])
    case TimeOut(t) => s.(phase := s.phase[t := TimedOut])
  }

  predicate Initial(s: State) {
    && s.pool.allocatedSize == 0 && s.pool.borrowedSize == 0 && s.pool.objects == []
    && s.phase.Keys == s.held.Keys
    && forall t :: t in s.phase ==> s.phase[t].Running? && s.held[t] == {}
  }

  // ----- what every step keeps

  ghost predicate Distinct(objects: seq<Object>) {
    forall i, j :: 0 <= i < j < |objects| ==> objects[i] != objects[j]
  }

  ghost predicate HeldBySomeone(held: map<Thread, set<Object>>, o: Object) {
    exists t :: t in held && o in held[t]
  }

  ghost predicate OneOwner(held: map<Thread, set<Object>>) {
    forall t, u, o :: t in held && u in held && o in held[t] && o in held[u] ==> t == u
  }

  /** Every one of the `n` objects created is idle or held, not both, and held by one thread only. */
  ghost predicate Ownership(objects: seq<Object>, n: nat, held: map<Thread, set<Object>>) {
    && Distinct(objects) && OneOwner(held)
    && (forall o :: o in objects ==> o < n && !HeldBySomeone(held, o))
    && (forall t, o :: t in held && o in held[t] ==> o < n)
    && (forall o: Object :: o < n ==> o in objects || HeldBySomeone(held, o))
  }

  ghost predicate Counts(s: State) {
    && s.pool.allocatedSize == s.pool.borrowedSize + |s.pool.objects|
    && (s.pool.maxSize != 0 ==> s.pool.allocatedSize <= s.pool.maxSize)
  }

  /** Threads only wait at a pool that has reached its size. */
  ghost predicate WaitAtSize(s: State) {
    forall t :: t in s.phase && (s.phase[t].Sleeping? || s.phase[t].Woken?) ==>
      s.pool.maxSize != 0 && s.pool.allocatedSize == s.pool.maxSize
  }

  /** While a thread sleeps, the idle objects are spoken for by threads about to look and
      notifications about to be sent. */
  ghost predicate NoLostWakeUp(s: State) {
    (exists t :: IsSleeping(s, t)) ==> |s.pool.objects| <= |Awake(s.phase)| + |Owing(s.phase)|
  }

  ghost predicate Inv(s: State) {
    && s.phase.Keys == s.held.Keys && Counts(s)
    && Ownership(s.pool.objects, s.pool.allocatedSize, s.held) && WaitAtSize(s) && NoLostWakeUp(s)
  }

  lemma InitialInv(s: State)
    requires Initial(s)
    ensures Inv(s)
  {
  }

  // ----- the effect of a change of phase on the two sets

  lemma PhaseChange(phase: map<Thread, Phase>, t: Thread, to: Phase)
    requires t in phase
    ensures Awake(phase[t := to]) == if to.Woken? || to.TimedOut? then Awake(phase) + {t} else Awake(phase) - {t}
    ensures Owing(phase[t := to]) == if to.Notifying? then Owing(phase) + {t} else Owing(phase) - {t}
  {
  }

  /** An object nobody holds goes to one thread. */
  lemma HandOver(held: map<Thread, set<Object>>, t: Thread, o: Object)
    requires t in held && OneOwner(held) && !HeldBySomeone(held, o)
    ensures var held' := held[t := held[t] + {o}];
            && OneOwner(held') && HeldBySomeone(held', o)
            && forall x :: x != o ==> (HeldBySomeone(held', x) <==> HeldBySomeone(held, x))
  {
    var held' := held[t := held[t] + {o}];
    assert o in held'[t];
    forall x | x != o ensures HeldBySomeone(held', x) <==> HeldBySomeone(held, x) {
      if u :| u in held && x in held[u] { assert x in held'[u]; }
      if u :| u in held' && x in held'[u] { assert x in held[u]; }
    }
  }

  /** A thread lets go of an object. */
  lemma LetGo(held: map<Thread, set<Object>>, t: Thread, o: Object)
    requires t in held && OneOwner(held) && o in held[t]
    ensures var held' := held[t := held[t] - {o}];
            && OneOwner(held') && !HeldBySomeone(held', o)
            && forall x :: x != o ==> (HeldBySomeone(held', x) <==> HeldBySomeone(held, x))
  {
    var held' := held[t := held[t] - {o}];
    forall x | x != o ensures HeldBySomeone(held', x) <==> HeldBySomeone(held, x) {
      if u :| u in held && x in held[u] { assert x in held'[u]; }
      if u :| u in held' && x in held'[u] { assert x in held[u]; }
    }
  }

  lemma TakeKeepsOwnership(objects: seq<Object>, n: nat, held: map<Thread, set<Object>>, t: Thread)
    requires Ownership(objects, n, held) && t in held && objects != []
    ensures var last := |objects| - 1;
            Ownership(objects[..last], n, held[t := held[t] + {objects[last]}])
  {
    var last := |objects| - 1;
    var o, rest := objects[last], objects[..last];
    var held' := held[t := held[t] + {o}];
    assert o in objects;
    HandOver(held, t, o);
    forall x | x in rest ensures x < n && !HeldBySomeone(held', x) {
      assert x in objects && x != o;
    }
    forall x: Object | x < n ensures x in rest || HeldBySomeone(held', x) {
      if x in objects && x != o { assert x in rest; }
    }
  }

  lemma CreateKeepsOwnership(n: nat, held: map<Thread, set<Object>>, t: Thread)
    requires Ownership([], n, held) && t in held
    ensures Ownership([], n + 1, held[t := held[t] + {n}])
  {
    HandOver(held, t, n);
  }

  lemma ReturnKeepsOwnership(objects: seq<Object>, n: nat, held: map<Thread, set<Object>>, t: Thread, o: Object)
    requires Ownership(objects, n, held) && t in held && o in held[t]
    ensures Ownership(objects + [o], n, held[t := held[t] - {o}])
  {
    LetGo(held, t, o);
    assert o !in objects;
  }

  // ----- each step keeps the invariant

  /** The thread takes the last idle object. */
  lemma TakeKeepsInv(s: State, t: Thread)
    requires Inv(s) && t in s.phase && s.pool.objects != []
    requires s.phase[t].Running? || t in Awake(s.phase)
    ensures Inv(Conclude(s, t, TakeLast(s.pool), Running))
  {
    var s' := Conclude(s, t, TakeLast(s.pool), Running);
    TakeKeepsOwnership(s.pool.objects, s.pool.allocatedSize, s.held, t);
    PhaseChange(s.phase, t, Running);
    if u :| IsSleeping(s', u) { assert IsSleeping(s, u); }
  }

  lemma CreateKeepsInv(s: State, t: Thread)
    requires Inv(s) && t in s.phase && s.phase[t].Running? && s.pool.objects == []
    requires s.pool.maxSize == 0 || s.pool.allocatedSize < s.pool.maxSize
    ensures Inv(Conclude(s, t, Borrow(s.pool), Running))
  {
    CreateKeepsOwnership(s.pool.allocatedSize, s.held, t);
  }

  /** The thread finds nothing and goes to sleep, or gives up. */
  lemma EmptyKeepsInv(s: State, t: Thread, to: Phase)
    requires Inv(s) && t in s.phase && s.pool.objects == [] && (to.Running? || to.Sleeping?)
    requires to.Sleeping? ==> s.pool.maxSize != 0 && s.pool.allocatedSize == s.pool.maxSize
    ensures Inv(s.(phase := s.phase[t := to]))
  {
  }

  lemma ReturnKeepsInv(s: State, t: Thread, o: Object)
    requires Inv(s) && Enabled(s, Return(t, o))
    ensures Inv(Apply(s, Return(t, o)))
  {
    var s' := Apply(s, Return(t, o));
    ReturnKeepsOwnership(s.pool.objects, s.pool.allocatedSize, s.held, t, o);
    PhaseChange(s.phase, t, Notifying);
    if u :| IsSleeping(s', u) { assert IsSleeping(s, u); }
  }

  /** The notification wakes a sleeper: one notification less to send, one thread more about to look. */
  lemma NotifyWakes(s: State, t: Thread, chosen: Thread)
    requires Inv(s) && Enabled(s, Notify(t, chosen)) && IsSleeping(s, chosen)
    ensures NoLostWakeUp(Apply(s, Notify(t, chosen)))
  {
    PhaseChange(s.phase, t, Running);
    PhaseChange(s.phase[t := Running], chosen, Woken(s.phase[chosen].timed));
  }

  /** The notification finds no sleeper. */
  lemma NotifyMisses(s: State, t: Thread, chosen: Thread)
    requires Inv(s) && Enabled(s, Notify(t, chosen)) && !IsSleeping(s, chosen)
    ensures NoLostWakeUp(Apply(s, Notify(t, chosen)))
  {
    var s' := Apply(s, Notify(t, chosen));
    if u :| IsSleeping(s', u) {
      assert IsSleeping(s, u);
    }
  }

  lemma NotifyKeepsInv(s: State, t: Thread, chosen: Thread)
    requires Inv(s) && Enabled(s, Notify(t, chosen))
    ensures Inv(Apply(s, Notify(t, chosen)))
  {
    if IsSleeping(s, chosen) {
      NotifyWakes(s, t, chosen);
    } else {
      NotifyMisses(s, t, chosen);
    }
  }

  lemma WakeKeepsInv(s: State, t: Thread, to: Phase)
    requires Inv(s) && IsSleeping(s, t) && (to.Woken? || to.TimedOut?)
    ensures Inv(s.(phase := s.phase[t := to]))
  {
    var s' := s.(phase := s.phase[t := to]);
    PhaseChange(s.phase, t, to);
  }

  lemma StepKeepsInv(s: State, step: Step)
    requires Inv(s) && Enabled(s, step)
    ensures Inv(Apply(s, step))
  {
    match step {
      case StartBorrow(t, timed) =>
        if s.pool.objects != [] {
          TakeKeepsInv(s, t);
        } else if s.pool.maxSize == 0 || s.pool.allocatedSize < s.pool.maxSize {
          CreateKeepsInv(s, t);
        } else {
          EmptyKeepsInv(s, t, Sleeping(timed));
        }
      case RunAgain(t) =>
        if s.pool.objects != [] {
          TakeKeepsInv(s, t);
        } else {
          EmptyKeepsInv(s, t, if s.phase[t].TimedOut? then Running else Sleeping(s.phase[t].timed));
        }
      case Return(t, o) => ReturnKeepsInv(s, t, o);
      case Notify(t, chosen) => NotifyKeepsInv(s, t, chosen);
      case WakeSpuriously(t) => WakeKeepsInv(s, t, Woken(s.phase[t].timed));
      case TimeOut(t) => WakeKeepsInv(s, t, TimedOut);
    }
  }

  // ----- whole runs

  /** Executes steps in order; a run stops making sense at the first step that is not enabled. */
  ghost predicate IsRun(start: State, steps: seq<Step>, end: State)
    decreases |steps|
  {
    if steps == [] then start == end
    else Enabled(start, steps[0]) && IsRun(Apply(start, steps[0]), steps[1..], end)
  }

  lemma {:induction false} RunKeepsInv(start: State, steps: seq<Step>, end: State)
    requires Inv(start) && IsRun(start, steps, end)
    ensures Inv(end)
    decreases |steps|
  {
    if steps != [] {
      StepKeepsInv(start, steps[0]);
      RunKeepsInv(Apply(start, steps[0]), steps[1..], end);
    }
  }

  /** Safety in every interleaving: the counts add up, the size is not exceeded, and no object has
      two owners or is both idle and held. */
  lemma RunsAreSafe(start: State, steps: seq<Step>, end: State)
    requires Initial(start) && IsRun(start, steps, end)
    ensures end.pool.allocatedSize == end.pool.borrowedSize + |end.pool.objects|
    ensures end.pool.maxSize != 0 ==> end.pool.allocatedSize <= end.pool.maxSize
    ensures forall t, u, o :: t in end.held && u in end.held && o in end.held[t] && o in end.held[u] ==> t == u
    ensures forall t, o :: t in end.held && o in end.held[t] ==> o !in end.pool.objects
  {
    InitialInv(start);
    RunKeepsInv(start, steps, end);
    forall t, o | t in end.held && o in end.held[t] ensures o !in end.pool.objects {
      assert HeldBySomeone(end.held, o);
    }
  }

  /** Nobody sleeps through a returned object: with an idle object and a sleeper there is a thread
      that looks again or a notification on its way. */
  lemma SleepersAreServed(start: State, steps: seq<Step>, end: State, sleeper: Thread)
    requires Initial(start) && IsRun(start, steps, end)
    requires IsSleeping(end, sleeper)
    ensures |end.pool.objects| <= |Awake(end.phase)| + |Owing(end.phase)|
    ensures end.pool.objects != [] ==>
              exists t :: t in end.phase && (end.phase[t].Woken? || end.phase[t].TimedOut? || end.phase[t].Notifying?)
  {
    InitialInv(start);
    RunKeepsInv(start, steps, end);
    if end.pool.objects != [] {
      if Awake(end.phase) != {} {
        var t :| t in Awake(end.phase);
      } else {
        assert Owing(end.phase) != {};
        var t :| t in Owing(end.phase);
      }
    }
  }

  /** A thread sleeping in a pool where nothing is pending sleeps rightly: every object that the pool
      may create is in some client's hands. */
  lemma SleepersAreRight(start: State, steps: seq<Step>, end: State, sleeper: Thread, o: Object)
    requires Initial(start) && IsRun(start, steps, end) && IsSleeping(end, sleeper)
    requires Awake(end.phase) == {} && Owing(end.phase) == {}
    requires o < end.pool.maxSize
    ensures end.pool.objects == [] && HeldBySomeone(end.held, o)
  {
    InitialInv(start);
    RunKeepsInv(start, steps, end);
  }

  function Range(n: nat): set<Object> {
    if n == 0 then {} else Range(n - 1) + {n - 1}
  }

  lemma {:induction false} RangeIs(n: nat)
    ensures |Range(n)| == n && forall o: Object :: o in Range(n) <==> o < n
  {
    if n > 0 { RangeIs(n - 1); }
  }

  function Elements(objects: seq<Object>): set<Object> { set o | o in objects }

  lemma {:induction false} DistinctCount(objects: seq<Object>)
    requires Distinct(objects)
    ensures |Elements(objects)| == |objects|
  {
    if objects != [] {
      var last := |objects| - 1;
      var init := objects[..last];
      DistinctCount(init);
      assert objects == init + [objects[last]];
      assert objects[last] !in Elements(init);
      assert Elements(objects) == Elements(init) + {objects[last]};
    }
  }

  function AllHeld(held: map<Thread, set<Object>>): set<Object> {
    set t, o | t in held && o in held[t] :: o
  }

  lemma HeldAndIdle(objects: seq<Object>, n: nat, held: map<Thread, set<Object>>)
    requires Ownership(objects, n, held)
    ensures AllHeld(held) + Elements(objects) == Range(n) && AllHeld(held) !! Elements(objects)
  {
    RangeIs(n);
    forall o: Object ensures o in AllHeld(held) <==> HeldBySomeone(held, o) {}
  }

  /** The number of borrowed objects is the number of objects clients hold. */
  lemma BorrowedAreHeld(start: State, steps: seq<Step>, end: State)
    requires Initial(start) && IsRun(start, steps, end)
    ensures |AllHeld(end.held)| == end.pool.borrowedSize
  {
    InitialInv(start);
    RunKeepsInv(start, steps, end);
    DistinctCount(end.pool.objects);
    RangeIs(end.pool.allocatedSize);
    HeldAndIdle(end.pool.objects, end.pool.allocatedSize, end.held);
  }

  // ----- what a caller gets

  /** A returned object is the next one to be borrowed, and that undoes the return. */
  lemma BorrowUndoesReturn(p: Pool, o: Object)
    ensures Borrow(GiveBack(p, o)) == Resume(GiveBack(p, o)) == (p, Got(o))
  {
    assert (p.objects + [o])[..|p.objects|] == p.objects;
  }

  /** The thread does not run in its own code before the end of the run. */
  ghost predicate Away(start: State, steps: seq<Step>, t: Thread)
    decreases |steps|
  {
    steps == [] || (t in start.phase && !start.phase[t].Running? && Enabled(start, steps[0])
                    && Away(Apply(start, steps[0]), steps[1..], t))
  }

  ghost predicate Gained(before: set<Object>, after: set<Object>) {
    exists o :: o !in before && after == before + {o}
  }

  /** A borrow that has not ended: the thread holds what it held, and is asleep or about to look again. Only a
      timed one can be past its time, and only after a time-out. */
  predicate Waiting(s: State, t: Thread, timed: bool, held: set<Object>, late: bool) {
    && t in s.phase && t in s.held && s.held[t] == held
    && (s.phase[t] == Sleeping(timed) || s.phase[t] == Woken(timed) || (s.phase[t].TimedOut? && timed && late))
  }

  /** How a borrow ends: with one object more, or, after a time-out, with none because there is none. */
  ghost predicate Ended(s: State, t: Thread, timed: bool, held: set<Object>, late: bool) {
    && t in s.phase && t in s.held && s.phase[t].Running?
    && (Gained(held, s.held[t]) || (timed && late && s.held[t] == held && s.pool.objects == []))
  }

  lemma TakenIsNew(s: State, t: Thread)
    requires Inv(s) && t in s.held && s.pool.objects != []
    ensures Gained(s.held[t], s.held[t] + {s.pool.objects[|s.pool.objects| - 1]})
  {
    var o := s.pool.objects[|s.pool.objects| - 1];
    assert o in s.pool.objects;
    assert o in s.held[t] ==> HeldBySomeone(s.held, o);
  }

  lemma WaitingStep(s: State, step: Step, t: Thread, timed: bool, held: set<Object>, late: bool)
    requires Inv(s) && Waiting(s, t, timed, held, late) && Enabled(s, step)
    ensures var late' := late || step == TimeOut(t);
            Waiting(Apply(s, step), t, timed, held, late') || Ended(Apply(s, step), t, timed, held, late')
  {
    if step == RunAgain(t) && s.pool.objects != [] { TakenIsNew(s, t); }
  }

  lemma {:induction false} WaitingRun(s: State, steps: seq<Step>, end: State, t: Thread, timed: bool,
                                      held: set<Object>, late: bool)
    requires Inv(s) && Waiting(s, t, timed, held, late) && IsRun(s, steps, end) && Away(s, steps, t)
    ensures var late' := late || TimeOut(t) in steps;
            Waiting(end, t, timed, held, late') || Ended(end, t, timed, held, late')
    decreases |steps|
  {
    if steps != [] {
      var next, rest := Apply(s, steps[0]), steps[1..];
      StepKeepsInv(s, steps[0]);
      WaitingStep(s, steps[0], t, timed, held, late);
      assert TimeOut(t) in steps <==> steps[0] == TimeOut(t) || TimeOut(t) in rest;
      if Waiting(next, t, timed, held, late || steps[0] == TimeOut(t)) {
        WaitingRun(next, rest, end, t, timed, held, late || steps[0] == TimeOut(t));
      }
    }
  }

  lemma BorrowBegins(s: State, t: Thread, timed: bool)
    requires Inv(s) && Enabled(s, StartBorrow(t, timed))
    ensures var s' := Apply(s, StartBorrow(t, timed));
            Waiting(s', t, timed, s.held[t], false) || Ended(s', t, timed, s.held[t], false)
  {
    if s.pool.objects != [] {
      TakenIsNew(s, t);
    } else {
      var o := s.pool.allocatedSize;
      assert o !in s.held[t];
      assert Gained(s.held[t], s.held[t] + {o});
    }
  }

  /** In every run: a borrow that ends has got the thread one object that it did not hold, unless it was a timed one
      that timed out and found the pool empty. While it lasts the thread keeps what it held, and can be timed out
      exactly if it is asleep and the borrow is timed. */
  lemma BorrowsGetObjects(start: State, before: seq<Step>, s: State, t: Thread, timed: bool, steps: seq<Step>,
                          end: State)
    requires Initial(start) && IsRun(start, before, s) && Enabled(s, StartBorrow(t, timed))
    requires IsRun(Apply(s, StartBorrow(t, timed)), steps, end) && Away(Apply(s, StartBorrow(t, timed)), steps, t)
    ensures t in end.phase && t in end.held
    ensures end.phase[t].Running? ==>
              Gained(s.held[t], end.held[t])
              || (timed && TimeOut(t) in steps && end.held[t] == s.held[t] && end.pool.objects == [])
    ensures !end.phase[t].Running? ==>
              end.held[t] == s.held[t] && (Enabled(end, TimeOut(t)) <==> timed && IsSleeping(end, t))
  {
    InitialInv(start);
    RunKeepsInv(start, before, s);
    StepKeepsInv(s, StartBorrow(t, timed));
    BorrowBegins(s, t, timed);
    var s' := Apply(s, StartBorrow(t, timed));
    if Waiting(s', t, timed, s.held[t], false) { WaitingRun(s', steps, end, t, timed, s.held[t], false); }
  }

  lemma {:induction false} NotifyingRun(s: State, steps: seq<Step>, end: State, t: Thread)
    requires Inv(s) && t in s.phase && t in s.held && s.phase[t].Notifying? && IsRun(s, steps, end) && Away(s, steps, t)
    ensures t in end.phase && t in end.held && end.held[t] == s.held[t]
    ensures if end.phase[t].Running? then exists u :: Notify(t, u) in steps else end.phase[t].Notifying?
    decreases |steps|
  {
    if steps != [] {
      var next, rest := Apply(s, steps[0]), steps[1..];
      StepKeepsInv(s, steps[0]);
      if next.phase[t].Notifying? {
        NotifyingRun(next, rest, end, t);
        assert forall u :: Notify(t, u) in rest ==> Notify(t, u) in steps;
      } else {
        assert Notify(t, steps[0].chosen) in steps;
      }
    }
  }

  /** In every run: a return takes the one object from the thread, and ends only with a notification. */
  lemma ReturnsNotify(start: State, before: seq<Step>, s: State, t: Thread, o: Object, steps: seq<Step>, end: State)
    requires Initial(start) && IsRun(start, before, s) && Enabled(s, Return(t, o))
    requires IsRun(Apply(s, Return(t, o)), steps, end) && Away(Apply(s, Return(t, o)), steps, t)
    ensures t in end.phase && t in end.held && end.held[t] == s.held[t] - {o}
    ensures end.phase[t].Running? ==> exists u :: Notify(t, u) in steps
  {
    InitialInv(start);
    RunKeepsInv(start, before, s);
    StepKeepsInv(s, Return(t, o));
    NotifyingRun(Apply(s, Return(t, o)), steps, end, t);
  }

  /** In every run: each thread has a step to take, and one that looks again while an object is idle gets it. */
  lemma NobodyIsStuck(start: State, steps: seq<Step>, end: State, t: Thread)
    requires Initial(start) && IsRun(start, steps, end) && t in end.phase
    ensures exists step: Step :: step.t == t && Enabled(end, step)
    ensures t in Awake(end.phase) && end.pool.objects != [] ==>
              Enabled(end, RunAgain(t)) && Ended(Apply(end, RunAgain(t)), t, false, end.held[t], false)
  {
    InitialInv(start);
    RunKeepsInv(start, steps, end);
    match end.phase[t] {
      case Running => assert Enabled(end, StartBorrow(t, false));
      case Sleeping(_) => assert Enabled(end, WakeSpuriously(t));
      case Notifying =>
        if u :| IsSleeping(end, u) {
          assert Enabled(end, Notify(t, u));
        } else {
          assert Enabled(end, Notify(t, t));
        }
      case _ =>
        assert Enabled(end, RunAgain(t));
        if end.pool.objects != [] { TakenIsNew(end, t); }
    }
  }
}
