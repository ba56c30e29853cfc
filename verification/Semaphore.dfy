/**
 The counting semaphore of aes_vfs/LockWait.h as interleaved steps of any number of threads:
 a mutex, a condition variable, and `give`, which signals after it has dropped the mutex.
 */
module Semaphores {

  /** Where a thread is inside `give` or `take`. */
  datatype Pc =
    | Idle                        // in neither
    | GiveLocked                  // give: holds the mutex, value++ to come
    | GiveRaised                  // give: value raised, mutex still held
    | GiveSignal                  // give: mutex dropped, waiterSignal to come
    | TakeTest(timed: bool, woken: bool)  // take: holds the mutex, about to test value <= 0
    | TakeWon(woken: bool)        // take: test passed, value-- to come
    | TakeDone                    // take: value lowered, mutex still held
    | Blocked(timed: bool)        // take: waiting on the condition variable
    | Woken(timed: bool)          // take: wait is over, the mutex is to be taken again
    | Expired                     // take: timed out, the mutex is to be taken again
    | TakeFailed                  // take: timed out, holds the mutex, about to return false

  datatype Mutex = Free | Held(owner: nat)

  /**
   `given` and `taken` count the completed value++ and value-- steps, `lost` the signals that went to
   a timed waiter which timed out all the same.
   */
  datatype State = State(value: int, mutex: Mutex, pcs: seq<Pc>, given: nat, taken: nat, lost: nat)

  datatype Waiter = Nobody | Wakes(u: nat)

  /** `Late`: a timed wait that took a signal may still report a timeout, as POSIX allows. */
  datatype Event =
    | GiveLock(t: nat)
    | GiveAdd(t: nat)
    | GiveUnlock(t: nat)
    | Signal(t: nat, waiter: Waiter)
    | TakeLock(t: nat, timed: bool)
    | Test(t: nat)
    | TakeSubtract(t: nat)
    | TakeUnlock(t: nat)
    | Relock(t: nat)
    | Spurious(t: nat)
    | Timeout(t: nat)
    | Late(t: nat)
    | FailUnlock(t: nat)

  predicate Holds(pc: Pc) {
    pc.GiveLocked? || pc.GiveRaised? || pc.TakeTest? || pc.TakeWon? || pc.TakeDone? || pc.TakeFailed?
  }

  /** pthread_cond_signal wakes some blocked thread, or nobody when none is blocked. */
  predicate CanWake(pcs: seq<Pc>, waiter: Waiter) {
    match waiter
    case Nobody => forall u :: 0 <= u < |pcs| ==> !pcs[u].Blocked?
    case Wakes(u) => u < |pcs| && pcs[u].Blocked?
  }

  predicate Enabled(s: State, e: Event) {
    e.t < |s.pcs| &&
    var pc := s.pcs[e.t];
    match e
    case GiveLock(_) => pc.Idle? && s.mutex.Free?
    case GiveAdd(_) => pc.GiveLocked?
    case GiveUnlock(_) => pc.GiveRaised?
    case Signal(_, waiter) => pc.GiveSignal? && CanWake(s.pcs, waiter)
    case TakeLock(_, _) => pc.Idle? && s.mutex.Free?
    case Test(_) => pc.TakeTest?
    case TakeSubtract(_) => pc.TakeWon?
    case TakeUnlock(_) => pc.TakeDone?
    case Relock(_) => (pc.Woken? || pc.Expired?) && s.mutex.Free?
    case Spurious(_) => pc.Blocked?
    case Timeout(_) => pc.Blocked? && pc.timed
    case Late(_) => pc.Woken? && pc.timed
    case FailUnlock(_) => pc.TakeFailed?
  }

  function Apply(s: State, e: Event): (s': State)
    requires Enabled(s, e)
    ensures |s'.pcs| == |s.pcs|
  {
    var t, pc := e.t, s.pcs[e.t];
    match e
    case GiveLock(_) => s.(mutex := Held(t), pcs := s.pcs[t := GiveLocked])
    case GiveAdd(_) => s.(value := s.value + 1, given := s.given + 1, pcs := s.pcs[t := GiveRaised])
    case GiveUnlock(_) => s.(mutex := Free, pcs := s.pcs[t := GiveSignal])
    case Signal(_, waiter) =>
      var pcs := s.pcs[t := Idle];
      s.(pcs := if waiter.Nobody? then pcs else pcs[waiter.u := Woken(s.pcs[waiter.u].timed)])
    case TakeLock(_, timed) => s.(mutex := Held(t), pcs := s.pcs[t := TakeTest(timed, false)])
    case Test(_) =>
      if s.value <= 0
      then s.(mutex := Free, pcs := s.pcs[t := Blocked(pc.timed)])
      else s.(pcs := s.pcs[t := TakeWon(pc.woken)])
    case TakeSubtract(_) => s.(value := s.value - 1, taken := s.taken + 1, pcs := s.pcs[t := TakeDone])
    case TakeUnlock(_) => s.(mutex := Free, pcs := s.pcs[t := Idle])
    case Relock(_) =>
      s.(mutex := Held(t), pcs := s.pcs[t := if pc.Expired? then TakeFailed else TakeTest(pc.timed, true)])
    case Spurious(_) => s.(pcs := s.pcs[t := Woken(pc.timed)])
    case Timeout(_) => s.(pcs := s.pcs[t := Expired])
    case Late(_) => s.(lost := s.lost + 1, pcs := s.pcs[t := Expired])
    case FailUnlock(_) => s.(mutex := Free, pcs := s.pcs[t := Idle])
  }

  /** `s` and the states after each event of the run. */
  ghost predicate IsRun(s: State, es: seq<Event>)
    decreases |es|
  {
    es == [] || (Enabled(s, es[0]) && IsRun(Apply(s, es[0]), es[1..]))
  }

  function After(s: State, es: seq<Event>): (s': State)
    requires IsRun(s, es)
    ensures |s'.pcs| == |s.pcs|
    decreases |es|
  {
    if es == [] then s else After(Apply(s, es[0]), es[1..])
  }

  /** n threads, none inside the semaphore. */
  function Initial(n: nat, value: int): (s: State) {
    State(value, Free, seq(n, _ => Idle), 0, 0, 0)
  }

  // ----- counting threads -----

  function Sum(pcs: seq<Pc>, w: Pc -> nat): (n: nat) {
    if pcs == [] then 0 else w(pcs[0]) + Sum(pcs[1..], w)
  }

  lemma {:induction false} SumUpdate(pcs: seq<Pc>, t: nat, pc: Pc, w: Pc -> nat)
    requires t < |pcs|
    ensures Sum(pcs[t := pc], w) == Sum(pcs, w) - w(pcs[t]) + w(pc)
  {
    if t == 0 {
      assert pcs[t := pc][1..] == pcs[1..];
    } else {
      SumUpdate(pcs[1..], t - 1, pc, w);
      assert pcs[t := pc][1..] == pcs[1..][t - 1 := pc];
    }
  }

  lemma {:induction false} SumAtLeast(pcs: seq<Pc>, t: nat, w: Pc -> nat)
    requires t < |pcs|
    ensures Sum(pcs, w) >= w(pcs[t])
  {
    if t > 0 { SumAtLeast(pcs[1..], t - 1, w); }
  }

  lemma {:induction false} SumPositive(pcs: seq<Pc>, w: Pc -> nat) returns (t: nat)
    requires Sum(pcs, w) > 0
    ensures t < |pcs| && w(pcs[t]) > 0
  {
    if w(pcs[0]) > 0 {
      t := 0;
    } else {
      t := SumPositive(pcs[1..], w);
      t := t + 1;
    }
  }

  /** Givers that raised the value and have yet to signal. */
  function Signalling(pc: Pc): (n: nat) {
    if pc.GiveRaised? || pc.GiveSignal? then 1 else 0
  }

  /** Takers that came out of wait and have yet to use or give up the chance. */
  function Rechecking(pc: Pc): (n: nat) {
    if pc.Woken? || (pc.TakeTest? && pc.woken) || (pc.TakeWon? && pc.woken) then 1 else 0
  }

  function Waiting(pc: Pc): (n: nat) {
    if pc.Blocked? then 1 else 0
  }

  // ----- the invariant -----

  /** The mutex is held by the thread that is inside a critical section, and no other is. */
  ghost predicate Exclusive(s: State) {
    && (forall t :: 0 <= t < |s.pcs| ==> (Holds(s.pcs[t]) <==> s.mutex == Held(t)))
    && (s.mutex.Held? ==> s.mutex.owner < |s.pcs|)
    && (forall t :: 0 <= t < |s.pcs| && s.pcs[t].TakeWon? ==> s.value > 0)
  }

  /**
   The value is the initial one plus gives minus takes; and while anybody is blocked, every unit of the
   value has a signal on its way, a woken thread about to look, or a signal lost to a late timeout.
   */
  ghost predicate Counted(s: State, initial: int) {
    && s.value == initial + s.given - s.taken
    && (s.value >= 0 || s.value >= initial)
    && (Sum(s.pcs, Waiting) > 0 ==> s.value <= Sum(s.pcs, Signalling) + Sum(s.pcs, Rechecking) + s.lost)
  }

  ghost predicate Inv(s: State, initial: int) {
    Exclusive(s) && Counted(s, initial)
  }

  lemma {:induction false} SumOfIdle(n: nat, w: Pc -> nat)
    requires w(Idle) == 0
    ensures Sum(seq(n, _ => Idle), w) == 0
  {
    if n > 0 {
      SumOfIdle(n - 1, w);
      assert seq(n, _ => Idle)[1..] == seq(n - 1, _ => Idle);
    }
  }

  lemma InvInitial(n: nat, value: int)
    ensures Inv(Initial(n, value), value)
  {
    SumOfIdle(n, Waiting);
  }

  lemma SumsUpdate(pcs: seq<Pc>, t: nat, pc: Pc)
    requires t < |pcs|
    ensures Sum(pcs[t := pc], Waiting) == Sum(pcs, Waiting) - Waiting(pcs[t]) + Waiting(pc)
    ensures Sum(pcs[t := pc], Signalling) == Sum(pcs, Signalling) - Signalling(pcs[t]) + Signalling(pc)
    ensures Sum(pcs[t := pc], Rechecking) == Sum(pcs, Rechecking) - Rechecking(pcs[t]) + Rechecking(pc)
  {
    SumUpdate(pcs, t, pc, Waiting);
    SumUpdate(pcs, t, pc, Signalling);
    SumUpdate(pcs, t, pc, Rechecking);
  }

  lemma ExclusiveStep(s: State, e: Event)
    requires Exclusive(s) && Enabled(s, e)
    ensures Exclusive(Apply(s, e))
  {
    if !(e.Signal? && e.waiter.Wakes?) { OwnStep(s, e); }
  }

  /** Every step but a signal that wakes somebody moves its own thread only. */
  lemma OwnStep(s: State, e: Event)
    requires Enabled(s, e) && !(e.Signal? && e.waiter.Wakes?)
    ensures Apply(s, e).pcs == s.pcs[e.t := Apply(s, e).pcs[e.t]]
  {
  }

  lemma WakeStep(s: State, e: Event)
    requires Enabled(s, e) && e.Signal? && e.waiter.Wakes?
    ensures e.t != e.waiter.u < |s.pcs| && s.pcs[e.t].GiveSignal? && s.pcs[e.waiter.u].Blocked?
    ensures Apply(s, e) == s.(pcs := s.pcs[e.t := Idle][e.waiter.u := Woken(s.pcs[e.waiter.u].timed)])
  {
  }

  /** While anybody waits, each unit of the value is accounted for; `w`, `g` and `r` count the threads. */
  ghost predicate Balanced(s: State, w: nat, g: nat, r: nat) {
    w > 0 ==> s.value <= g + r + s.lost
  }

  lemma OwnStepBalanced(s: State, e: Event, initial: int, w: nat, g: nat, r: nat, w': nat, g': nat, r': nat)
    requires Enabled(s, e) && !(e.Signal? && e.waiter.Wakes?) && Balanced(s, w, g, r) && (e.Signal? ==> w == 0)
    requires s.pcs[e.t].TakeWon? ==> s.value > 0
    requires w' == w - Waiting(s.pcs[e.t]) + Waiting(Apply(s, e).pcs[e.t])
    requires g' == g - Signalling(s.pcs[e.t]) + Signalling(Apply(s, e).pcs[e.t])
    requires r' == r - Rechecking(s.pcs[e.t]) + Rechecking(Apply(s, e).pcs[e.t])
    requires s.value == initial + s.given - s.taken && (s.value >= 0 || s.value >= initial)
    ensures var z := Apply(s, e);
      && Balanced(z, w', g', r')
      && z.value == initial + z.given - z.taken && (z.value >= 0 || z.value >= initial)
  {
  }

  lemma WakeStepCounted(s: State, e: Event, initial: int)
    requires Enabled(s, e) && e.Signal? && e.waiter.Wakes? && Counted(s, initial)
    ensures Counted(Apply(s, e), initial)
  {
    WakeStep(s, e);
    hide Sum, Apply, Enabled;
    SumsUpdate(s.pcs, e.t, Idle);
    SumsUpdate(s.pcs[e.t := Idle], e.waiter.u, Woken(s.pcs[e.waiter.u].timed));
  }

  lemma CountedStep(s: State, e: Event, initial: int)
    requires Enabled(s, e) && Counted(s, initial)
    requires s.pcs[e.t].TakeWon? ==> s.value > 0
    ensures Counted(Apply(s, e), initial)
  {
    if e.Signal? && e.waiter.Wakes? {
      WakeStepCounted(s, e, initial);
    } else {
      if e.Signal? { SumOfNone(s.pcs, Waiting); }
      OwnStep(s, e);
      hide Sum, Apply, Waiting, Signalling, Rechecking;
      var z := Apply(s, e);
      SumsUpdate(s.pcs, e.t, z.pcs[e.t]);
      OwnStepBalanced(s, e, initial, Sum(s.pcs, Waiting), Sum(s.pcs, Signalling), Sum(s.pcs, Rechecking),
                      Sum(z.pcs, Waiting), Sum(z.pcs, Signalling), Sum(z.pcs, Rechecking));
    }
  }

  lemma InvStep(s: State, e: Event, initial: int)
    requires Inv(s, initial) && Enabled(s, e)
    ensures Inv(Apply(s, e), initial)
  {
    hide Apply;
    ExclusiveStep(s, e);
    CountedStep(s, e, initial);
  }

  lemma SumOfNone(pcs: seq<Pc>, w: Pc -> nat)
    requires forall t :: 0 <= t < |pcs| ==> w(pcs[t]) == 0
    ensures Sum(pcs, w) == 0
  {
    if Sum(pcs, w) > 0 {
      var t := SumPositive(pcs, w);
    }
  }

  /** Safety over every interleaving of any number of threads. */
  lemma {:induction false} InvAlways(s: State, es: seq<Event>, initial: int)
    requires Inv(s, initial) && IsRun(s, es)
    ensures Inv(After(s, es), initial)
    decreases |es|
  {
    if es != [] {
      InvStep(s, es[0], initial);
      InvAlways(Apply(s, es[0]), es[1..], initial);
    }
  }

  /**
   The promises of the semaphore in every state any run can reach: counting, mutual exclusion, and
   no wake-up lost, although the signal is sent outside the mutex, but those that late timeouts took.
   */
  lemma SemaphoreSafe(n: nat, initial: int, es: seq<Event>)
    requires IsRun(Initial(n, initial), es)
    ensures var s := After(Initial(n, initial), es);
      && (initial >= 0 ==> s.value >= 0) && s.value == initial + s.given - s.taken
      && (forall t, u :: 0 <= t < u < |s.pcs| ==> !(Holds(s.pcs[t]) && Holds(s.pcs[u])))
      && (forall t :: 0 <= t < |s.pcs| && s.pcs[t].Blocked? ==>
            s.value <= Sum(s.pcs, Signalling) + Sum(s.pcs, Rechecking) + s.lost)
  {
    InvInitial(n, initial);
    InvAlways(Initial(n, initial), es, initial);
    var s := After(Initial(n, initial), es);
    forall t | 0 <= t < |s.pcs| && s.pcs[t].Blocked?
      ensures s.value <= Sum(s.pcs, Signalling) + Sum(s.pcs, Rechecking) + s.lost
    {
      SumAtLeast(s.pcs, t, Waiting);
    }
  }

  // ----- what is on its way does arrive -----

  /** The steps a thread takes by itself once it is inside give or take. */
  predicate Internal(e: Event) {
    !e.GiveLock? && !e.TakeLock? && !e.Spurious? && !e.Timeout? && !e.Late?
  }

  /** How many internal steps a thread can still cause. */
  function Weight(pc: Pc): (n: nat) {
    match pc
    case Idle => 0
    case GiveLocked => 7
    case GiveRaised => 6
    case GiveSignal => 5
    case TakeTest(_, _) => 3
    case TakeWon(_) => 2
    case TakeDone => 1
    case Blocked(_) => 0
    case Woken(_) => 4
    case Expired => 2
    case TakeFailed => 1
  }

  lemma InternalStepIsLighter(s: State, e: Event)
    requires Enabled(s, e) && Internal(e)
    ensures Weight(Apply(s, e).pcs[e.t]) < Weight(s.pcs[e.t])
  {
  }

  lemma InternalStepDecreases(s: State, e: Event)
    requires Enabled(s, e) && Internal(e)
    ensures Sum(Apply(s, e).pcs, Weight) < Sum(s.pcs, Weight)
  {
    hide Sum, Apply;
    if e.Signal? && e.waiter.Wakes? {
      WakeStep(s, e);
      SumUpdate(s.pcs, e.t, Idle, Weight);
      SumUpdate(s.pcs[e.t := Idle], e.waiter.u, Woken(s.pcs[e.waiter.u].timed), Weight);
    } else {
      OwnStep(s, e);
      InternalStepIsLighter(s, e);
      SumUpdate(s.pcs, e.t, Apply(s, e).pcs[e.t], Weight);
    }
  }

  /** No deadlock: while any thread has internal steps ahead, one of them can be taken now. */
  lemma SomeInternalEnabled(s: State, initial: int) returns (e: Event)
    requires Inv(s, initial) && Sum(s.pcs, Weight) > 0
    ensures Internal(e) && Enabled(s, e)
  {
    if s.mutex.Held? {
      var t := s.mutex.owner;
      e := match s.pcs[t]
        case GiveLocked => GiveAdd(t)
        case GiveRaised => GiveUnlock(t)
        case TakeTest(_, _) => Test(t)
        case TakeWon(_) => TakeSubtract(t)
        case TakeDone => TakeUnlock(t)
        case _ => FailUnlock(t);
    } else {
      var t := SumPositive(s.pcs, Weight);
      if s.pcs[t].GiveSignal? {
        if u :| 0 <= u < |s.pcs| && s.pcs[u].Blocked? {
          e := Signal(t, Wakes(u));
        } else {
          e := Signal(t, Nobody);
        }
      } else {
        e := Relock(t);
      }
    }
  }

  lemma {:induction false} InternalRunBounded(s: State, es: seq<Event>)
    requires IsRun(s, es) && forall i :: 0 <= i < |es| ==> Internal(es[i])
    ensures |es| + Sum(After(s, es).pcs, Weight) <= Sum(s.pcs, Weight)
    decreases |es|
  {
    if es != [] {
      InternalStepDecreases(s, es[0]);
      InternalRunBounded(Apply(s, es[0]), es[1..]);
    }
  }

  /**
   Left to themselves, the threads inside give and take come to rest after a bounded number of
   steps under every schedule; and once they rest, a thread is blocked only if the value is used up,
   but for the signals that late timeouts took.
   */
  lemma WakeUpsDelivered(n: nat, initial: int, es: seq<Event>, rest: seq<Event>)
    requires IsRun(Initial(n, initial), es) && IsRun(After(Initial(n, initial), es), rest)
    requires forall i :: 0 <= i < |rest| ==> Internal(rest[i])
    ensures var s := After(Initial(n, initial), es);
      var z := After(s, rest);
      && |rest| <= Sum(s.pcs, Weight)
      && ((forall e :: Internal(e) ==> !Enabled(z, e)) ==>
            z.value <= z.lost || forall t :: 0 <= t < |z.pcs| ==> !z.pcs[t].Blocked?)
  {
    var s := After(Initial(n, initial), es);
    var z := After(s, rest);
    InvInitial(n, initial);
    InvAlways(Initial(n, initial), es, initial);
    InvAlways(s, rest, initial);
    InternalRunBounded(s, rest);
    if Sum(z.pcs, Weight) > 0 {
      var e := SomeInternalEnabled(z, initial);
    } else {
      AtRest(z);
      forall t | 0 <= t < |z.pcs| && z.pcs[t].Blocked? ensures z.value <= z.lost {
        SumAtLeast(z.pcs, t, Waiting);
      }
    }
  }

  lemma AtRest(z: State)
    requires Sum(z.pcs, Weight) == 0
    ensures Sum(z.pcs, Signalling) == 0 && Sum(z.pcs, Rechecking) == 0
  {
    forall t | 0 <= t < |z.pcs| ensures Weight(z.pcs[t]) == 0 {
      SumAtLeast(z.pcs, t, Weight);
    }
    SumOfNone(z.pcs, Signalling);
    SumOfNone(z.pcs, Rechecking);
  }

  // ----- without timed takes no wake-up is lost; with them one can be -----

  ghost predicate Untimed(es: seq<Event>) {
    forall i :: 0 <= i < |es| ==> !(es[i].TakeLock? && es[i].timed)
  }

  /** No thread is in a timed take or gives up, and nothing was lost. */
  ghost predicate NothingTimed(s: State) {
    s.lost == 0 && forall t :: 0 <= t < |s.pcs| ==> match s.pcs[t]
      case TakeTest(timed, _) => !timed
      case Blocked(timed) => !timed
      case Woken(timed) => !timed
      case Expired => false
      case TakeFailed => false
      case _ => true
  }

  lemma {:induction false} UntimedLosesNothing(s: State, es: seq<Event>)
    requires NothingTimed(s) && IsRun(s, es) && Untimed(es)
    ensures NothingTimed(After(s, es))
    decreases |es|
  {
    if es != [] {
      UntimedStep(s, es[0]);
      UntimedLosesNothing(Apply(s, es[0]), es[1..]);
    }
  }

  lemma UntimedStep(s: State, e: Event)
    requires NothingTimed(s) && Enabled(s, e) && !(e.TakeLock? && e.timed)
    ensures NothingTimed(Apply(s, e))
  {
  }

  /** Without timed takes no thread ever gives up. */
  lemma UntimedNeverGivesUp(n: nat, initial: int, es: seq<Event>, t: nat)
    requires IsRun(Initial(n, initial), es) && Untimed(es) && t < n
    ensures var pc := After(Initial(n, initial), es).pcs[t];
      !pc.Expired? && !pc.TakeFailed?
  {
    UntimedLosesNothing(Initial(n, initial), es);
  }

  /** A blocked thread that the value would let through, with no signal and no woken thread to come. */
  ghost predicate Stranded(s: State) {
    s.value > Sum(s.pcs, Signalling) + Sum(s.pcs, Rechecking) && exists t :: 0 <= t < |s.pcs| && s.pcs[t].Blocked?
  }

  /** A thread blocks in a timed take, a second one in a plain take, a third gives, and the first times out late. */
  function LosingRun(): (es: seq<Event>)
    ensures |es| == 11
  {
    [TakeLock(0, true), Test(0), TakeLock(1, false), Test(1), GiveLock(2), GiveAdd(2), GiveUnlock(2),
     Signal(2, Wakes(0)), Late(0), Relock(0), FailUnlock(0)]
  }

  /** The threads after each of its steps, from all outside to one blocked. */
  function LosingStates(): (states: seq<State>)
    ensures |states| == 12 && states[0] == Initial(3, 0)
    ensures states[11] == State(1, Free, [Idle, Blocked(false), Idle], 1, 0, 1)
  {
    assert Initial(3, 0).pcs == [Idle, Idle, Idle];
    [State(0, Free, [Idle, Idle, Idle], 0, 0, 0),
     State(0, Held(0), [TakeTest(true, false), Idle, Idle], 0, 0, 0),
     State(0, Free, [Blocked(true), Idle, Idle], 0, 0, 0),
     State(0, Held(1), [Blocked(true), TakeTest(false, false), Idle], 0, 0, 0),
     State(0, Free, [Blocked(true), Blocked(false), Idle], 0, 0, 0),
     State(0, Held(2), [Blocked(true), Blocked(false), GiveLocked], 0, 0, 0),
     State(1, Held(2), [Blocked(true), Blocked(false), GiveRaised], 1, 0, 0),
     State(1, Free, [Blocked(true), Blocked(false), GiveSignal], 1, 0, 0),
     State(1, Free, [Woken(true), Blocked(false), Idle], 1, 0, 0),
     State(1, Free, [Expired, Blocked(false), Idle], 1, 0, 1),
     State(1, Held(0), [TakeFailed, Blocked(false), Idle], 1, 0, 1),
     State(1, Free, [Idle, Blocked(false), Idle], 1, 0, 1)]
  }

  lemma {:induction false} StatesAreRun(es: seq<Event>, states: seq<State>)
    requires |states| == |es| + 1
    requires forall i :: 0 <= i < |es| ==> Enabled(states[i], es[i]) && Apply(states[i], es[i]) == states[i + 1]
    ensures IsRun(states[0], es) && After(states[0], es) == states[|es|]
  {
    hide Enabled, Apply;
    if es != [] {
      forall i | 0 <= i < |es| - 1
        ensures Enabled(states[1..][i], es[1..][i]) && Apply(states[1..][i], es[1..][i]) == states[1..][i + 1]
      {
        assert states[1..][i] == states[i + 1] && es[1..][i] == es[i + 1];
      }
      StatesAreRun(es[1..], states[1..]);
      assert Enabled(states[0], es[0]) && Apply(states[0], es[0]) == states[1];
    }
  }

  lemma LosingStep(i: nat)
    requires i < 11
    ensures Enabled(LosingStates()[i], LosingRun()[i])
    ensures Apply(LosingStates()[i], LosingRun()[i]) == LosingStates()[i + 1]
  {
  }

  /** At the end of that run every thread but the blocked one is outside, and the value is 1. */
  lemma TimedTakeStrandsWaiter()
    ensures IsRun(Initial(3, 0), LosingRun())
    ensures After(Initial(3, 0), LosingRun()) == State(1, Free, [Idle, Blocked(false), Idle], 1, 0, 1)
    ensures Stranded(After(Initial(3, 0), LosingRun()))
  {
    hide Enabled, Apply, LosingRun, LosingStates, Initial, IsRun, After;
    var es, states := LosingRun(), LosingStates();
    forall i: nat | i < 11 ensures Enabled(states[i], es[i]) && Apply(states[i], es[i]) == states[i + 1] {
      LosingStep(i);
    }
    StatesAreRun(es, states);
    var pcs := [Idle, Blocked(false), Idle];
    assert pcs[1].Blocked?;
    SumOfNone(pcs, Signalling);
    SumOfNone(pcs, Rechecking);
  }

  /** A run that strands a thread, of threads that may or may not take with a timeout. */
  ghost predicate Strands(timeouts: bool, n: nat, initial: int, es: seq<Event>) {
    IsRun(Initial(n, initial), es) && (timeouts || Untimed(es)) && Stranded(After(Initial(n, initial), es))
  }

  /** A thread can be stranded exactly when some threads take with a timeout. */
  lemma StrandedExactly(timeouts: bool)
    ensures (exists n: nat, initial: int, es: seq<Event> :: Strands(timeouts, n, initial, es)) <==> timeouts
  {
    if timeouts {
      TimedTakeStrandsWaiter();
      assert Strands(timeouts, 3, 0, LosingRun());
    } else {
      forall n: nat, initial: int, es: seq<Event> ensures !Strands(timeouts, n, initial, es) {
        if Strands(timeouts, n, initial, es) { UntimedStrandsNobody(n, initial, es); }
      }
    }
  }

  lemma UntimedStrandsNobody(n: nat, initial: int, es: seq<Event>)
    requires IsRun(Initial(n, initial), es) && Untimed(es)
    ensures !Stranded(After(Initial(n, initial), es))
  {
    SemaphoreSafe(n, initial, es);
    UntimedLosesNothing(Initial(n, initial), es);
  }
}
