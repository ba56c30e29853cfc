/**
 What a thread's own steps over a whole run of the semaphore say about its calls: a plain take returns only with a
 unit of the value, a timed one gives up only after its own timeout, and gives and takes are accounted for one by one.
 */
module SemaphoreRuns {
  import opened Semaphores

  // ----- a run and its prefixes -----

  lemma {:induction false} RunPrefix(s: State, es: seq<Event>, k: nat)
    requires IsRun(s, es) && k <= |es|
    ensures IsRun(s, es[..k])
    ensures k < |es| ==> IsRun(s, es[..k + 1]) && Enabled(After(s, es[..k]), es[k])
                         && After(s, es[..k + 1]) == Apply(After(s, es[..k]), es[k])
    decreases |es|
  {
    hide Enabled, Apply;
    if k > 0 {
      RunPrefix(Apply(s, es[0]), es[1..], k - 1);
      assert es[..k][0] == es[0] && es[..k][1..] == es[1..][..k - 1];
      if k < |es| {
        assert es[..k + 1][0] == es[0] && es[..k + 1][1..] == es[1..][..k];
      }
    } else if es != [] {
      assert es[..1][1..] == [] && es[..0] == [];
      assert After(Apply(s, es[0]), []) == Apply(s, es[0]);
    }
  }

  // ----- giving up -----

  predicate GivesUp(pc: Pc) {
    pc.Expired? || pc.TakeFailed?
  }

  /** A thread comes to give up by its own timeout, and then only takes the mutex again. */
  lemma GivingUpStep(s: State, e: Event, t: nat)
    requires Enabled(s, e) && t < |s.pcs| && GivesUp(Apply(s, e).pcs[t])
    ensures e == Timeout(t) || e == Late(t) || (GivesUp(s.pcs[t]) && (e.t == t ==> e == Relock(t)))
  {
  }

  /** The thread's last event but for taking the mutex again is its own timeout. */
  ghost predicate TimedOut(es: seq<Event>, t: nat) {
    exists i :: 0 <= i < |es| && (es[i] == Timeout(t) || es[i] == Late(t))
      && forall j :: i < j < |es| && es[j].t == t ==> es[j] == Relock(t)
  }

  lemma TimedOutMore(es: seq<Event>, e: Event, t: nat)
    requires e == Timeout(t) || e == Late(t) || (TimedOut(es, t) && (e.t == t ==> e == Relock(t)))
    ensures TimedOut(es + [e], t)
  {
    var all := es + [e];
    if e == Timeout(t) || e == Late(t) {
      assert all[|es|] == e;
    } else {
      var i :| 0 <= i < |es| && (es[i] == Timeout(t) || es[i] == Late(t))
               && forall j :: i < j < |es| && es[j].t == t ==> es[j] == Relock(t);
      assert all[i] == es[i];
    }
  }

  /** In every run: a thread is about to return false only after its own timeout. */
  lemma {:induction false} GivesUpAfterTimeout(n: nat, initial: int, es: seq<Event>, t: nat)
    requires IsRun(Initial(n, initial), es) && t < n
    requires var pc := After(Initial(n, initial), es).pcs[t]; pc.Expired? || pc.TakeFailed?
    ensures exists i :: 0 <= i < |es| && (es[i] == Timeout(t) || es[i] == Late(t))
              && forall j :: i < j < |es| && es[j].t == t ==> es[j] == Relock(t)
    decreases |es|
  {
    var k := |es|;
    if k > 0 {
      RunPrefix(Initial(n, initial), es, k - 1);
      assert es[..k] == es && es[..k - 1] + [es[k - 1]] == es;
      GivingUpStep(After(Initial(n, initial), es[..k - 1]), es[k - 1], t);
      hide Initial, IsRun, After, Enabled, Apply;
      if !(es[k - 1] == Timeout(t) || es[k - 1] == Late(t)) {
        GivesUpAfterTimeout(n, initial, es[..k - 1], t);
        assert TimedOut(es[..k - 1], t);
      }
      TimedOutMore(es[..k - 1], es[k - 1], t);
    }
  }

  // ----- a plain take -----

  /** Inside a plain take, before its value--. */
  predicate InPlainTake(pc: Pc) {
    match pc
    case TakeTest(timed, _) => !timed
    case TakeWon(_) => true
    case Blocked(timed) => !timed
    case Woken(timed) => !timed
    case _ => false
  }

  lemma PlainTakeStep(s: State, e: Event, t: nat)
    requires Enabled(s, e) && t < |s.pcs|
    requires InPlainTake(s.pcs[t]) || (s.pcs[t].Idle? && e == TakeLock(t, false))
    ensures e == TakeSubtract(t) || InPlainTake(Apply(s, e).pcs[t])
  {
  }

  lemma {:induction false} PlainTakeStays(s: State, es: seq<Event>, t: nat, i: nat, k: nat)
    requires IsRun(s, es) && t < |s.pcs| && i < k <= |es| && es[i] == TakeLock(t, false)
    ensures IsRun(s, es[..k])
    ensures InPlainTake(After(s, es[..k]).pcs[t]) || exists j :: i < j < k && es[j] == TakeSubtract(t)
    decreases k
  {
    hide IsRun, After, Apply, InPlainTake;
    RunPrefix(s, es, k - 1);
    if k - 1 > i { PlainTakeStays(s, es, t, i, k - 1); }
    if k - 1 == i || InPlainTake(After(s, es[..k - 1]).pcs[t]) {
      PlainTakeStep(After(s, es[..k - 1]), es[k - 1], t);
    }
  }

  /** In every run, whatever the other threads do: a plain take is left only after its own value--. */
  lemma PlainTakeTakes(n: nat, initial: int, es: seq<Event>, t: nat, i: nat)
    requires IsRun(Initial(n, initial), es) && t < n && i < |es| && es[i] == TakeLock(t, false)
    requires After(Initial(n, initial), es).pcs[t].Idle?
    ensures exists j :: i < j < |es| && es[j] == TakeSubtract(t)
  {
    PlainTakeStays(Initial(n, initial), es, t, i, |es|);
    assert es[..|es|] == es;
  }

  // ----- accounts -----

  function Count(es: seq<Event>, kind: Event -> bool): (n: nat) {
    if es == [] then 0 else (if kind(es[0]) then 1 else 0) + Count(es[1..], kind)
  }

  predicate Adds(e: Event) { e.GiveAdd? }

  predicate Subtracts(e: Event) { e.TakeSubtract? }

  predicate Lates(e: Event) { e.Late? }

  lemma AccountsStep(s: State, e: Event)
    requires Enabled(s, e)
    ensures Apply(s, e).value == s.value + (if Adds(e) then 1 else 0) - (if Subtracts(e) then 1 else 0)
    ensures Apply(s, e).given == s.given + if Adds(e) then 1 else 0
    ensures Apply(s, e).taken == s.taken + if Subtracts(e) then 1 else 0
    ensures Apply(s, e).lost == s.lost + if Lates(e) then 1 else 0
  {
  }

  lemma {:induction false} AccountsFrom(s: State, es: seq<Event>)
    requires IsRun(s, es)
    ensures var z := After(s, es);
      && z.value == s.value + Count(es, Adds) - Count(es, Subtracts)
      && z.given == s.given + Count(es, Adds)
      && z.taken == s.taken + Count(es, Subtracts)
      && z.lost == s.lost + Count(es, Lates)
    decreases |es|
  {
    hide Enabled, Apply, Adds, Subtracts, Lates;
    if es != [] {
      AccountsStep(s, es[0]);
      AccountsFrom(Apply(s, es[0]), es[1..]);
    }
  }

  /** After every run the value is the initial one, plus one for each value++ of the run, minus one for each value--. */
  lemma ValueCounts(n: nat, initial: int, es: seq<Event>)
    requires IsRun(Initial(n, initial), es)
    ensures var s := After(Initial(n, initial), es);
      && s.value == initial + Count(es, Adds) - Count(es, Subtracts)
      && s.given == Count(es, Adds) && s.taken == Count(es, Subtracts) && s.lost == Count(es, Lates)
  {
    AccountsFrom(Initial(n, initial), es);
  }

  /** The steps of one thread, in order. */
  function Own(es: seq<Event>, t: nat): (r: seq<Event>) {
    if es == [] then [] else (if es[0].t == t then [es[0]] else []) + Own(es[1..], t)
  }

  predicate Gives(e: Event) { e.GiveLock? }

  predicate Signals(e: Event) { e.Signal? }

  predicate Takes(e: Event) { e.TakeLock? }

  predicate Fails(e: Event) { e.FailUnlock? }

  predicate TimesOut(e: Event) { e.Timeout? || e.Late? }

  /** Calls of give, value++ steps, signals, calls of take, value-- steps, timeouts, and takes that returned false. */
  datatype Accounts =
    Accounts(gives: nat, adds: nat, signals: nat, takes: nat, subtracts: nat, timeouts: nat, fails: nat)

  function AccountsOf(es: seq<Event>): (a: Accounts) {
    Accounts(Count(es, Gives), Count(es, Adds), Count(es, Signals), Count(es, Takes), Count(es, Subtracts),
             Count(es, TimesOut), Count(es, Fails))
  }

  /** What the calls of give that a thread has begun still owe, by where it is inside them. */
  ghost predicate GivesOwe(pc: Pc, a: Accounts) {
    && a.gives == a.adds + (if pc.GiveLocked? then 1 else 0)
    && a.adds == a.signals + (if pc.GiveRaised? || pc.GiveSignal? then 1 else 0)
  }

  /** The same for its calls of take. */
  ghost predicate TakesOwe(pc: Pc, a: Accounts) {
    && a.timeouts == a.fails + (if pc.Expired? || pc.TakeFailed? then 1 else 0)
    && a.takes == a.subtracts + a.timeouts
                  + (if pc.TakeTest? || pc.TakeWon? || pc.Blocked? || pc.Woken? then 1 else 0)
  }

  function Plus(a: Accounts, e: Event): (b: Accounts) {
    Accounts(a.gives + (if Gives(e) then 1 else 0), a.adds + (if Adds(e) then 1 else 0),
             a.signals + (if Signals(e) then 1 else 0), a.takes + (if Takes(e) then 1 else 0),
             a.subtracts + (if Subtracts(e) then 1 else 0), a.timeouts + (if TimesOut(e) then 1 else 0),
             a.fails + (if Fails(e) then 1 else 0))
  }

  lemma GivesOweStep(s: State, e: Event, t: nat, a: Accounts)
    requires Enabled(s, e) && t < |s.pcs| && GivesOwe(s.pcs[t], a)
    ensures GivesOwe(Apply(s, e).pcs[t], if e.t == t then Plus(a, e) else a)
  {
  }

  lemma TakesOweStep(s: State, e: Event, t: nat, a: Accounts)
    requires Enabled(s, e) && t < |s.pcs| && TakesOwe(s.pcs[t], a)
    ensures TakesOwe(Apply(s, e).pcs[t], if e.t == t then Plus(a, e) else a)
  {
  }

  lemma {:induction false} CountSnoc(es: seq<Event>, e: Event, kind: Event -> bool)
    ensures Count(es + [e], kind) == Count(es, kind) + if kind(e) then 1 else 0
  {
    if es == [] {
      assert (es + [e])[1..] == [];
    } else {
      assert (es + [e])[1..] == es[1..] + [e];
      CountSnoc(es[1..], e, kind);
    }
  }

  lemma {:induction false} OwnSnoc(es: seq<Event>, e: Event, t: nat)
    ensures Own(es + [e], t) == Own(es, t) + if e.t == t then [e] else []
  {
    if es == [] {
      assert (es + [e])[1..] == [];
    } else {
      assert (es + [e])[1..] == es[1..] + [e];
      OwnSnoc(es[1..], e, t);
    }
  }

  lemma AccountsSnoc(es: seq<Event>, e: Event)
    ensures AccountsOf(es + [e]) == Plus(AccountsOf(es), e)
  {
    hide Count;
    CountSnoc(es, e, Gives);
    CountSnoc(es, e, Adds);
    CountSnoc(es, e, Signals);
    CountSnoc(es, e, Takes);
    CountSnoc(es, e, Subtracts);
    CountSnoc(es, e, TimesOut);
    CountSnoc(es, e, Fails);
  }

  lemma {:induction false} OwesAlways(n: nat, initial: int, es: seq<Event>, t: nat)
    requires IsRun(Initial(n, initial), es) && t < n
    ensures GivesOwe(After(Initial(n, initial), es).pcs[t], AccountsOf(Own(es, t)))
    ensures TakesOwe(After(Initial(n, initial), es).pcs[t], AccountsOf(Own(es, t)))
    decreases |es|
  {
    hide IsRun, After, Enabled, Apply, GivesOwe, TakesOwe, AccountsOf, Plus, Own;
    var k := |es|;
    if k == 0 {
      OwesNothing(n, initial, es, t);
    } else {
      RunPrefix(Initial(n, initial), es, k - 1);
      assert es[..k] == es && es[..k - 1] + [es[k - 1]] == es;
      var before, own := After(Initial(n, initial), es[..k - 1]), Own(es[..k - 1], t);
      OwesAlways(n, initial, es[..k - 1], t);
      GivesOweStep(before, es[k - 1], t, AccountsOf(own));
      TakesOweStep(before, es[k - 1], t, AccountsOf(own));
      OwnSnoc(es[..k - 1], es[k - 1], t);
      AccountsSnoc(own, es[k - 1]);
      assert own + [] == own;
    }
  }

  lemma OwesNothing(n: nat, initial: int, es: seq<Event>, t: nat)
    requires es == [] && t < n
    ensures IsRun(Initial(n, initial), es)
    ensures GivesOwe(After(Initial(n, initial), es).pcs[t], AccountsOf(Own(es, t)))
    ensures TakesOwe(After(Initial(n, initial), es).pcs[t], AccountsOf(Own(es, t)))
  {
    assert Own(es, t) == [];
  }

  /**
   A thread that is outside the semaphore has, for each of its gives, one value++ and one signal, and for each
   of its takes either one value-- or one timeout, the latter for exactly the takes that returned false.
   */
  lemma CallsAccountedFor(n: nat, initial: int, es: seq<Event>, t: nat)
    requires IsRun(Initial(n, initial), es) && t < n && After(Initial(n, initial), es).pcs[t].Idle?
    ensures var own := Own(es, t);
      && Count(own, Gives) == Count(own, Adds) == Count(own, Signals)
      && Count(own, Takes) == Count(own, Subtracts) + Count(own, Fails)
      && Count(own, TimesOut) == Count(own, Fails)
  {
    OwesAlways(n, initial, es, t);
  }

  // ----- a call that no other thread interrupts -----

  lemma RunCons(s: State, e: Event, es: seq<Event>)
    requires Enabled(s, e) && IsRun(Apply(s, e), es)
    ensures IsRun(s, [e] + es) && After(s, [e] + es) == After(Apply(s, e), es)
  {
    assert ([e] + es)[1..] == es;
  }

  lemma RunNone(s: State)
    ensures IsRun(s, []) && After(s, []) == s
  {
  }

  /** give raises the value by one and ends outside, with the mutex free; its signal wakes whom it may wake. */
  lemma GiveAlone(s: State, t: nat, waiter: Waiter)
    requires t < |s.pcs| && s.pcs[t].Idle? && s.mutex.Free?
    requires match waiter
      case Nobody => forall u :: 0 <= u < |s.pcs| ==> !s.pcs[u].Blocked?
      case Wakes(u) => u < |s.pcs| && s.pcs[u].Blocked?
    ensures var es := [GiveLock(t), GiveAdd(t), GiveUnlock(t), Signal(t, waiter)];
      && IsRun(s, es)
      && After(s, es) == s.(value := s.value + 1, given := s.given + 1, pcs := match waiter
                            case Nobody => s.pcs
                            case Wakes(u) => s.pcs[u := Woken(s.pcs[u].timed)])
  {
    var s1 := Apply(s, GiveLock(t));
    var s2 := Apply(s1, GiveAdd(t));
    var s3 := Apply(s2, GiveUnlock(t));
    assert s3 == s.(value := s.value + 1, given := s.given + 1, pcs := s.pcs[t := GiveSignal]);
    assert Enabled(s3, Signal(t, waiter));
    var s4 := Apply(s3, Signal(t, waiter));
    assert s.pcs[t := GiveSignal][t := Idle] == s.pcs;
    hide IsRun, After, Apply, Enabled;
    RunNone(s4);
    RunCons(s3, Signal(t, waiter), []);
    RunCons(s2, GiveUnlock(t), [Signal(t, waiter)]);
    RunCons(s1, GiveAdd(t), [GiveUnlock(t), Signal(t, waiter)]);
    RunCons(s, GiveLock(t), [GiveAdd(t), GiveUnlock(t), Signal(t, waiter)]);
  }

  /** A take that finds a unit lowers the value by one and ends outside, with the mutex free. */
  lemma TakeAlone(s: State, t: nat, timed: bool)
    requires t < |s.pcs| && s.pcs[t].Idle? && s.mutex.Free? && s.value > 0
    ensures var es := [TakeLock(t, timed), Test(t), TakeSubtract(t), TakeUnlock(t)];
      && IsRun(s, es)
      && After(s, es) == s.(value := s.value - 1, taken := s.taken + 1)
  {
    var s1 := Apply(s, TakeLock(t, timed));
    var s2 := Apply(s1, Test(t));
    var s3 := Apply(s2, TakeSubtract(t));
    assert s3 == State(s.value - 1, Held(t), s.pcs[t := TakeDone], s.given, s.taken + 1, s.lost);
    var s4 := Apply(s3, TakeUnlock(t));
    assert s4.pcs == s.pcs;
    hide IsRun, After, Apply;
    RunNone(s4);
    RunCons(s3, TakeUnlock(t), []);
    RunCons(s2, TakeSubtract(t), [TakeUnlock(t)]);
    RunCons(s1, Test(t), [TakeSubtract(t), TakeUnlock(t)]);
    RunCons(s, TakeLock(t, timed), [Test(t), TakeSubtract(t), TakeUnlock(t)]);
  }

  /** A take that finds none blocks with the mutex free, and a wake-up for nothing leaves it as it was. */
  lemma TakeWaits(s: State, t: nat, timed: bool)
    requires t < |s.pcs| && s.pcs[t].Idle? && s.mutex.Free? && s.value <= 0
    ensures var waiting := s.(pcs := s.pcs[t := Blocked(timed)]);
      && IsRun(s, [TakeLock(t, timed), Test(t)]) && After(s, [TakeLock(t, timed), Test(t)]) == waiting
      && IsRun(waiting, [Spurious(t), Relock(t), Test(t)])
      && After(waiting, [Spurious(t), Relock(t), Test(t)]) == waiting
  {
    var s1 := Apply(s, TakeLock(t, timed));
    var s2 := Apply(s1, Test(t));
    var s3 := Apply(s2, Spurious(t));
    var s4 := Apply(s3, Relock(t));
    assert s2 == s.(pcs := s.pcs[t := Blocked(timed)]) == Apply(s4, Test(t));
    hide IsRun, After, Apply;
    RunNone(s2);
    RunCons(s1, Test(t), []);
    RunCons(s, TakeLock(t, timed), [Test(t)]);
    RunCons(s4, Test(t), []);
    RunCons(s3, Relock(t), [Test(t)]);
    RunCons(s2, Spurious(t), [Relock(t), Test(t)]);
  }

  /** A timed take that waits can time out at any moment, even once a signal has come; it then leaves with nothing. */
  lemma TimedTakeFails(s: State, t: nat)
    requires t < |s.pcs| && s.mutex.Free? && (s.pcs[t] == Blocked(true) || s.pcs[t] == Woken(true))
    ensures var e, late := if s.pcs[t].Blocked? then Timeout(t) else Late(t), if s.pcs[t].Blocked? then 0 else 1;
      && IsRun(s, [e, Relock(t), FailUnlock(t)])
      && After(s, [e, Relock(t), FailUnlock(t)]) == s.(pcs := s.pcs[t := Idle], lost := s.lost + late)
  {
    var e := if s.pcs[t].Blocked? then Timeout(t) else Late(t);
    var s1 := Apply(s, e);
    var s2 := Apply(s1, Relock(t));
    var s3 := Apply(s2, FailUnlock(t));
    hide IsRun, After, Apply;
    RunNone(s3);
    RunCons(s2, FailUnlock(t), []);
    RunCons(s1, Relock(t), [FailUnlock(t)]);
    RunCons(s, e, [Relock(t), FailUnlock(t)]);
  }
}
