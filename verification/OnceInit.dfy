/**
 Lock-free once-initialisation (GetAtomicVar in pxr/base/arch/timing.cpp), for any number of threads.

 The atomic is the list of all values it has had, in modification order. A relaxed load may return an old
 value, but coherence forbids a thread to go back before what it has already seen: its view. A successful
 compare-exchange reads the newest value; a failed one is a load of some value other than the expected.
*/
module OnceInit {

  const UNINITIALIZED: real := -1.0
  const INITIALIZING: real := -2.0

  datatype Pc = Starts                 // about to load the state
              | Exchanges              // has read UNINITIALIZED
              | Computes               // won the exchange
              | Stores(newVal: real)   // has computed the value
              | Spins                  // waits for the winner's value
              | Returned(value: real)

  datatype Thread = Thread(pc: Pc, view: nat)

  datatype State = State(history: seq<real>, threads: seq<Thread>, computed: seq<real>)

  datatype Event = Load(i: nat, k: nat)          // the first load; returns history[k]
                 | ExchangeWorks(i: nat)
                 | ExchangeFails(i: nat, k: nat) // leaves history[k] in `state`
                 | Compute(i: nat, v: real)      // computeVal() returns v
                 | Store(i: nat)
                 | SpinLoad(i: nat, k: nat)

  predicate Init(s: State) {
    s.history == [UNINITIALIZED] && s.computed == [] && forall t :: t in s.threads ==> t == Thread(Starts, 0)
  }

  predicate Coherent(s: State, i: nat, k: nat)
    requires i < |s.threads|
  {
    s.threads[i].view <= k < |s.history|
  }

  predicate Enabled(s: State, e: Event) {
    && e.i < |s.threads|
    && var pc := s.threads[e.i].pc;
       match e
       case Load(i, k) => pc == Starts && Coherent(s, i, k)
       case ExchangeWorks(_) => pc == Exchanges && s.history != [] && s.history[|s.history| - 1] == UNINITIALIZED
       case ExchangeFails(i, k) => pc == Exchanges && Coherent(s, i, k) && s.history[k] != UNINITIALIZED
       case Compute(_, _) => pc == Computes
       case Store(_) => pc.Stores?
       case SpinLoad(i, k) => pc == Spins && Coherent(s, i, k)
  }

  /** The loop `while (state < 0)` is left as soon as a non-negative value has been read. */
  function Waits(state: real): Pc {
    if state < 0.0 then Spins else Returned(state)
  }

  function FirstCheck(state: real): Pc {
    if state >= 0.0 then Returned(state) else if state == UNINITIALIZED then Exchanges else Spins
  }

  function SetThread(s: State, i: nat, pc: Pc, view: nat): State
    requires i < |s.threads|
  {
    s.(threads := s.threads[i := Thread(pc, view)])
  }

  function After(s: State, e: Event): State
    requires Enabled(s, e)
  {
    match e
    case Load(i, k) => SetThread(s, i, FirstCheck(s.history[k]), k)
    case ExchangeWorks(i) =>
      SetThread(s.(history := s.history + [INITIALIZING]), i, Computes, |s.history|)
    case ExchangeFails(i, k) => SetThread(s, i, Waits(s.history[k]), k)
    case Compute(i, v) => SetThread(s.(computed := s.computed + [v]), i, Stores(v), s.threads[i].view)
    case Store(i) =>
      var v := s.threads[i].pc.newVal;
      SetThread(s.(history := s.history + [v]), i, Returned(v), |s.history|)
    case SpinLoad(i, k) => SetThread(s, i, Waits(s.history[k]), k)
  }

  ghost predicate Runs(s: State, es: seq<Event>, s': State)
    decreases |es|
  {
    if es == [] then s == s'
    else Enabled(s, es[0]) && Runs(After(s, es[0]), es[1..], s')
  }

  /** Every result of computeVal in the run is one of the allowed ones. */
  predicate ComputesOnly(es: seq<Event>, allowed: real -> bool) {
    forall e :: e in es && e.Compute? ==> allowed(e.v)
  }

  // ---------- the invariant ----------

  /** Before the exchange, between the exchange and the store, and after the store. */
  predicate Fresh(s: State) {
    && s.history == [UNINITIALIZED] && s.computed == []
    && forall i :: 0 <= i < |s.threads| ==> s.threads[i].pc == Starts || s.threads[i].pc == Exchanges
  }

  predicate Claimed(s: State, w: nat) {
    && s.history == [UNINITIALIZED, INITIALIZING]
    && w < |s.threads|
    && ((s.threads[w].pc == Computes && s.computed == [])
        || (s.threads[w].pc.Stores? && s.computed == [s.threads[w].pc.newVal]))
    && forall i :: 0 <= i < |s.threads| && i != w ==>
         s.threads[i].pc == Starts || s.threads[i].pc == Exchanges || s.threads[i].pc == Spins
  }

  predicate Done(s: State, w: nat) {
    && |s.computed| == 1 && s.history == [UNINITIALIZED, INITIALIZING, s.computed[0]]
    && w < |s.threads| && s.threads[w].pc == Returned(s.computed[0])
    && forall i :: 0 <= i < |s.threads| && i != w ==>
         || s.threads[i].pc == Starts || s.threads[i].pc == Exchanges || s.threads[i].pc == Spins
         || (s.threads[i].pc == Returned(s.computed[0]) && s.computed[0] >= 0.0)
  }

  ghost predicate Inv(s: State) {
    && (s.computed != [] ==> s.computed[0] != UNINITIALIZED)
    && (forall i :: 0 <= i < |s.threads| ==> s.threads[i].view < |s.history|)
    && (Fresh(s) || exists w :: Claimed(s, w) || Done(s, w))
  }

  lemma FreshKept(s: State, e: Event)
    requires Inv(s) && Fresh(s) && Enabled(s, e)
    ensures var s' := After(s, e); if e.ExchangeWorks? then Claimed(s', e.i) else Fresh(s')
  {
  }

  lemma ClaimedKept(s: State, e: Event, w: nat)
    requires Inv(s) && Claimed(s, w) && Enabled(s, e) && (e.Compute? ==> e.v != UNINITIALIZED)
    ensures var s' := After(s, e); if e.Store? then Done(s', w) else Claimed(s', w)
  {
  }

  lemma DoneKept(s: State, e: Event, w: nat)
    requires Inv(s) && Done(s, w) && Enabled(s, e)
    ensures Done(After(s, e), w)
  {
  }

  lemma InvKept(s: State, e: Event)
    requires Inv(s) && Enabled(s, e) && (e.Compute? ==> e.v != UNINITIALIZED)
    ensures Inv(After(s, e))
  {
    hide Fresh, Claimed, Done;
    if Fresh(s) {
      FreshKept(s, e);
    } else {
      var w :| Claimed(s, w) || Done(s, w);
      if Claimed(s, w) {
        ClaimedKept(s, e, w);
      } else {
        DoneKept(s, e, w);
      }
    }
    ComputedKept(s, e);
  }

  lemma ComputedKept(s: State, e: Event)
    requires Inv(s) && Enabled(s, e) && (e.Compute? ==> e.v != UNINITIALIZED)
    ensures var s' := After(s, e);
            && (s'.computed != [] ==> s'.computed[0] != UNINITIALIZED)
            && (forall i :: 0 <= i < |s'.threads| ==> s'.threads[i].view < |s'.history|)
  {
  }

  lemma {:induction false} InvHolds(s: State, es: seq<Event>, s': State)
    requires Inv(s) && Runs(s, es, s') && ComputesOnly(es, v => v != UNINITIALIZED)
    ensures Inv(s')
    decreases |es|
  {
    if es != [] {
      assert es[0] in es;
      InvKept(s, es[0]);
      InvHolds(After(s, es[0]), es[1..], s');
    }
  }

  // ---------- the main results ----------

  /** The results of computeVal in the run. */
  function Computations(es: seq<Event>): seq<real> {
    if es == [] then [] else (if es[0].Compute? then [es[0].v] else []) + Computations(es[1..])
  }

  lemma {:induction false} ComputedIs(s: State, es: seq<Event>, s': State)
    requires Runs(s, es, s')
    ensures s'.computed == s.computed + Computations(es)
    decreases |es|
  {
    if es != [] {
      ComputedIs(After(s, es[0]), es[1..], s');
      assert After(s, es[0]).computed == s.computed + if es[0].Compute? then [es[0].v] else [];
    }
  }

  /** computeVal runs at most once, the atomic only moves forward, and all threads return what was computed. */
  lemma OnlyOnce(s0: State, es: seq<Event>, s: State)
    requires Init(s0) && Runs(s0, es, s) && ComputesOnly(es, v => v != -1.0)
    ensures |Computations(es)| <= 1
    ensures s.history <= [-1.0, -2.0] + Computations(es)
    ensures forall i :: 0 <= i < |s.threads| && s.threads[i].pc.Returned? ==>
              Computations(es) == [s.threads[i].pc.value]
  {
    assert forall i :: 0 <= i < |s0.threads| ==> s0.threads[i] in s0.threads;
    assert Fresh(s0);
    InvHolds(s0, es, s);
    ComputedIs(s0, es, s);
    if !Fresh(s) {
      var w :| Claimed(s, w) || Done(s, w);
    }
  }

  lemma {:induction false} ComputationsAllowed(es: seq<Event>, allowed: real -> bool)
    requires ComputesOnly(es, allowed)
    ensures forall v :: v in Computations(es) ==> allowed(v)
  {
    if es != [] {
      assert es[0] in es;
      ComputationsAllowed(es[1..], allowed);
    }
  }

  /** With a non-negative computeVal, every thread that returns gives the one value that was computed. */
  lemma AllReturnTheValue(s0: State, es: seq<Event>, s: State)
    requires Init(s0) && Runs(s0, es, s) && ComputesOnly(es, v => v >= 0.0)
    ensures forall i :: 0 <= i < |s.threads| && s.threads[i].pc.Returned? ==>
              Computations(es) == [s.threads[i].pc.value] && s.threads[i].pc.value >= 0.0
  {
    OnlyOnce(s0, es, s);
    ComputationsAllowed(es, v => v >= 0.0);
    forall i | 0 <= i < |s.threads| && s.threads[i].pc.Returned?
      ensures s.threads[i].pc.value >= 0.0
    {
      assert Computations(es)[0] in Computations(es);
    }
  }

  // ---------- exactly when computeVal runs only once ----------

  ghost predicate ComputesOnceFor(v: real) {
    forall s0, es, s :: Init(s0) && Runs(s0, es, s) && ComputesOnly(es, x => x == v) ==> |Computations(es)| <= 1
  }

  lemma Chain(s: State, e: Event, es: seq<Event>, s': State)
    requires Enabled(s, e) && Runs(After(s, e), es, s')
    ensures Runs(s, [e] + es, s')
  {
  }

  /** A computed -1 cannot be told from "uninitialised", so a second thread computes again. */
  lemma ComputesTwice() returns (s0: State, es: seq<Event>, s: State)
    ensures Init(s0) && Runs(s0, es, s) && ComputesOnly(es, x => x == -1.0) && |Computations(es)| == 2
  {
    s0 := State([UNINITIALIZED], [Thread(Starts, 0), Thread(Starts, 0)], []);
    var es1, t := ComputesAgain(s0, 0);
    var u := After(t, Store(0));
    var es2;
    es2, s := ComputesAgain(u, 1);
    Chain(t, Store(0), es2, s);
    RunsConcat(s0, es1, t, [Store(0)] + es2, s);
    es := es1 + ([Store(0)] + es2);
    ComputedIs(s0, es, s);
  }

  /** While the newest value is -1, a thread that starts goes on to compute. */
  lemma ComputesAgain(s: State, i: nat) returns (es: seq<Event>, t: State)
    requires i < |s.threads| && s.threads[i] == Thread(Starts, 0)
    requires |s.history| > 0 && s.history[0] == s.history[|s.history| - 1] == UNINITIALIZED
    ensures Runs(s, es, t) && ComputesOnly(es, x => x == UNINITIALIZED)
    ensures t.computed == s.computed + [UNINITIALIZED] && t.history == s.history + [INITIALIZING]
    ensures t.threads == s.threads[i := Thread(Stores(UNINITIALIZED), |s.history|)]
  {
    var s1 := After(s, Load(i, 0));
    var s2 := After(s1, ExchangeWorks(i));
    t := After(s2, Compute(i, UNINITIALIZED));
    es := [Load(i, 0), ExchangeWorks(i), Compute(i, UNINITIALIZED)];
    Chain(s2, Compute(i, UNINITIALIZED), [], t);
    Chain(s1, ExchangeWorks(i), [Compute(i, UNINITIALIZED)], t);
    Chain(s, Load(i, 0), [ExchangeWorks(i), Compute(i, UNINITIALIZED)], t);
  }

  lemma ComputesOnceIff(v: real)
    ensures ComputesOnceFor(v) <==> v != -1.0
  {
    if v != -1.0 {
      forall s0, es, s | Init(s0) && Runs(s0, es, s) && ComputesOnly(es, x => x == v)
        ensures |Computations(es)| <= 1
      {
        OnlyOnce(s0, es, s);
      }
    } else {
      var s0, es, s := ComputesTwice();
    }
  }

  // ---------- spinning threads ----------

  /** Once the value is stored, thread i can finish. */
  lemma FinishDone(s: State, w: nat, i: nat) returns (es: seq<Event>, s': State)
    requires Inv(s) && Done(s, w) && s.computed[0] >= 0.0 && i < |s.threads|
    ensures Runs(s, es, s') && s'.computed == s.computed
    ensures |s'.threads| == |s.threads| && s'.threads[i].pc == Returned(s.computed[0])
  {
    if s.threads[i].pc.Returned? {
      return [], s;
    }
    var pc := s.threads[i].pc;
    var e := if pc == Starts then Load(i, 2) else if pc == Exchanges then ExchangeFails(i, 2) else SpinLoad(i, 2);
    es, s' := [e], After(s, e);
    Chain(s, e, [], s');
  }

  /** The winner computes v and stores it. */
  lemma FinishClaimed(s: State, w: nat, v: real) returns (es: seq<Event>, s': State)
    requires Inv(s) && Claimed(s, w) && v != UNINITIALIZED
    ensures Runs(s, es, s') && ComputesOnly(es, x => x == v) && Inv(s') && Done(s', w)
    ensures |s'.threads| == |s.threads| && s'.computed == if s.computed == [] then [v] else s.computed
  {
    if s.computed == [] {
      var t := After(s, Compute(w, v));
      s' := After(t, Store(w));
      es := [Compute(w, v), Store(w)];
      Chain(t, Store(w), [], s');
      Chain(s, Compute(w, v), [Store(w)], s');
    } else {
      s' := After(s, Store(w));
      es := [Store(w)];
      Chain(s, Store(w), [], s');
    }
    assert Done(s', w);
  }

  lemma {:induction false} RunsConcat(s: State, es1: seq<Event>, t: State, es2: seq<Event>, s': State)
    requires Runs(s, es1, t) && Runs(t, es2, s')
    ensures Runs(s, es1 + es2, s')
    decreases |es1|
  {
    if es1 == [] {
      assert es1 + es2 == es2;
    } else {
      RunsConcat(After(s, es1[0]), es1[1..], t, es2, s');
      assert (es1 + es2)[1..] == es1[1..] + es2;
    }
  }

  /** From every reachable state, every thread can still get the value, whoever is waiting for whom. */
  lemma EveryThreadCanFinish(s: State, i: nat, v: real) returns (es: seq<Event>, s': State)
    requires Inv(s) && i < |s.threads| && v >= 0.0 && forall x :: x in s.computed ==> x >= 0.0
    ensures Runs(s, es, s') && |s'.threads| == |s.threads|
    ensures s'.threads[i].pc.Returned? && s.computed + Computations(es) == [s'.threads[i].pc.value]
    ensures s.computed == [] ==> s'.threads[i].pc == Returned(v)
  {
    es, s' := Finish(s, i, v);
    ComputedIs(s, es, s');
  }

  lemma Finish(s: State, i: nat, v: real) returns (es: seq<Event>, s': State)
    requires Inv(s) && i < |s.threads| && v >= 0.0 && forall x :: x in s.computed ==> x >= 0.0
    ensures Runs(s, es, s') && |s'.threads| == |s.threads|
    ensures s'.threads[i].pc.Returned? && s'.computed == [s'.threads[i].pc.value]
    ensures s.computed == [] ==> s'.computed == [v]
  {
    if Fresh(s) {
      var es1, t := Claim(s, i);
      var es2, u := FinishClaimed(t, i, v);
      RunsConcat(s, es1, t, es2, u);
      es, s' := es1 + es2, u;
    } else {
      var w :| Claimed(s, w) || Done(s, w);
      assert Done(s, w) ==> s.computed[0] in s.computed;
      if Claimed(s, w) {
        assert s.computed != [] ==> s.computed[0] in s.computed;
        var es1, t := FinishClaimed(s, w, v);
        var es2, u := FinishDone(t, w, i);
        RunsConcat(s, es1, t, es2, u);
        es, s' := es1 + es2, u;
      } else {
        es, s' := FinishDone(s, w, i);
      }
    }
  }

  lemma Claim(s: State, i: nat) returns (es: seq<Event>, t: State)
    requires Inv(s) && Fresh(s) && i < |s.threads|
    ensures Runs(s, es, t) && Inv(t) && Claimed(t, i) && t.computed == [] && |t.threads| == |s.threads|
  {
    if s.threads[i].pc == Starts {
      var u := After(s, Load(i, 0));
      t := After(u, ExchangeWorks(i));
      es := [Load(i, 0), ExchangeWorks(i)];
      Chain(u, ExchangeWorks(i), [], t);
      Chain(s, Load(i, 0), [ExchangeWorks(i)], t);
    } else {
      t := After(s, ExchangeWorks(i));
      es := [ExchangeWorks(i)];
      Chain(s, ExchangeWorks(i), [], t);
    }
    assert Claimed(t, i);
  }

  /** Thread i reads the newest value: the first load, a failed exchange, or a load in the waiting loop. */
  predicate LoadsNewest(s: State, e: Event, i: nat) {
    e.i == i && (e.Load? || e.ExchangeFails? || e.SpinLoad?) && e.k == |s.history| - 1
  }

  /** After the store nothing is added to the atomic, and a thread that has returned stays so. */
  lemma DoneStays(s: State, e: Event, w: nat, i: nat)
    requires Inv(s) && Done(s, w) && i < |s.threads| && Enabled(s, e)
    ensures (var t := After(s, e);
             && Inv(t) && Done(t, w) && |t.threads| == |s.threads|
             && t.history == s.history && t.computed == s.computed
             && (s.threads[i].pc.Returned? ==> t.threads[i].pc == s.threads[i].pc)
             && (LoadsNewest(s, e, i) && s.computed[0] >= 0.0 ==> t.threads[i].pc == Returned(s.computed[0])))
  {
    hide Inv;
    InvKept(s, e);
    DoneKept(s, e, w);
  }

  /**
   * After a non-negative value has been stored, in every run, whatever the others do: a thread that has read the
   * newest value has returned it. So a waiting thread returns in every run in which it comes to see the store.
   */
  lemma {:induction false} NewestLoadReleases(s: State, es: seq<Event>, s': State, w: nat, i: nat)
    requires Inv(s) && Done(s, w) && s.computed[0] >= 0.0 && i < |s.threads| && Runs(s, es, s')
    requires s.threads[i].pc == Returned(s.computed[0]) || exists e :: e in es && LoadsNewest(s, e, i)
    ensures i < |s'.threads| && s'.threads[i].pc == Returned(s.computed[0])
    decreases |es|
  {
    if es != [] {
      hide Inv, Done, Enabled, After;
      DoneStays(s, es[0], w, i);
      var t := After(s, es[0]);
      if t.threads[i].pc != Returned(s.computed[0]) {
        var e :| e in es && LoadsNewest(s, e, i);
        assert e in es[1..] && LoadsNewest(t, e, i);
      }
      NewestLoadReleases(t, es[1..], s', w, i);
    }
  }

  /** After a negative value has been stored, a spinning thread spins for ever. */
  lemma {:induction false} NegativeNeverReleases(s: State, es: seq<Event>, s': State, w: nat, i: nat)
    requires Inv(s) && Done(s, w) && s.computed[0] < 0.0 && i < |s.threads| && s.threads[i].pc == Spins
    requires Runs(s, es, s')
    ensures i < |s'.threads| && s'.threads[i].pc == Spins
    decreases |es|
  {
    if es != [] {
      var t := After(s, es[0]);
      InvKept(s, es[0]);
      assert Done(t, w);
      NegativeNeverReleases(t, es[1..], s', w, i);
    }
  }

  /** Some continuation has thread i return v. */
  ghost predicate CanReturn(s: State, i: nat, v: real) {
    exists es, s' :: Runs(s, es, s') && i < |s'.threads| && s'.threads[i].pc == Returned(v)
  }

  /** The winner's store releases a spinning thread exactly if the value is not negative. */
  lemma ReleasedIff(s: State, w: nat, i: nat)
    requires Inv(s) && Done(s, w) && i < |s.threads| && s.threads[i].pc == Spins
    ensures CanReturn(s, i, s.computed[0]) <==> s.computed[0] >= 0.0
  {
    hide Runs, Inv;
    if s.computed[0] >= 0.0 {
      var es, s' := FinishDone(s, w, i);
    } else if CanReturn(s, i, s.computed[0]) {
      var es, s' :| Runs(s, es, s') && i < |s'.threads| && s'.threads[i].pc == Returned(s.computed[0]);
      NegativeNeverReleases(s, es, s', w, i);
    }
  }
}
