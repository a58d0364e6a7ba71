/**
  The reusable barrier as a step system: two semaphores, one counter, any number of
  threads and any number of rounds.
 */
module Barrier {

  /** Where a thread stands in wait(): outside, at the arrival semaphore, before counting
      itself in, before passing a token on, at the departure semaphore, before counting
      itself out, before passing a token on. */
  datatype PC = Outside | WantArrival | Inc | PostArrival | WantDeparture | Dec | PostDeparture

  datatype State = State(
    participants: nat,
    threads: seq<PC>,
    arrival: nat, departure: nat,    // the semaphores' values
    counter: int,
    round: nat,                      // history: rounds completed
    came: nat, went: nat,            // history: arrivals and departures of this round
    arrived: seq<nat>,               // history: how often each thread was counted in
    left: seq<nat>)                  // history: and out

  datatype Event = Move(t: nat)

  function Put(s: State, t: nat, pc: PC): State
    requires t < |s.threads|
  {
    s.(threads := s.threads[t := pc])
  }

  /** sem_wait blocks at 0. */
  predicate Enabled(s: State, e: Event) {
    && e.t < |s.threads| && |s.arrived| == |s.left| == |s.threads|
    && (s.threads[e.t].WantArrival? ==> s.arrival > 0)
    && (s.threads[e.t].WantDeparture? ==> s.departure > 0)
  }

  function Step(s: State, e: Event): State
    requires Enabled(s, e)
  {
    var t := e.t;
    match s.threads[t]
    case Outside => Put(s, t, WantArrival)
    case WantArrival => Put(s.(arrival := s.arrival - 1), t, Inc)
    case Inc =>
      Put(s.(counter := s.counter + 1, came := s.came + 1, arrived := s.arrived[t := s.arrived[t] + 1]), t, PostArrival)
    case PostArrival =>
      if s.counter < s.participants then Put(s.(arrival := s.arrival + 1), t, WantDeparture)
      else Put(s.(departure := s.departure + 1), t, WantDeparture)
    case WantDeparture => Put(s.(departure := s.departure - 1), t, Dec)
    case Dec =>
      Put(s.(counter := s.counter - 1, went := s.went + 1, left := s.left[t := s.left[t] + 1]), t, PostDeparture)
    case PostDeparture =>
      if s.counter > 0 then Put(s.(departure := s.departure + 1), t, Outside)
      else Put(s.(arrival := s.arrival + 1, round := s.round + 1, came := 0, went := 0), t, Outside)
  }

  predicate Init(s: State) {
    && s.participants > 0 && s.arrival == 1 && s.departure == 0 && s.counter == 0
    && s.round == s.came == s.went == 0
    && |s.arrived| == |s.left| == |s.threads|
    && forall t :: 0 <= t < |s.threads| ==> s.threads[t] == Outside && s.arrived[t] == s.left[t] == 0
  }

  // --------------------------------------------------------------- the invariant

  predicate HoldsToken(pc: PC) { pc.Inc? || pc.PostArrival? || pc.Dec? || pc.PostDeparture? }

  /** Counted in and not yet out. */
  predicate Inside(pc: PC) { pc.PostArrival? || pc.WantDeparture? || pc.Dec? }

  function InsideCount(threads: seq<PC>): nat {
    if threads == [] then 0 else InsideCount(threads[1..]) + if Inside(threads[0]) then 1 else 0
  }

  lemma {:induction false} CountUpdate(threads: seq<PC>, t: nat, pc: PC)
    requires t < |threads|
    ensures InsideCount(threads[t := pc]) ==
            InsideCount(threads) - (if Inside(threads[t]) then 1 else 0) + (if Inside(pc) then 1 else 0)
  {
    if t > 0 {
      CountUpdate(threads[1..], t - 1, pc);
      assert threads[t := pc][1..] == threads[1..][t - 1 := pc];
    } else {
      assert threads[t := pc][1..] == threads[1..];
    }
  }

  lemma {:induction false} CountAll(threads: seq<PC>)
    ensures InsideCount(threads) <= |threads|
    ensures InsideCount(threads) == |threads| <==> forall t :: 0 <= t < |threads| ==> Inside(threads[t])
    ensures InsideCount(threads) == 0 <==> forall t :: 0 <= t < |threads| ==> !Inside(threads[t])
  {
    if threads != [] {
      CountAll(threads[1..]);
      assert forall t :: 1 <= t < |threads| ==> threads[t] == threads[1..][t - 1];
    }
  }

  /** One thread's part: it holds the only token and knows the counter, and it has been
      counted in and out once per round. */
  predicate ThreadOk(s: State, t: nat)
    requires t < |s.threads| == |s.arrived| == |s.left|
  {
    var pc := s.threads[t];
    && s.arrived[t] == s.left[t] + (if Inside(pc) then 1 else 0)
    && (HoldsToken(pc) ==> s.arrival + s.departure == 0)
    && (pc.Inc? ==> s.went == 0 && s.counter < s.participants)
    && (pc.PostArrival? ==> s.went == 0 && 0 < s.counter <= s.participants)
    && (pc.Dec? ==> s.came == s.participants && s.counter > 0)
    && (pc.PostDeparture? ==> s.came == s.participants && s.counter < s.participants)
  }

  predicate Alone(s: State, t: nat, u: nat)
    requires t < |s.threads| && u < |s.threads|
  {
    HoldsToken(s.threads[t]) && HoldsToken(s.threads[u]) ==> t == u
  }

  /** As many threads as participants: each one is in step with the rounds. */
  predicate InStep(s: State, t: nat)
    requires t < |s.threads| == |s.arrived| == |s.left|
  {
    && (s.went == 0 ==> s.left[t] == s.round)
    && (s.came == s.participants ==> s.arrived[t] == s.round + 1)
    && s.round <= s.left[t] <= s.arrived[t] <= s.round + 1
  }

  predicate Inv(s: State) {
    && |s.threads| == |s.arrived| == |s.left|
    && s.participants > 0 && s.arrival + s.departure <= 1
    && (s.arrival + s.departure == 0 ==> exists t :: 0 <= t < |s.threads| && HoldsToken(s.threads[t]))
    && (forall t {:trigger ThreadOk(s, t)} :: 0 <= t < |s.threads| ==> ThreadOk(s, t))
    && (forall t, u {:trigger Alone(s, t, u)} :: 0 <= t < |s.threads| && 0 <= u < |s.threads| ==> Alone(s, t, u))
    && s.counter == InsideCount(s.threads) == s.came - s.went && s.came <= s.participants
    && (s.arrival == 1 ==> s.went == 0 && s.counter < s.participants)
    && (s.departure == 1 ==> s.came == s.participants && s.counter > 0)
    && (|s.threads| == s.participants ==> forall t {:trigger InStep(s, t)} :: 0 <= t < |s.threads| ==> InStep(s, t))
  }

  lemma InitInv(s: State)
    requires Init(s)
    ensures Inv(s)
  {
    CountAll(s.threads);
  }

  /** A step that lets one thread go on, with the counters of the others as they were. */
  lemma Moved(s: State, s': State, t: nat)
    requires Inv(s) && t < |s.threads| == |s'.threads| == |s'.arrived| == |s'.left|
    requires s'.threads == s.threads[t := s'.threads[t]]
    requires forall u :: 0 <= u < |s.threads| && u != t ==> s'.arrived[u] == s.arrived[u] && s'.left[u] == s.left[u]
    requires ThreadOk(s', t) && s'.participants == s.participants && s'.arrival + s'.departure <= 1
    requires HoldsToken(s.threads[t]) || s'.(threads := s.threads, arrival := s.arrival, departure := s.departure) == s
    requires HoldsToken(s.threads[t]) ==> s.arrival + s.departure == 0
    requires HoldsToken(s'.threads[t]) <==>
             (s'.arrival + s'.departure == 0 && (HoldsToken(s.threads[t]) || s.arrival + s.departure == 1))
    requires !HoldsToken(s.threads[t]) && !HoldsToken(s'.threads[t]) ==>
             s'.arrival == s.arrival && s'.departure == s.departure
    ensures forall u {:trigger ThreadOk(s', u)} :: 0 <= u < |s.threads| ==> ThreadOk(s', u)
    ensures forall u, v {:trigger Alone(s', u, v)} :: 0 <= u < |s.threads| && 0 <= v < |s.threads| ==> Alone(s', u, v)
    ensures s'.arrival + s'.departure == 0 ==> exists u :: 0 <= u < |s'.threads| && HoldsToken(s'.threads[u])
    ensures InsideCount(s'.threads) == s.counter - (if Inside(s.threads[t]) then 1 else 0) +
            (if Inside(s'.threads[t]) then 1 else 0)
  {
    CountUpdate(s.threads, t, s'.threads[t]);
    forall u | 0 <= u < |s.threads|
      ensures ThreadOk(s', u)
    {
      assert ThreadOk(s, u) && Alone(s, t, u);
    }
    forall u, v | 0 <= u < |s.threads| && 0 <= v < |s.threads|
      ensures Alone(s', u, v)
    {
      assert Alone(s, u, v) && ThreadOk(s, u) && ThreadOk(s, v);
    }
    if s'.arrival + s'.departure == 0 && !HoldsToken(s'.threads[t]) {
      var u :| 0 <= u < |s.threads| && HoldsToken(s.threads[u]);
      assert HoldsToken(s'.threads[u]);
    }
  }

  /** The steps keep every thread in step with the rounds. */
  lemma StaysInStep(s: State, e: Event, s': State)
    requires Inv(s) && Enabled(s, e) && |s.threads| == s.participants
    requires |s'.threads| == |s'.arrived| == |s'.left| == |s.threads|
    requires forall u {:trigger ThreadOk(s', u)} :: 0 <= u < |s.threads| ==> ThreadOk(s', u)
    requires InsideCount(s'.threads) == s'.counter && s' == Step(s, e)
    ensures forall u {:trigger InStep(s', u)} :: 0 <= u < |s.threads| ==> InStep(s', u)
  {
    CountAll(s'.threads);
    assert ThreadOk(s, e.t);
    forall u | 0 <= u < |s.threads|
      ensures InStep(s', u)
    {
      assert InStep(s, u) && ThreadOk(s, u) && ThreadOk(s', u);
    }
  }

  lemma InvStep(s: State, e: Event)
    requires Inv(s) && Enabled(s, e)
    ensures Inv(Step(s, e))
  {
    hide InStep, Alone;
    var s', t := Step(s, e), e.t;
    assert ThreadOk(s, t);
    Moved(s, s', t);
    if |s.threads| == s.participants {
      StaysInStep(s, e, s');
    }
  }

  // -------------------------------------------------------------------- all runs

  datatype Run = Run(states: seq<State>, events: seq<Event>)

  predicate Follows(r: Run, i: nat) {
    && i < |r.events| && |r.states| == |r.events| + 1
    && Enabled(r.states[i], r.events[i]) && r.states[i + 1] == Step(r.states[i], r.events[i])
  }

  ghost predicate ValidRun(r: Run) {
    && |r.states| == |r.events| + 1 && Init(r.states[0])
    && forall i {:trigger Follows(r, i)} :: 0 <= i < |r.events| ==> Follows(r, i)
  }

  lemma {:induction false} InvRun(r: Run, i: nat)
    requires ValidRun(r) && i < |r.states|
    ensures Inv(r.states[i])
  {
    hide Inv, Step, Enabled;
    if i == 0 {
      InitInv(r.states[0]);
    } else {
      InvRun(r, i - 1);
      assert Follows(r, i - 1);
      InvStep(r.states[i - 1], r.events[i - 1]);
    }
  }

  /** However many threads call wait(): at most one token is free, and none if a thread
      holds it; nobody goes out of a round before all participants came in, and nobody
      comes into the next before all went out. */
  lemma RoundsDoNotOverlap(r: Run, i: nat)
    requires ValidRun(r) && i < |r.states|
    ensures var s := r.states[i];
            && s.arrival + s.departure <= 1
            && (forall t :: 0 <= t < |s.threads| && HoldsToken(s.threads[t]) ==> s.arrival + s.departure == 0)
            && 0 <= s.came - s.went == s.counter && s.came <= s.participants
            && (s.went > 0 ==> s.came == s.participants)
    ensures i + 1 < |r.states| && r.states[i + 1].round != r.states[i].round ==>
              r.states[i].came == r.states[i].went == r.states[i].participants
  {
    var s := r.states[i];
    InvRun(r, i);
    WentAfterCame(s);
    forall t | 0 <= t < |s.threads| && HoldsToken(s.threads[t])
      ensures s.arrival + s.departure == 0
    {
      assert ThreadOk(s, t);
    }
    if i + 1 < |r.states| {
      assert Follows(r, i);
      assert ThreadOk(s, r.events[i].t);
    }
  }

  lemma WentAfterCame(s: State)
    requires Inv(s)
    ensures s.went > 0 ==> s.came == s.participants
  {
    if s.arrival + s.departure == 0 {
      var t :| 0 <= t < |s.threads| && HoldsToken(s.threads[t]);
      assert ThreadOk(s, t);
    }
  }

  /** With one thread per participant: no thread has left a round that another has not
      reached, and none has reached a round that another is a round behind. */
  lemma NobodyRunsAhead(r: Run, i: nat, t: nat, u: nat)
    requires ValidRun(r) && i < |r.states|
    requires var s := r.states[i]; |s.threads| == s.participants && t < |s.threads| && u < |s.threads|
    ensures var s := r.states[i];
            |s.left| == |s.arrived| == |s.threads| && s.left[t] <= s.arrived[u] <= s.left[t] + 1
  {
    var s := r.states[i];
    InvRun(r, i);
    WentAfterCame(s);
    assert InStep(s, t) && InStep(s, u);
  }

  /** Nobody waits for ever: with enough threads in wait(), or with all participants of a
      round in it, some thread in wait() can go on. */
  lemma NeverStuck(r: Run, i: nat)
    requires ValidRun(r) && i < |r.states|
    requires var s := r.states[i];
             || (|s.threads| >= s.participants && forall t :: 0 <= t < |s.threads| ==> !s.threads[t].Outside?)
             || s.came == s.participants
    ensures var s := r.states[i];
            exists t: nat :: t < |s.threads| && !s.threads[t].Outside? && Enabled(s, Move(t))
  {
    var s := r.states[i];
    InvRun(r, i);
    CountAll(s.threads);
    if s.arrival + s.departure == 0 {
      var t: nat :| t < |s.threads| && HoldsToken(s.threads[t]);
      assert Enabled(s, Move(t));
    } else {
      var t := Waiter(s);
      assert Enabled(s, Move(t));
    }
  }

  /** With a free token, someone waits at that semaphore. */
  lemma Waiter(s: State) returns (t: nat)
    requires Inv(s) && s.arrival + s.departure == 1
    requires || (|s.threads| >= s.participants && forall t :: 0 <= t < |s.threads| ==> !s.threads[t].Outside?)
             || s.came == s.participants
    ensures t < |s.threads|
    ensures if s.arrival == 1 then s.threads[t].WantArrival? else s.threads[t].WantDeparture?
  {
    CountAll(s.threads);
    assert forall u {:trigger ThreadOk(s, u)} :: 0 <= u < |s.threads| ==> ThreadOk(s, u);
    if s.arrival == 1 {
      t :| t < |s.threads| && !Inside(s.threads[t]);
      assert ThreadOk(s, t);
    } else {
      t :| t < |s.threads| && Inside(s.threads[t]);
      assert ThreadOk(s, t);
    }
  }
}
