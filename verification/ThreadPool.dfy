/**
  The thread pool as a step system: tasks handed over in the order they were added,
  and the shutdown by one NULL task per worker.
 */
module ThreadPool {

  /** Where a worker stands in its loop: waiting, holding the task it took, running it,
      about to queue itself again, or gone. */
  datatype PC = Waiting | Taken | Running | Done | Exited

  /** `task` is the number of the task last assigned. */
  datatype Worker = Worker(pc: PC, hasTask: bool, task: nat)

  datatype State = State(
    workers: seq<Worker>,
    free: seq<nat>,          // workers_, the idle ones
    queue: seq<nat>,         // dispatch_queue_
    added: seq<bool>,        // history: whether the i-th task added is NULL
    given: seq<nat>,      // history: the worker of the i-th task assigned
    finished: set<nat>)      // history: the tasks that have run

  datatype Event =
    | AddTask(isNull: bool)
    | Wake(w: nat)
    | Look(w: nat)
    | Finish(w: nat)
    | QueueWorker(w: nat)

  // ------------------------------------------------------------------ the steps

  /** Worker w gets task i. */
  function Assign(s: State, w: nat, i: nat): State
    requires w < |s.workers|
  {
    s.(workers := s.workers[w := s.workers[w].(hasTask := true, task := i)], given := s.given + [w])
  }

  function StepAdd(s: State, isNull: bool): State
    requires s.free != [] ==> s.free[0] < |s.workers|
  {
    var s' := s.(added := s.added + [isNull]);
    if s.free != [] then Assign(s'.(free := s.free[1..]), s.free[0], |s.added|)
    else s'.(queue := s.queue + [|s.added|])
  }

  /** The worker goes back to its loop: with the next task, or to the idle ones. */
  function StepQueueWorker(s: State, w: nat): State
    requires w < |s.workers|
  {
    var s' := s.(workers := s.workers[w := s.workers[w].(pc := Waiting)]);
    if s.queue != [] then Assign(s'.(queue := s.queue[1..]), w, s.queue[0])
    else s'.(free := [w] + s.free)
  }

  function Move(s: State, w: nat, pc: PC): State
    requires w < |s.workers|
  {
    s.(workers := s.workers[w := s.workers[w].(pc := pc, hasTask := false)])
  }

  predicate Enabled(s: State, e: Event) {
    match e
    case AddTask(_) => s.free != [] ==> s.free[0] < |s.workers|
    case Wake(w) => w < |s.workers| && s.workers[w].pc == Waiting && s.workers[w].hasTask
    case Look(w) => w < |s.workers| && s.workers[w].pc == Taken && s.workers[w].task < |s.added|
    case Finish(w) => w < |s.workers| && s.workers[w].pc == Running
    case QueueWorker(w) => w < |s.workers| && s.workers[w].pc == Done
  }

  function Step(s: State, e: Event): State
    requires Enabled(s, e)
  {
    match e
    case AddTask(isNull) => StepAdd(s, isNull)
    case Wake(w) => Move(s, w, Taken)
    case Look(w) => Move(s, w, if s.added[s.workers[w].task] then Exited else Running)
    case Finish(w) => Move(s, w, Done).(finished := s.finished + {s.workers[w].task})
    case QueueWorker(w) => StepQueueWorker(s, w)
  }

  /** All workers started and idle, in any order. */
  predicate Init(s: State) {
    && s.queue == [] && s.added == [] && s.given == [] && s.finished == {}
    && (forall w :: 0 <= w < |s.workers| ==> s.workers[w].pc == Waiting && !s.workers[w].hasTask && w in s.free)
    && (forall i :: 0 <= i < |s.free| ==> s.free[i] < |s.workers|)
    && (forall i, j :: 0 <= i < j < |s.free| ==> s.free[i] != s.free[j])
  }

  // -------------------------------------------------------------- counting NULLs

  function Nulls(added: seq<bool>): nat {
    if added == [] then 0 else Nulls(added[..|added| - 1]) + if added[|added| - 1] then 1 else 0
  }

  /** The worker was given a task and has not finished it. */
  predicate Holding(wk: Worker) {
    wk.hasTask || wk.pc.Taken? || wk.pc.Running? || wk.pc.Exited?
  }

  predicate HoldsNull(wk: Worker, added: seq<bool>) {
    Holding(wk) && wk.task < |added| && added[wk.task]
  }

  function Takers(workers: seq<Worker>, added: seq<bool>): nat {
    if workers == [] then 0
    else Takers(workers[..|workers| - 1], added) + if HoldsNull(workers[|workers| - 1], added) then 1 else 0
  }

  lemma {:induction false} TakersUpdate(workers: seq<Worker>, added: seq<bool>, w: nat, wk: Worker)
    requires w < |workers|
    ensures Takers(workers[w := wk], added) ==
            Takers(workers, added) - (if HoldsNull(workers[w], added) then 1 else 0) +
                (if HoldsNull(wk, added) then 1 else 0)
  {
    hide HoldsNull;
    var n := |workers| - 1;
    if w < n {
      assert workers[w := wk][..n] == workers[..n][w := wk];
      TakersUpdate(workers[..n], added, w, wk);
    } else {
      assert workers[w := wk][..n] == workers[..n];
    }
  }

  lemma {:induction false} TakersMost(workers: seq<Worker>, added: seq<bool>)
    ensures Takers(workers, added) <= |workers|
    ensures Takers(workers, added) == |workers| <==> forall w :: 0 <= w < |workers| ==> HoldsNull(workers[w], added)
  {
    hide HoldsNull;
    if workers != [] {
      var n := |workers| - 1;
      TakersMost(workers[..n], added);
      assert forall w :: 0 <= w < n ==> workers[..n][w] == workers[w];
    }
  }

  /** A task added later changes nothing for those who hold earlier ones. */
  lemma {:induction false} TakersMore(workers: seq<Worker>, added: seq<bool>, isNull: bool)
    requires forall w :: 0 <= w < |workers| && Holding(workers[w]) ==> workers[w].task < |added|
    ensures Takers(workers, added + [isNull]) == Takers(workers, added)
  {
    if workers != [] {
      var n := |workers| - 1;
      TakersMore(workers[..n], added, isNull);
    }
  }

  lemma {:induction false} NullsMono(added: seq<bool>, i: nat, j: nat)
    requires i <= j <= |added|
    ensures Nulls(added[..i]) <= Nulls(added[..j])
    ensures (exists x :: i <= x < j && added[x]) <==> Nulls(added[..i]) < Nulls(added[..j])
    decreases j
  {
    if i < j {
      assert added[..j][..j - 1] == added[..j - 1];
      NullsMono(added, i, j - 1);
    }
  }

  // --------------------------------------------------------------- the invariant

  /** A worker that holds a task was the one it was given to, and has not run it. */
  ghost predicate WorkerOk(s: State, w: nat)
    requires w < |s.workers|
  {
    var wk := s.workers[w];
    && (wk.hasTask ==> wk.pc.Waiting?)
    && (Holding(wk) ==>
          && wk.task < |s.given| <= |s.added| && s.given[wk.task] == w && wk.task !in s.finished
          && (wk.pc.Running? ==> !s.added[wk.task]) && (wk.pc.Exited? ==> s.added[wk.task]))
    && (w in s.free <==> wk.pc.Waiting? && !wk.hasTask)
  }

  /** A task that was given away has run, or its worker still holds it. */
  ghost predicate TaskOk(s: State, i: nat)
    requires i < |s.given|
  {
    && s.given[i] < |s.workers|
    && (i in s.finished || (Holding(s.workers[s.given[i]]) && s.workers[s.given[i]].task == i))
  }

  ghost predicate FreeOk(s: State) {
    && (forall i {:trigger s.free[i]} :: 0 <= i < |s.free| ==> s.free[i] < |s.workers|)
    && (forall i, j {:trigger s.free[i], s.free[j]} :: 0 <= i < j < |s.free| ==> s.free[i] != s.free[j])
  }

  /** The queue is what has been added and not given away, in order. */
  ghost predicate QueueOk(s: State) {
    && |s.added| == |s.given| + |s.queue|
    && (forall i {:trigger s.queue[i]} :: 0 <= i < |s.queue| ==> s.queue[i] == |s.given| + i)
    && (s.queue != [] ==> s.free == [])
  }

  ghost predicate CountsOk(s: State) {
    && (forall i :: i in s.finished ==> i < |s.given| <= |s.added| && !s.added[i])
    && |s.given| <= |s.added| && Nulls(s.added[..|s.given|]) == Takers(s.workers, s.added)
    && (s.given != [] ==> Nulls(s.added[..|s.given| - 1]) < |s.workers|)
  }

  ghost predicate Inv(s: State) {
    && (forall w {:trigger WorkerOk(s, w)} :: 0 <= w < |s.workers| ==> WorkerOk(s, w))
    && (forall i {:trigger TaskOk(s, i)} :: 0 <= i < |s.given| ==> TaskOk(s, i))
    && FreeOk(s) && QueueOk(s) && CountsOk(s)
  }

  lemma {:induction false} NoTakers(workers: seq<Worker>, added: seq<bool>)
    requires forall w :: 0 <= w < |workers| ==> !Holding(workers[w])
    ensures Takers(workers, added) == 0
  {
    if workers != [] {
      NoTakers(workers[..|workers| - 1], added);
    }
  }

  lemma InitInv(s: State)
    requires Init(s)
    ensures Inv(s)
  {
    NoTakers(s.workers, s.added);
  }

  /** Worker w, which holds nothing, gets the next task in line. */
  lemma InvAssign(s: State, w: nat)
    requires w < |s.workers| && !Holding(s.workers[w]) && s.workers[w].pc.Waiting? && w !in s.free
    requires |s.given| < |s.added|
    requires forall u {:trigger WorkerOk(s, u)} :: 0 <= u < |s.workers| && u != w ==> WorkerOk(s, u)
    requires forall i {:trigger TaskOk(s, i)} :: 0 <= i < |s.given| ==> TaskOk(s, i)
    requires CountsOk(s)
    ensures var s' := Assign(s, w, |s.given|);
            && (forall u {:trigger WorkerOk(s', u)} :: 0 <= u < |s.workers| ==> WorkerOk(s', u))
            && (forall i {:trigger TaskOk(s', i)} :: 0 <= i < |s'.given| ==> TaskOk(s', i))
            && CountsOk(s')
  {
    var k := |s.given|;
    var s' := Assign(s, w, k);
    TakersUpdate(s.workers, s.added, w, s'.workers[w]);
    TakersMost(s.workers, s.added);
    assert s.added[..k + 1][..k] == s.added[..k] && s'.given[..k] == s.given;
    assert !HoldsNull(s.workers[w], s.added);
    forall u | 0 <= u < |s.workers|
      ensures WorkerOk(s', u)
    {
      if u != w { assert WorkerOk(s, u); }
    }
    forall i | 0 <= i < |s'.given|
      ensures TaskOk(s', i)
    {
      if i < k { assert TaskOk(s, i); }
    }
  }

  /** A task added later leaves everything said of the earlier ones as it is. */
  lemma AddKeeps(s: State, isNull: bool)
    requires Inv(s)
    ensures var m := s.(added := s.added + [isNull]);
            && (forall w {:trigger WorkerOk(m, w)} :: 0 <= w < |m.workers| ==> WorkerOk(m, w))
            && (forall i {:trigger TaskOk(m, i)} :: 0 <= i < |m.given| ==> TaskOk(m, i))
            && CountsOk(m)
  {
    var a := s.added + [isNull];
    var m := s.(added := a);
    forall w | 0 <= w < |s.workers|
      ensures WorkerOk(m, w) && (Holding(s.workers[w]) ==> s.workers[w].task < |s.added|)
    {
      assert WorkerOk(s, w);
    }
    forall i | 0 <= i < |s.given|
      ensures TaskOk(m, i)
    {
      assert TaskOk(s, i);
    }
    TakersMore(s.workers, s.added, isNull);
    assert a[..|s.given|] == s.added[..|s.given|];
    assert s.given != [] ==> a[..|s.given| - 1] == s.added[..|s.given| - 1];
  }

  lemma InvAdd(s: State, isNull: bool)
    requires Inv(s)
    ensures s.free != [] ==> s.free[0] < |s.workers|
    ensures Inv(StepAdd(s, isNull))
  {
    AddKeeps(s, isNull);
    if s.free != [] {
      AddToFree(s, isNull);
    } else {
      AddToQueue(s, s.(added := s.added + [isNull]));
    }
  }

  /** The front idle worker leaves the others as they are. */
  lemma AddToFree(s: State, isNull: bool)
    requires Inv(s) && s.free != []
    ensures s.free[0] < |s.workers| && Inv(StepAdd(s, isNull))
  {
    hide CountsOk, Nulls, Takers;
    AddKeeps(s, isNull);
    var w := s.free[0];
    assert WorkerOk(s, w);
    var m0 := s.(added := s.added + [isNull]);
    var m := m0.(free := s.free[1..]);
    FreeTail(s.free, w);
    CountsSame(m0, m);
    forall u | 0 <= u < |s.workers| && u != w
      ensures WorkerOk(m, u)
    {
      assert WorkerOk(m0, u);
    }
    forall i | 0 <= i < |s.given|
      ensures TaskOk(m, i)
    {
      assert TaskOk(m0, i);
    }
    InvAssign(m, w);
  }

  lemma CountsSame(s: State, m: State)
    requires CountsOk(s) && m == s.(free := m.free, queue := m.queue)
    ensures CountsOk(m)
  {
  }

  lemma AddToQueue(s: State, m0: State)
    requires Inv(s) && s.free == [] && |m0.added| == |s.added| + 1 && m0 == s.(added := m0.added)
    requires forall w {:trigger WorkerOk(m0, w)} :: 0 <= w < |m0.workers| ==> WorkerOk(m0, w)
    requires forall i {:trigger TaskOk(m0, i)} :: 0 <= i < |m0.given| ==> TaskOk(m0, i)
    requires CountsOk(m0)
    ensures Inv(m0.(queue := s.queue + [|s.added|]))
  {
    hide CountsOk, Nulls, Takers;
    var m := m0.(queue := s.queue + [|s.added|]);
    CountsSame(m0, m);
    forall u | 0 <= u < |s.workers|
      ensures WorkerOk(m, u)
    {
      assert WorkerOk(m0, u);
    }
    forall i | 0 <= i < |s.given|
      ensures TaskOk(m, i)
    {
      assert TaskOk(m0, i);
    }
  }

  lemma FreeTail(free: seq<nat>, w: nat)
    requires free != [] && free[0] == w
    requires forall i, j {:trigger free[i], free[j]} :: 0 <= i < j < |free| ==> free[i] != free[j]
    ensures w !in free[1..] && forall u :: u != w ==> (u in free <==> u in free[1..])
  {
  }

  lemma InvQueueWorker(s: State, w: nat)
    requires Inv(s) && w < |s.workers| && s.workers[w].pc == Done
    ensures Inv(StepQueueWorker(s, w))
  {
    var m := s.(workers := s.workers[w := s.workers[w].(pc := Waiting)]);
    assert WorkerOk(s, w);
    TakersUpdate(s.workers, s.added, w, m.workers[w]);
    if s.queue != [] {
      m := m.(queue := s.queue[1..]);
      OthersKept(s, m, w);
      InvAssign(m, w);
    } else {
      m := m.(free := [w] + s.free);
      OthersKept(s, m, w);
      assert WorkerOk(m, w);
    }
  }

  /** What the others hold and what was given away does not change with worker w, which
      holds nothing. */
  lemma OthersKept(s: State, m: State, w: nat)
    requires Inv(s) && w < |s.workers| == |m.workers| && !Holding(s.workers[w]) && !Holding(m.workers[w])
    requires m.workers == s.workers[w := m.workers[w]]
    requires m.added == s.added && m.given == s.given && m.finished == s.finished
    requires forall u :: u != w ==> (u in m.free <==> u in s.free)
    ensures forall u {:trigger WorkerOk(m, u)} :: 0 <= u < |s.workers| && u != w ==> WorkerOk(m, u)
    ensures forall i {:trigger TaskOk(m, i)} :: 0 <= i < |s.given| ==> TaskOk(m, i)
  {
    forall u | 0 <= u < |s.workers| && u != w
      ensures WorkerOk(m, u)
    {
      assert WorkerOk(s, u);
    }
    forall i | 0 <= i < |s.given|
      ensures TaskOk(m, i)
    {
      assert TaskOk(s, i);
    }
  }

  /** A worker takes, judges or finishes the task it holds. */
  lemma InvMove(s: State, w: nat, pc: PC)
    requires Inv(s) && w < |s.workers| && Holding(s.workers[w]) && s.workers[w].task < |s.added|
    requires match s.workers[w].pc
             case Waiting => pc == Taken
             case Taken => pc == if s.added[s.workers[w].task] then Exited else Running
             case Running => pc == Done
             case _ => false
    ensures Inv(if pc == Done then Move(s, w, pc).(finished := s.finished + {s.workers[w].task}) else Move(s, w, pc))
  {
    var m := if pc == Done then Move(s, w, pc).(finished := s.finished + {s.workers[w].task}) else Move(s, w, pc);
    TakersUpdate(s.workers, s.added, w, m.workers[w]);
    assert WorkerOk(s, w);
    forall u | 0 <= u < |s.workers|
      ensures WorkerOk(m, u)
    {
      assert WorkerOk(s, u);
    }
    forall i | 0 <= i < |s.given|
      ensures TaskOk(m, i)
    {
      assert TaskOk(s, i);
    }
  }

  lemma InvStep(s: State, e: Event)
    requires Inv(s) && Enabled(s, e)
    ensures Inv(Step(s, e))
  {
    hide Inv;
    match e
    case AddTask(isNull) => InvAdd(s, isNull);
    case QueueWorker(w) => InvQueueWorker(s, w);
    case Wake(w) => HeldInRange(s, w); InvMove(s, w, Taken);
    case Look(w) => InvMove(s, w, if s.added[s.workers[w].task] then Exited else Running);
    case Finish(w) => HeldInRange(s, w); InvMove(s, w, Done);
  }

  lemma HeldInRange(s: State, w: nat)
    requires Inv(s) && w < |s.workers| && Holding(s.workers[w])
    ensures s.workers[w].task < |s.given| <= |s.added|
  {
    assert WorkerOk(s, w);
  }

  // -------------------------------------------------------------------- all runs

  datatype Run = Run(states: seq<State>, events: seq<Event>)

  ghost predicate Follows(r: Run, i: nat) {
    && i < |r.events| && |r.states| == |r.events| + 1
    && Enabled(r.states[i], r.events[i]) && r.states[i + 1] == Step(r.states[i], r.events[i])
  }

  ghost predicate ValidRun(r: Run) {
    && |r.states| == |r.events| + 1 && Init(r.states[0])
    && forall i {:trigger Follows(r, i)} :: 0 <= i < |r.events| ==> Follows(r, i)
  }

  lemma {:induction false} InvRun(r: Run, i: nat)
    requires ValidRun(r) && i < |r.states|
    ensures Inv(r.states[i])
  {
    hide Inv, Step, Enabled;
    if i == 0 {
      InitInv(r.states[0]);
    } else {
      InvRun(r, i - 1);
      assert Follows(r, i - 1);
      InvStep(r.states[i - 1], r.events[i - 1]);
    }
  }

  /** What was given away stays given to the same worker, and what was added stays. */
  lemma HistoryGrows(s: State, e: Event)
    requires Inv(s) && Enabled(s, e)
    ensures s.given <= Step(s, e).given && s.added <= Step(s, e).added && s.finished <= Step(s, e).finished
    ensures |Step(s, e).workers| == |s.workers|
  {
  }

  /** First in, first out: the tasks given away are the first that were added, each to
      one worker for good, the rest waits in order, and waits only if all are busy. */
  lemma FirstInFirstOut(r: Run, i: nat)
    requires ValidRun(r) && i < |r.states|
    ensures var s := r.states[i];
            && |s.given| + |s.queue| == |s.added|
            && (forall x :: 0 <= x < |s.queue| ==> s.queue[x] == |s.given| + x)
            && (s.queue != [] ==> forall w :: 0 <= w < |s.workers| ==> Holding(s.workers[w]) || s.workers[w].pc.Done?)
    ensures var s := r.states[i];
            && (forall x {:trigger TaskOk(s, x)} :: 0 <= x < |s.given| ==> TaskOk(s, x))
            && (forall w :: 0 <= w < |s.workers| && Holding(s.workers[w]) ==>
                  var x := s.workers[w].task; x < |s.given| && s.given[x] == w && x !in s.finished)
    ensures i + 1 < |r.states| ==> r.states[i].given <= r.states[i + 1].given
  {
    var s := r.states[i];
    InvRun(r, i);
    if i + 1 < |r.states| {
      assert Follows(r, i);
      HistoryGrows(s, r.events[i]);
    }
    forall w | 0 <= w < |s.workers|
      ensures s.queue != [] ==> Holding(s.workers[w]) || s.workers[w].pc.Done?
      ensures Holding(s.workers[w]) ==>
                var x := s.workers[w].task; x < |s.given| && s.given[x] == w && x !in s.finished
    {
      assert WorkerOk(s, w);
    }
  }

  /** A worker is given a task only when it holds none: a task is never overwritten
      before it has run, and what a worker runs is what it was given last. */
  lemma NeverOverwritten(r: Run, i: nat, w: nat)
    requires ValidRun(r) && i < |r.events| && w < |r.states[i].workers| && Holding(r.states[i].workers[w])
    ensures w < |r.states[i + 1].workers|
    ensures var before, after := r.states[i].workers[w], r.states[i + 1].workers[w];
            after.task == before.task
            && (Holding(after) || (before.pc.Running? && before.task in r.states[i + 1].finished))
  {
    InvRun(r, i);
    assert Follows(r, i);
    var s := r.states[i];
    assert WorkerOk(s, w);
    if s.free != [] {
      assert s.free[0] in s.free;
    }
  }

  /** One NULL per worker was added, and every worker has gone: each took exactly one
      NULL, and every task added before the last of them has run. */
  lemma StopFinishesAll(r: Run, i: nat)
    requires ValidRun(r) && i < |r.states|
    requires var s := r.states[i];
             && (forall w :: 0 <= w < |s.workers| ==> s.workers[w].pc.Exited?)
             && Nulls(s.added) == |s.workers|
    ensures var s := r.states[i];
            && (forall w :: 0 <= w < |s.workers| ==>
                  var x := s.workers[w].task;
                  x < |s.given| <= |s.added| && s.added[x] && s.given[x] == w)
            && (forall x :: 0 <= x < |s.added| && s.added[x] ==>
                x < |s.given| && s.given[x] < |s.workers| && s.workers[s.given[x]].task == x)
            && (forall x, y :: 0 <= x < y < |s.added| && !s.added[x] && s.added[y] ==> x in s.finished)
  {
    var s := r.states[i];
    InvRun(r, i);
    forall w | 0 <= w < |s.workers|
      ensures HoldsNull(s.workers[w], s.added) && s.workers[w].task < |s.given| && s.given[s.workers[w].task] == w
    {
      assert WorkerOk(s, w);
    }
    TakersMost(s.workers, s.added);
    assert s.added[..|s.added|] == s.added;
    NullsMono(s.added, |s.given|, |s.added|);
    forall x | 0 <= x < |s.given|
      ensures s.given[x] < |s.workers|
      ensures if s.added[x] then s.workers[s.given[x]].task == x else x in s.finished
    {
      assert TaskOk(s, x);
    }
  }

  /** A task added after as many NULLs as there are workers is never given away. */
  lemma NothingAfterStop(r: Run, i: nat, x: nat)
    requires ValidRun(r) && i < |r.states|
    requires x < |r.states[i].added| && Nulls(r.states[i].added[..x]) >= |r.states[i].workers|
    ensures x >= |r.states[i].given| && x !in r.states[i].finished
  {
    var s := r.states[i];
    InvRun(r, i);
    if x < |s.given| {
      NullsMono(s.added, x, |s.given| - 1);
    }
  }

  /** Work never lies about: as long as a task waits that has not been taken up, and some
      worker has not gone, a worker can go on. */
  lemma WorkGoesOn(r: Run, i: nat, x: nat)
    requires ValidRun(r) && i < |r.states|
    requires var s := r.states[i];
             && x < |s.added| && x !in s.finished && !s.added[x]
             && exists w :: 0 <= w < |s.workers| && !s.workers[w].pc.Exited?
    ensures var s := r.states[i];
            exists w: nat :: w < |s.workers| &&
              (Enabled(s, Wake(w)) || Enabled(s, Look(w)) || Enabled(s, Finish(w)) || Enabled(s, QueueWorker(w)))
  {
    var s := r.states[i];
    InvRun(r, i);
    var w: nat;
    if x < |s.given| {
      assert TaskOk(s, x);
      w := s.given[x];
    } else {
      w :| w < |s.workers| && !s.workers[w].pc.Exited?;
    }
    assert WorkerOk(s, w);
    assert Enabled(s, Wake(w)) || Enabled(s, Look(w)) || Enabled(s, Finish(w)) || Enabled(s, QueueWorker(w));
  }

  /** The idle workers are a stack: the one that came back last is the next to get a
      task, and the others wait as they did. */
  lemma LastBackFirstUsed(r: Run, i: nat, w: nat, isNull: bool)
    requires ValidRun(r) && i + 2 <= |r.events|
    requires r.events[i] == QueueWorker(w) && r.events[i + 1] == AddTask(isNull) && r.states[i].queue == []
    ensures var s, s' := r.states[i], r.states[i + 2];
            s'.given == s.given + [w] && s'.free == s.free && s'.queue == []
  {
    assert Follows(r, i) && Follows(r, i + 1);
  }
}
