/**
  The background writer of a connection as a step system: producers append under the
  lock, startWrite elects a writer, doWrite sends outside the lock and consumes under
  it, and a full socket hands the writer over to the poller.
 */
module ConnectionWriter {
  import opened Buffers

  /** What a write to the socket gives: some bytes taken, EAGAIN, or another error. */
  datatype SocketResult = Wrote(n: nat) | Again | Failed

  /** Where a thread stands: in startWrite before the test, before acquire(), in
      doWrite before the snapshot, before the socket call, before the locked part, before
      writeWhenReady, before adding the task itself, and before release(). */
  datatype PC =
    | Idle | Test | Acquire
    | Snap(first: bool) | Send(size: nat) | Commit(size: nat, result: SocketResult)
    | Arm | Claim | Release

  datatype State = State(
    content: seq<char>, front: nat,              // out_ and its readSize()
    writing: bool, refs: int, deleted: bool,
    threads: seq<PC>,
    canWrite: bool, waiting: bool,               // the descriptor's flags
    claimed: nat, scheduled: nat,                // callbacks the poller is adding, and added
    reading: bool,                               // the reading side's reference
    appended: seq<char>, sent: seq<char>,        // history
    gaveUp: bool)                                // history: doWrite ended on 0 or an error

  datatype Event =
    | Produce(data: seq<char>, front: nat)
    | Call(t: nat)
    | Go(t: nat, result: SocketResult, front: nat)
    | Poll
    | AddTask
    | Take(t: nat)
    | StopReading

  // -------------------------------------------- what the buffer does in a step

  /** What appending promises: the bytes at the read position stay where they are. */
  predicate Grown(content: seq<char>, front: nat, data: seq<char>, content': seq<char>, front': nat) {
    content' == content + data && front <= front' <= |content'|
  }

  /** What consuming n > 0 bytes promises. */
  predicate Shrunk(content: seq<char>, n: nat, content': seq<char>, front': nat) {
    n <= |content| && content' == content[n..] && front' <= |content'| && (front' == 0 <==> content' == [])
  }

  /** write() makes a step that the machine allows. */
  method WriteIsProduce(b: Buffer, data: seq<char>)
    requires b.Valid()
    modifies b, b.chunks
    ensures b.Valid()
    ensures Grown(old(b.Content()), old(b.ReadSize()), data, b.Content(), b.ReadSize())
    ensures old(b.ReadArea()) <= b.ReadArea()
  {
    hide Flat, Rest;
    b.Write(data);
  }

  method CopyIsProduce(b: Buffer, other: Buffer)
    requires b.Valid() && other.Valid() && Apart(b, other) && !other.IsConsumed()
    modifies b, b.chunks
    ensures b.Valid()
    ensures Grown(old(b.Content()), old(b.ReadSize()), old(other.Content()), b.Content(), b.ReadSize())
    ensures old(b.ReadArea()) <= b.ReadArea()
  {
    hide Flat, Rest;
    b.CopyFrom(other);
  }

  method ConsumeIsShrink(b: Buffer, n: nat)
    requires b.Valid() && 0 < n <= |b.Content()|
    modifies b
    ensures b.Valid() && Shrunk(old(b.Content()), n, b.Content(), b.ReadSize())
  {
    hide Flat, Rest;
    b.Consume(n);
  }

  // ------------------------------------------------------------------ the steps

  function Put(s: State, t: nat, pc: PC): State
    requires t < |s.threads|
  {
    s.(threads := s.threads[t := pc])
  }

  /** Gives a reference back; the last one deletes the connection. */
  function Drop(s: State): State {
    s.(refs := s.refs - 1, deleted := s.deleted || s.refs == 1)
  }

  /** The locked part of doWrite's loop. */
  function Settle(s: State, t: nat, size: nat, result: SocketResult, front: nat): State
    requires t < |s.threads|
  {
    match result
    case Again => Put(s.(refs := s.refs + 1), t, Arm)
    case Failed => Put(s.(gaveUp := true), t, Release)
    case Wrote(n) =>
      if n == 0 then Put(s.(gaveUp := true), t, Release)
      else
        var s' := s.(content := if n <= |s.content| then s.content[n..] else [], front := front);
        if size == n && front == 0 then Put(s'.(writing := false), t, Release)
        else Put(s', t, Snap(false))
  }

  predicate Enabled(s: State, e: Event) {
    match e
    case Produce(data, front) => s.reading && Grown(s.content, s.front, data, s.content + data, front)
    case Call(t) => s.reading && t < |s.threads| && s.threads[t] == Idle
    case Go(t, result, front) =>
      && t < |s.threads| && s.threads[t] != Idle
      && (s.threads[t].Send? ==> if result.Wrote? then result.n <= s.threads[t].size
                                 else result.Again? ==> s.threads[t].size > 0)
      && (s.threads[t].Commit? && s.threads[t].result.Wrote? && s.threads[t].result.n > 0 ==>
            var n := s.threads[t].result.n; n <= |s.content| ==> Shrunk(s.content, n, s.content[n..], front))
    case Poll => !s.deleted
    case AddTask => s.claimed > 0
    case Take(t) => s.scheduled > 0 && t < |s.threads| && s.threads[t] == Idle
    case StopReading =>
      s.reading && forall i :: 0 <= i < |s.threads| ==> !s.threads[i].Test? && !s.threads[i].Acquire?
  }

  function StepGo(s: State, t: nat, result: SocketResult, front: nat): State
    requires t < |s.threads|
  {
    match s.threads[t]
    case Test => if s.writing then Put(s, t, Idle) else Put(s.(writing := true), t, Acquire)
    case Acquire => Put(s.(refs := s.refs + 1), t, Snap(true))
    case Snap(_) => Put(s, t, Send(s.front))
    case Send(size) =>
      Put(if result.Wrote? && result.n <= |s.content| then s.(sent := s.sent + s.content[..result.n]) else s,
          t, Commit(size, result))
    case Commit(size, r) => Settle(s, t, size, r, front)
    case Arm => if s.canWrite then Put(s.(canWrite := false), t, Claim) else Put(s.(waiting := true), t, Release)
    case Claim => Put(s.(scheduled := s.scheduled + 1), t, Release)
    case _ => Put(Drop(s), t, Idle)
  }

  function Step(s: State, e: Event): State
    requires Enabled(s, e)
  {
    match e
    case Produce(data, front) => s.(content := s.content + data, front := front, appended := s.appended + data)
    case Call(t) => Put(s, t, Test)
    case Go(t, result, front) => StepGo(s, t, result, front)
    case Poll => if s.waiting then s.(waiting := false, claimed := s.claimed + 1) else s.(canWrite := true)
    case AddTask => s.(claimed := s.claimed - 1, scheduled := s.scheduled + 1)
    case Take(t) => Put(s.(scheduled := s.scheduled - 1), t, Snap(false))
    case StopReading => Drop(s.(reading := false))
  }

  /** A connection just set up, its reading side started. */
  predicate Init(s: State) {
    && s.content == s.appended == s.sent == [] && s.front == 0
    && !s.writing && !s.gaveUp && !s.waiting && !s.deleted && s.claimed == s.scheduled == 0
    && s.reading && s.refs == 1
    && forall i :: 0 <= i < |s.threads| ==> s.threads[i] == Idle
  }

  // --------------------------------------------------------------- the invariant

  /** The thread is the writer. */
  predicate Active(pc: PC) {
    pc.Acquire? || pc.Snap? || pc.Send? || pc.Commit? || pc.Arm? || pc.Claim?
  }

  /** Writers not held by a thread. */
  function Pending(s: State): nat {
    s.claimed + s.scheduled + if s.waiting then 1 else 0
  }

  function Holds(pc: PC): nat {
    match pc
    case Idle | Test | Acquire => 0
    case Snap(_) | Send(_) | Commit(_, _) | Release => 1
    case Arm | Claim => 2
  }

  function Held(threads: seq<PC>): nat {
    if threads == [] then 0 else Holds(threads[0]) + Held(threads[1..])
  }

  /** What the writer knows of the buffer, and what it has sent of it already. */
  predicate WriterOk(s: State, pc: PC) {
    match pc
    case Snap(first) => (!first ==> s.front > 0) && s.sent + s.content == s.appended
    case Send(size) => size <= s.front && s.sent + s.content == s.appended
    case Commit(size, Wrote(n)) => n <= size <= s.front <= |s.content| && s.sent + s.content[n..] == s.appended
    case Commit(size, r) => size <= s.front && (r.Again? ==> size > 0) && s.sent + s.content == s.appended
    case Arm | Claim => s.front > 0 && s.sent + s.content == s.appended
    case _ => s.sent + s.content == s.appended
  }

  predicate ThreadOk(s: State, t: nat)
    requires t < |s.threads|
  {
    var pc := s.threads[t];
    && (Active(pc) ==> s.writing && !s.gaveUp && Pending(s) == 0 && s.front <= |s.content| && WriterOk(s, pc))
    && (pc.Test? || pc.Acquire? ==> s.reading)
  }

  predicate OneActive(s: State, t: nat, u: nat)
    requires t < |s.threads| && u < |s.threads|
  {
    Active(s.threads[t]) && Active(s.threads[u]) ==> t == u
  }

  predicate NoneActive(s: State) {
    forall t :: 0 <= t < |s.threads| ==> !Active(s.threads[t])
  }

  predicate Inv(s: State) {
    && (forall t {:trigger ThreadOk(s, t)} :: 0 <= t < |s.threads| ==> ThreadOk(s, t))
    && (forall t, u {:trigger OneActive(s, t, u)} :: 0 <= t < |s.threads| && 0 <= u < |s.threads| ==>
        OneActive(s, t, u))
    && s.front <= |s.content|
    && Pending(s) <= 1
    && (Pending(s) == 1 ==> s.writing && !s.gaveUp && s.front > 0)
    && (NoneActive(s) ==> s.sent + s.content == s.appended)
    && (s.gaveUp ==> s.writing)
    && (!s.writing ==> NoneActive(s) && Pending(s) == 0)
    && (s.writing && !s.gaveUp && Pending(s) == 0 ==> !NoneActive(s))
    && s.refs == Held(s.threads) + Pending(s) + (if s.reading then 1 else 0)
    && (s.deleted <==> s.refs == 0)
    && !(s.canWrite && s.waiting)
  }

  lemma {:induction false} HeldUpdate(threads: seq<PC>, t: nat, pc: PC)
    requires t < |threads|
    ensures Held(threads[t := pc]) == Held(threads) - Holds(threads[t]) + Holds(pc)
  {
    if t > 0 {
      HeldUpdate(threads[1..], t - 1, pc);
      assert threads[t := pc][1..] == threads[1..][t - 1 := pc];
    } else {
      assert threads[t := pc][1..] == threads[1..];
    }
  }

  lemma {:induction false} HeldNone(threads: seq<PC>)
    requires forall i :: 0 <= i < |threads| ==> Holds(threads[i]) == 0
    ensures Held(threads) == 0
  {
    if threads != [] {
      HeldNone(threads[1..]);
    }
  }

  lemma InitInv(s: State)
    requires Init(s)
    ensures Inv(s)
  {
    HeldNone(s.threads);
  }

  /** The writer, whoever it is, goes on as the same thread, and is the only one. */
  lemma WriterGoesOn(s: State, s': State, t: nat, pc: PC)
    requires Inv(s) && t < |s.threads| && Active(s.threads[t]) && Active(pc)
    requires s'.threads == s.threads[t := pc] && s'.writing && !s'.gaveUp && Pending(s') == 0
    requires s'.front <= |s'.content| && WriterOk(s', pc) && s'.reading == s.reading && !pc.Acquire?
    requires s'.refs == s.refs - Holds(s.threads[t]) + Holds(pc) && s'.refs > 0 && s'.deleted == s.deleted == false
    requires !(s'.canWrite && s'.waiting)
    ensures Inv(s')
  {
    hide WriterOk, Held, Holds;
    HeldUpdate(s.threads, t, pc);
    assert ThreadOk(s, t);
    assert Active(s'.threads[t]);
    forall u | 0 <= u < |s'.threads|
      ensures ThreadOk(s', u)
    {
      assert ThreadOk(s, u) && OneActive(s, t, u);
    }
    forall u, v | 0 <= u < |s'.threads| && 0 <= v < |s'.threads|
      ensures OneActive(s', u, v)
    {
      assert OneActive(s, t, u) && OneActive(s, t, v);
    }
  }

  /** The thread that was the writer lets go: the poller has it, or nobody. */
  lemma WriterLetsGo(s: State, s': State, t: nat)
    requires Inv(s) && t < |s.threads| && Active(s.threads[t])
    requires s'.threads == s.threads[t := Release] && s'.reading == s.reading
    requires s'.front <= |s'.content| && s'.sent + s'.content == s'.appended
    requires Pending(s') <= 1 && (Pending(s') == 1 ==> s'.writing && !s'.gaveUp && s'.front > 0)
    requires s'.gaveUp ==> s'.writing
    requires s'.writing && !s'.gaveUp ==> Pending(s') == 1
    requires !s'.writing ==> Pending(s') == 0
    requires s'.refs == s.refs - Holds(s.threads[t]) + 1 + Pending(s') && s'.refs > 0 &&
             s'.deleted == s.deleted == false
    requires !(s'.canWrite && s'.waiting)
    ensures Inv(s')
  {
    hide Held, WriterOk;
    HeldUpdate(s.threads, t, Release);
    assert ThreadOk(s, t);
    forall u | 0 <= u < |s'.threads|
      ensures ThreadOk(s', u) && !Active(s'.threads[u])
    {
      assert ThreadOk(s, u) && OneActive(s, t, u);
    }
  }

  /** An active thread holds the connection. */
  lemma {:induction false} HeldAtLeast(threads: seq<PC>, t: nat)
    requires t < |threads|
    ensures Held(threads) >= Holds(threads[t])
  {
    if t > 0 {
      HeldAtLeast(threads[1..], t - 1);
    }
  }

  lemma AliveWith(s: State, t: nat)
    requires Inv(s) && t < |s.threads| && s.threads[t] != Idle
    ensures !s.deleted && s.refs > 0 && s.refs >= Holds(s.threads[t])
    ensures s.threads[t].Test? || s.threads[t].Acquire? ==> s.reading
  {
    hide Held;
    assert ThreadOk(s, t);
    HeldAtLeast(s.threads, t);
  }

  /** A thread becomes the writer where there was none. */
  lemma WriterBegins(s: State, s': State, t: nat, pc: PC)
    requires Inv(s) && NoneActive(s) && t < |s.threads| && Active(pc)
    requires s'.threads == s.threads[t := pc] && s'.writing && !s'.gaveUp && Pending(s') == 0
    requires s'.front <= |s'.content| && WriterOk(s', pc) && s'.reading == s.reading && (pc.Acquire? ==> s.reading)
    requires s'.refs + Pending(s) == s.refs - Holds(s.threads[t]) + Holds(pc) &&
             s'.deleted == s.deleted == (s'.refs == 0)
    requires !(s'.canWrite && s'.waiting)
    ensures Inv(s')
  {
    hide WriterOk, Held, Holds;
    HeldUpdate(s.threads, t, pc);
    assert Active(s'.threads[t]);
    forall u | 0 <= u < |s'.threads|
      ensures ThreadOk(s', u)
    {
      assert ThreadOk(s, u);
    }
  }

  /** A step that leaves the writer and its bytes alone. */
  lemma WriterUntouched(s: State, s': State)
    requires Inv(s) && |s'.threads| == |s.threads|
    requires forall u {:trigger s'.threads[u]} :: 0 <= u < |s.threads| && s'.threads[u] != s.threads[u] ==>
               !Active(s.threads[u]) && !Active(s'.threads[u])
    requires forall u {:trigger s'.threads[u]} :: 0 <= u < |s.threads| && s'.threads[u].Test? ==> s'.reading
    requires s'.(threads := s.threads, refs := s.refs, deleted := s.deleted, reading := s.reading) == s
    requires s'.reading ==> s.reading
    requires !s'.reading ==> forall u {:trigger s.threads[u]} :: 0 <= u < |s.threads| ==> !s.threads[u].Acquire?
    requires s'.refs == Held(s'.threads) + Pending(s') + (if s'.reading then 1 else 0)
    requires s'.deleted <==> s'.refs == 0
    ensures Inv(s')
  {
    hide WriterOk, Held;
    forall u | 0 <= u < |s'.threads|
      ensures ThreadOk(s', u) && (Active(s'.threads[u]) <==> Active(s.threads[u]))
    {
      assert ThreadOk(s, u);
      WriterSame(s, s', s'.threads[u]);
    }
    forall u, v | 0 <= u < |s'.threads| && 0 <= v < |s'.threads|
      ensures OneActive(s', u, v)
    {
      assert OneActive(s, u, v);
    }
  }

  lemma WriterSame(s: State, s': State, pc: PC)
    requires s'.content == s.content && s'.front == s.front && s'.sent == s.sent && s'.appended == s.appended
    ensures WriterOk(s', pc) == WriterOk(s, pc)
  {
  }

  lemma InvTest(s: State, t: nat)
    requires Inv(s) && t < |s.threads| && s.threads[t].Test?
    ensures Inv(StepGo(s, t, Again, 0))
  {
    hide Held;
    AliveWith(s, t);
    if s.writing {
      HeldUpdate(s.threads, t, Idle);
      WriterUntouched(s, Put(s, t, Idle));
    } else {
      WriterBegins(s, StepGo(s, t, Again, 0), t, Acquire);
    }
  }

  lemma InvRelease(s: State, t: nat)
    requires Inv(s) && t < |s.threads| && s.threads[t].Release?
    ensures Inv(Put(Drop(s), t, Idle))
  {
    hide Held;
    AliveWith(s, t);
    HeldUpdate(s.threads, t, Idle);
    assert forall u :: 0 <= u < |s.threads| && s.threads[u].Test? ==> ThreadOk(s, u);
    var s' := Put(Drop(s), t, Idle);
    forall u | 0 <= u < |s.threads|
      ensures s.threads[u].Test? || s.threads[u].Acquire? ==> s.reading
    {
      assert ThreadOk(s, u);
    }
    WriterUntouched(s, s');
  }

  lemma InvCommit(s: State, t: nat, result: SocketResult, front: nat)
    requires Inv(s) && Enabled(s, Go(t, result, front)) && s.threads[t].Commit?
    ensures Inv(StepGo(s, t, result, front))
    ensures var s' := StepGo(s, t, result, front);
            s.writing && (!s'.writing ==> s'.content == [] && s'.sent == s'.appended)
  {
    hide Held;
    assert ThreadOk(s, t);
    AliveWith(s, t);
    var s', size, r := StepGo(s, t, result, front), s.threads[t].size, s.threads[t].result;
    if r.Again? {
      WriterGoesOn(s, s', t, Arm);
    } else if r.Failed? || r.n == 0 {
      WriterLetsGo(s, s', t);
    } else if size == r.n && front == 0 {
      WriterLetsGo(s, s', t);
    } else {
      CommitLeaves(s, t, front);
      WriterGoesOn(s, s', t, Snap(false));
    }
  }

  /** A writer that does not stop has something to send. */
  lemma CommitLeaves(s: State, t: nat, front: nat)
    requires Inv(s) && Enabled(s, Go(t, Again, front)) && s.threads[t].Commit?
    requires s.threads[t].result.Wrote? && s.threads[t].result.n > 0
    requires s.threads[t].size != s.threads[t].result.n || front != 0
    ensures front > 0
  {
    assert ThreadOk(s, t);
  }

  lemma InvWriter(s: State, t: nat, result: SocketResult, front: nat)
    requires Inv(s) && Enabled(s, Go(t, result, front))
    requires var pc := s.threads[t]; pc.Acquire? || pc.Snap? || pc.Send? || pc.Arm? || pc.Claim?
    ensures Inv(StepGo(s, t, result, front))
  {
    hide Held;
    assert ThreadOk(s, t);
    AliveWith(s, t);
    var s' := StepGo(s, t, result, front);
    match s.threads[t]
    case Acquire => WriterGoesOn(s, s', t, Snap(true));
    case Snap(_) => WriterGoesOn(s, s', t, Send(s.front));
    case Send(size) => WriterGoesOn(s, s', t, Commit(size, result));
    case Arm => if s.canWrite { WriterGoesOn(s, s', t, Claim); } else { WriterLetsGo(s, s', t); }
    case Claim => WriterLetsGo(s, s', t);
  }

  lemma InvProduce(s: State, data: seq<char>, front: nat)
    requires Inv(s) && Enabled(s, Produce(data, front))
    ensures Inv(Step(s, Produce(data, front)))
  {
    hide Held;
    var s' := Step(s, Produce(data, front));
    forall u | 0 <= u < |s'.threads|
      ensures ThreadOk(s', u)
    {
      assert ThreadOk(s, u);
      if Active(s.threads[u]) {
        ProduceOk(s, s', s.threads[u], data);
      }
    }
    forall u, v | 0 <= u < |s'.threads| && 0 <= v < |s'.threads|
      ensures OneActive(s', u, v)
    {
      assert OneActive(s, u, v);
    }
    if NoneActive(s') {
      assert NoneActive(s);
      assert s.sent + (s.content + data) == (s.sent + s.content) + data;
    }
  }

  /** Appending behind what is being sent disturbs nobody. */
  lemma ProduceOk(s: State, s': State, pc: PC, data: seq<char>)
    requires WriterOk(s, pc) && s.front <= |s.content|
    requires s'.content == s.content + data && s.front <= s'.front <= |s'.content|
    requires s'.sent == s.sent && s'.appended == s.appended + data
    ensures WriterOk(s', pc)
  {
    assert s.sent + (s.content + data) == (s.sent + s.content) + data;
    if pc.Commit? && pc.result.Wrote? {
      var n := pc.result.n;
      assert s'.content[n..] == s.content[n..] + data;
      assert s.sent + (s.content[n..] + data) == (s.sent + s.content[n..]) + data;
    }
  }

  lemma InvPool(s: State, e: Event)
    requires Inv(s) && Enabled(s, e) && (e.Poll? || e.AddTask?)
    ensures Inv(Step(s, e))
  {
    hide Held;
    var s' := Step(s, e);
    forall u | 0 <= u < |s'.threads|
      ensures ThreadOk(s', u)
    {
      assert ThreadOk(s, u);
      WriterSame(s, s', s.threads[u]);
    }
    forall u, v | 0 <= u < |s'.threads| && 0 <= v < |s'.threads|
      ensures OneActive(s', u, v)
    {
      assert OneActive(s, u, v);
    }
    assert NoneActive(s') == NoneActive(s);
  }

  lemma InvTake(s: State, t: nat)
    requires Inv(s) && Enabled(s, Take(t))
    ensures Inv(Step(s, Take(t)))
  {
    hide Held;
    forall u | 0 <= u < |s.threads|
      ensures !Active(s.threads[u])
    {
      assert ThreadOk(s, u);
    }
    HeldUpdate(s.threads, t, Snap(false));
    WriterBegins(s, Step(s, Take(t)), t, Snap(false));
  }

  lemma InvOutside(s: State, e: Event)
    requires Inv(s) && Enabled(s, e) && (e.Call? || e.StopReading?)
    ensures Inv(Step(s, e))
  {
    hide Held;
    if e.Call? {
      HeldUpdate(s.threads, e.t, Test);
    }
    forall u | 0 <= u < |s.threads|
      ensures s.threads[u].Test? || s.threads[u].Acquire? ==> s.reading
    {
      assert ThreadOk(s, u);
    }
    WriterUntouched(s, Step(s, e));
  }

  lemma InvStep(s: State, e: Event)
    requires Inv(s) && Enabled(s, e)
    ensures Inv(Step(s, e))
  {
    hide Inv, Enabled, StepGo;
    match e
    case Produce(data, front) => InvProduce(s, data, front);
    case Call(_) | StopReading => InvOutside(s, e);
    case Poll | AddTask => InvPool(s, e);
    case Take(t) => InvTake(s, t);
    case Go(t, result, front) => InvGo(s, t, result, front);
  }

  lemma InvGo(s: State, t: nat, result: SocketResult, front: nat)
    requires Inv(s) && Enabled(s, Go(t, result, front))
    ensures Inv(StepGo(s, t, result, front))
  {
    hide Inv;
    match s.threads[t]
    case Test => InvTest(s, t);
    case Release => InvRelease(s, t);
    case Commit(_, _) => InvCommit(s, t, result, front);
    case Acquire | Snap(_) | Send(_) | Arm | Claim => InvWriter(s, t, result, front);
  }

  // -------------------------------------------------------------------- all runs

  datatype Run = Run(states: seq<State>, events: seq<Event>)

  predicate Follows(r: Run, i: nat) {
    && i < |r.events| && |r.states| == |r.events| + 1
    && Enabled(r.states[i], r.events[i]) && r.states[i + 1] == Step(r.states[i], r.events[i])
  }

  ghost predicate ValidRun(r: Run) {
    && |r.states| == |r.events| + 1 && Init(r.states[0])
    && forall i {:trigger Follows(r, i)} :: 0 <= i < |r.events| ==> Follows(r, i)
  }

  lemma {:induction false} InvRun(r: Run, i: nat)
    requires ValidRun(r) && i < |r.states|
    ensures Inv(r.states[i])
  {
    hide Inv, Step, Enabled;
    if i == 0 {
      InitInv(r.states[0]);
    } else {
      InvRun(r, i - 1);
      assert Follows(r, i - 1);
      InvStep(r.states[i - 1], r.events[i - 1]);
    }
  }

  /** Bytes the socket has taken that are not consumed yet. */
  ghost predicate InFlight(s: State, n: nat) {
    n == 0 || exists t :: 0 <= t < |s.threads| && s.threads[t].Commit? && s.threads[t].result == Wrote(n)
  }

  /** In every state of every run: what was sent, and then what is buffered without the
      bytes in flight, is everything appended; and there is at most one writer. */
  lemma StreamIntact(r: Run, i: nat) returns (n: nat)
    requires ValidRun(r) && i < |r.states|
    ensures var s := r.states[i];
            && n <= |s.content| && InFlight(s, n) && s.sent + s.content[n..] == s.appended
            && forall t, u :: 0 <= t < |s.threads| && 0 <= u < |s.threads| && Active(s.threads[t]) ==>
                 Pending(s) == 0 && (Active(s.threads[u]) ==> t == u)
    ensures Pending(r.states[i]) <= 1
  {
    hide Held;
    var s := r.states[i];
    InvRun(r, i);
    n := 0;
    if !NoneActive(s) {
      var t :| 0 <= t < |s.threads| && Active(s.threads[t]);
      assert ThreadOk(s, t);
      if s.threads[t].Commit? && s.threads[t].result.Wrote? {
        n := s.threads[t].result.n;
      }
    }
    forall t, u | 0 <= t < |s.threads| && 0 <= u < |s.threads| && Active(s.threads[t])
      ensures Pending(s) == 0 && (Active(s.threads[u]) ==> t == u)
    {
      assert ThreadOk(s, t) && OneActive(s, t, u);
    }
  }

  /** The flag falls only when everything appended has been sent, and there is a writer
      exactly as long as it stands and no doWrite has ended on an error or a result of 0. */
  lemma WritingMeansWriter(r: Run, i: nat)
    requires ValidRun(r) && i < |r.states|
    ensures var s := r.states[i];
            && (Pending(s) == 1 || !NoneActive(s) <==> s.writing && !s.gaveUp)
            && (s.gaveUp ==> s.writing)
    ensures i > 0 && r.states[i - 1].writing && !r.states[i].writing ==>
              r.states[i].content == [] && r.states[i].sent == r.states[i].appended
  {
    hide StepGo, Held;
    InvRun(r, i);
    if r.states[i].gaveUp {
      GaveUpMeansNobody(r, i);
    }
    if i > 0 {
      InvRun(r, i - 1);
      assert Follows(r, i - 1);
      if r.states[i - 1].writing && !r.states[i].writing {
        FlagFalls(r.states[i - 1], r.events[i - 1]);
      }
    }
  }

  lemma FlagFalls(s: State, e: Event)
    requires Inv(s) && Enabled(s, e) && s.writing && !Step(s, e).writing
    ensures Step(s, e).content == [] && Step(s, e).sent == Step(s, e).appended
  {
    hide Inv;
    if e.Go? && s.threads[e.t].Commit? {
      InvCommit(s, e.t, e.result, e.front);
    }
  }

  /** Nothing happens to a connection that has been deleted. */
  lemma DeletedIsQuiet(r: Run, i: nat)
    requires ValidRun(r) && i < |r.events|
    ensures !r.states[i].deleted
  {
    hide Held;
    var s, e := r.states[i], r.events[i];
    InvRun(r, i);
    assert Follows(r, i);
    if e.Go? {
      AliveWith(s, e.t);
    }
  }

  /** A write of nothing is tried only right after startWrite found nothing readable. */
  lemma EmptyWriteIsFirst(r: Run, i: nat, t: nat)
    requires ValidRun(r) && i < |r.states| && t < |r.states[i].threads|
    requires r.states[i].threads[t].Snap? && r.states[i].front == 0
    ensures r.states[i].threads[t].first
  {
    InvRun(r, i);
    assert ThreadOk(r.states[i], t);
  }

  // ------------------------------------------------- exactly when the writer is lost

  /** No errors, and something is taken of every write that has something to give. */
  predicate TakesSome(r: Run) {
    |r.states| == |r.events| + 1 &&
    forall i {:trigger r.events[i]} ::
      0 <= i < |r.events| && r.events[i].Go? && r.events[i].t < |r.states[i].threads| ==>
      FairResult(r.states[i].threads[r.events[i].t], r.events[i].result)
  }

  predicate FairResult(pc: PC, result: SocketResult) {
    pc.Send? && pc.size > 0 ==> result.Again? || (result.Wrote? && result.n > 0)
  }

  /** At step k thread t, the writer that startWrite has just made it, takes its first
      snapshot and finds readSize() to be 0. */
  predicate EmptySnapshot(r: Run, k: nat, t: nat) {
    && k < |r.events| < |r.states| && t < |r.states[k].threads|
    && r.events[k].Go? && r.events[k].t == t
    && r.states[k].threads[t] == Snap(true) && r.states[k].front == 0
  }

  /** At step j thread t settles the write of its empty snapshot of step k. */
  predicate EmptyWrite(r: Run, k: nat, j: nat, t: nat) {
    && EmptySnapshot(r, k, t) && k < j < |r.events|
    && r.events[j].Go? && r.events[j].t == t && t < |r.states[j].threads|
    && r.states[j].threads[t].Commit? && r.states[j].threads[t].size == 0
  }

  /** The thread is sending, or has sent, a snapshot of nothing. */
  predicate SendsNothing(pc: PC) {
    (pc.Send? || pc.Commit?) && pc.size == 0
  }

  /** What the socket said of a snapshot of something. */
  predicate FairCommit(pc: PC) {
    pc.Commit? && pc.size > 0 ==> pc.result.Again? || (pc.result.Wrote? && pc.result.n > 0)
  }

  /** The thread is about to end doWrite for good. */
  predicate Ends(pc: PC) {
    pc.Commit? && (pc.result.Failed? || pc.result == Wrote(0))
  }

  /** Where a thread goes, as far as sending and giving up are concerned. */
  ghost predicate Goes(s: State, t: nat, result: SocketResult, s': State) {
    && t < |s.threads| == |s'.threads|
    && s'.threads == s.threads[t := s'.threads[t]]
    && (SendsNothing(s'.threads[t]) ==>
          SendsNothing(s.threads[t]) || (s.threads[t] == Snap(true) && s.front == 0))
    && (FairResult(s.threads[t], result) ==> FairCommit(s'.threads[t]))
    && (s'.threads[t].Send? ==> s.threads[t].Snap? && s'.threads[t].size == s.front)
    && s'.gaveUp == (s.gaveUp || Ends(s.threads[t]))
  }

  lemma PutGoes(s: State, s0: State, t: nat, result: SocketResult, pc: PC)
    requires t < |s.threads| && s0.threads == s.threads && s0.gaveUp == (s.gaveUp || Ends(s.threads[t]))
    requires pc.Send? || pc.Commit? ==>
               && (SendsNothing(pc) ==> SendsNothing(s.threads[t]) || (s.threads[t] == Snap(true) && s.front == 0))
               && (FairResult(s.threads[t], result) ==> FairCommit(pc))
    requires pc.Send? ==> s.threads[t].Snap? && pc.size == s.front
    ensures Goes(s, t, result, Put(s0, t, pc))
  {
  }

  lemma SettleGoes(s: State, t: nat, size: nat, r: SocketResult, front: nat, result: SocketResult)
    requires t < |s.threads| && s.threads[t] == Commit(size, r)
    ensures Goes(s, t, result, Settle(s, t, size, r, front))
  {
    hide Goes, Put;
    match r
    case Again => PutGoes(s, s.(refs := s.refs + 1), t, result, Arm);
    case Failed => PutGoes(s, s.(gaveUp := true), t, result, Release);
    case Wrote(n) =>
      var s1 := s.(content := if n <= |s.content| then s.content[n..] else [], front := front);
      if n == 0 {
        PutGoes(s, s.(gaveUp := true), t, result, Release);
      } else {
        PutGoes(s, s1.(writing := false), t, result, Release);
        PutGoes(s, s1, t, result, Snap(false));
      }
  }

  lemma StartGoes(s: State, t: nat, result: SocketResult, front: nat)
    requires t < |s.threads| &&
             (s.threads[t].Test? || s.threads[t].Acquire? || s.threads[t].Release? || s.threads[t].Idle?)
    ensures Goes(s, t, result, StepGo(s, t, result, front))
  {
    hide Settle, Goes, Put, Drop;
    match s.threads[t]
    case Test =>
      PutGoes(s, s, t, result, Idle);
      PutGoes(s, s.(writing := true), t, result, Acquire);
    case Acquire => PutGoes(s, s.(refs := s.refs + 1), t, result, Snap(true));
    case Idle | Release =>
      DropThreads(s);
      PutGoes(s, Drop(s), t, result, Idle);
  }

  lemma ArmGoes(s: State, t: nat, result: SocketResult, front: nat)
    requires t < |s.threads| && (s.threads[t].Arm? || s.threads[t].Claim?)
    ensures Goes(s, t, result, StepGo(s, t, result, front))
  {
    hide Settle, Goes, Put, Drop;
    match s.threads[t]
    case Arm =>
      PutGoes(s, s.(canWrite := false), t, result, Claim);
      PutGoes(s, s.(waiting := true), t, result, Release);
    case Claim => PutGoes(s, s.(scheduled := s.scheduled + 1), t, result, Release);
  }

  /** A thread's step moves that thread alone, and starts or settles what it sends. */
  lemma GoGoes(s: State, t: nat, result: SocketResult, front: nat)
    requires Inv(s) && t < |s.threads|
    ensures Goes(s, t, result, StepGo(s, t, result, front))
  {
    hide Inv, Held, Settle, WriterOk, Goes, Put, Drop;
    match s.threads[t]
    case Snap(first) =>
      if s.front == 0 { SnapKnows(s, t); }
      PutGoes(s, s, t, result, Send(s.front));
    case Send(size) =>
      var s1 := if result.Wrote? && result.n <= |s.content| then s.(sent := s.sent + s.content[..result.n]) else s;
      PutGoes(s, s1, t, result, Commit(size, result));
    case Commit(size, r) => SettleGoes(s, t, size, r, front, result);
    case Arm | Claim => hide StepGo; ArmGoes(s, t, result, front);
    case Test | Acquire | Release | Idle => hide StepGo; StartGoes(s, t, result, front);
  }

  lemma DropThreads(s: State)
    ensures Drop(s).threads == s.threads && Drop(s).gaveUp == s.gaveUp
  {
  }

  lemma SnapKnows(s: State, t: nat)
    requires Inv(s) && t < |s.threads| && s.threads[t].Snap? && s.front == 0
    ensures s.threads[t] == Snap(true)
  {
    assert ThreadOk(s, t);
  }

  lemma SameThreads(s: State, e: Event)
    requires Inv(s) && Enabled(s, e)
    ensures |Step(s, e).threads| == |s.threads|
  {
    hide Inv, StepGo;
    if e.Go? {
      GoGoes(s, e.t, e.result, e.front);
    }
  }

  /** How a thread comes to send a snapshot of nothing, or to have the socket's word. */
  lemma SendStep(s: State, e: Event, t: nat)
    requires Inv(s) && Enabled(s, e) && t < |s.threads| == |Step(s, e).threads|
    ensures var pc, pc' := s.threads[t], Step(s, e).threads[t];
            && (SendsNothing(pc') ==>
                  SendsNothing(pc) || (e.Go? && e.t == t && pc == Snap(true) && s.front == 0))
            && (FairCommit(pc) && (e.Go? && e.t == t ==> FairResult(pc, e.result)) ==> FairCommit(pc'))
  {
    hide Inv, StepGo;
    if e.Go? {
      GoGoes(s, e.t, e.result, e.front);
    }
  }

  /** A snapshot of nothing was the first one that startWrite's writer took. */
  lemma {:induction false} NothingFromSnapshot(r: Run, i: nat, t: nat) returns (k: nat)
    requires ValidRun(r) && i < |r.states| && t < |r.states[i].threads| && SendsNothing(r.states[i].threads[t])
    ensures k < i && EmptySnapshot(r, k, t)
  {
    hide Inv, Step, Enabled;
    k := 0;
    if i > 0 {
      var s, e := r.states[i - 1], r.events[i - 1];
      assert Follows(r, i - 1);
      InvRun(r, i - 1);
      SameThreads(s, e);
      SendStep(s, e, t);
      if SendsNothing(s.threads[t]) {
        k := NothingFromSnapshot(r, i - 1, t);
      } else {
        k := i - 1;
      }
    }
  }

  lemma {:induction false} CommitsAreFair(r: Run, i: nat, t: nat)
    requires ValidRun(r) && TakesSome(r) && i < |r.states| && t < |r.states[i].threads|
    ensures FairCommit(r.states[i].threads[t])
  {
    hide Inv, Step, Enabled;
    if i == 0 {
      assert r.states[0].threads[t] == Idle;
    } else {
      var s, e := r.states[i - 1], r.events[i - 1];
      assert Follows(r, i - 1);
      InvRun(r, i - 1);
      SameThreads(s, e);
      CommitsAreFair(r, i - 1, t);
      SendStep(s, e, t);
    }
  }

  /** The step at which doWrite gives up is a settling one. */
  lemma GivesUpHow(s: State, e: Event)
    requires Inv(s) && Enabled(s, e)
    ensures s.gaveUp ==> Step(s, e).gaveUp
    ensures Step(s, e).gaveUp && !s.gaveUp ==> e.Go? && Ends(s.threads[e.t])
    ensures e.Go? && s.threads[e.t].Commit? && s.threads[e.t].size == 0 ==> Step(s, e).gaveUp
  {
    hide Inv, StepGo;
    if e.Go? {
      GoGoes(s, e.t, e.result, e.front);
      if s.threads[e.t].Commit? && s.threads[e.t].size == 0 {
        CommitKnows(s, e.t);
      }
    }
  }

  lemma CommitKnows(s: State, t: nat)
    requires Inv(s) && t < |s.threads| && s.threads[t].Commit? && s.threads[t].size == 0
    ensures Ends(s.threads[t])
  {
    assert ThreadOk(s, t);
  }

  /** A writer that gave up is gone, and the flag stands. */
  lemma GaveUpMeansNobody(r: Run, i: nat)
    requires ValidRun(r) && i < |r.states| && r.states[i].gaveUp
    ensures r.states[i].writing && NoneActive(r.states[i]) && Pending(r.states[i]) == 0
  {
    hide Held;
    var s := r.states[i];
    InvRun(r, i);
    forall t | 0 <= t < |s.threads|
      ensures !Active(s.threads[t])
    {
      assert ThreadOk(s, t);
    }
  }

  /** A write of nothing is the end of the writer. */
  lemma {:induction false} EmptyWriteGivesUp(r: Run, k: nat, j: nat, t: nat, i: nat)
    requires ValidRun(r) && EmptyWrite(r, k, j, t) && j < i < |r.states|
    ensures r.states[i].gaveUp
    decreases i
  {
    hide Inv, Step, Enabled;
    assert Follows(r, i - 1);
    InvRun(r, i - 1);
    GivesUpHow(r.states[i - 1], r.events[i - 1]);
    if j < i - 1 {
      EmptyWriteGivesUp(r, k, j, t, i - 1);
    }
  }

  lemma {:induction false} GivesUpOnEmptyWrite(r: Run, i: nat) returns (k: nat, j: nat, t: nat)
    requires ValidRun(r) && TakesSome(r) && i < |r.states| && r.states[i].gaveUp
    ensures j < i && EmptyWrite(r, k, j, t)
    decreases i
  {
    hide Inv, Step, Enabled;
    k, j, t := 0, 0, 0;
    if i > 0 {
      var s, e := r.states[i - 1], r.events[i - 1];
      assert Follows(r, i - 1);
      InvRun(r, i - 1);
      GivesUpHow(s, e);
      if s.gaveUp {
        k, j, t := GivesUpOnEmptyWrite(r, i - 1);
      } else {
        j, t := i - 1, e.t;
        InRange(s, e);
        CommitsAreFair(r, j, t);
        k := NothingFromSnapshot(r, j, t);
      }
    }
  }

  lemma InRange(s: State, e: Event)
    requires Enabled(s, e)
    ensures e.Go? ==> e.t < |s.threads|
  {
  }

  /** When the socket takes something of every write that has something to give, or says
      EAGAIN: the flag stands with nobody writing if and only if a writer elected by
      startWrite found nothing readable and went on to write it. */
  lemma WriterLostExactlyWhen(r: Run, i: nat)
    requires ValidRun(r) && TakesSome(r) && i < |r.states|
    ensures var s := r.states[i];
            s.writing && NoneActive(s) && Pending(s) == 0 <==>
            exists k: nat, j: nat, t: nat :: j < i && EmptyWrite(r, k, j, t)
  {
    hide Inv, EmptyWrite;
    var s := r.states[i];
    if s.writing && NoneActive(s) && Pending(s) == 0 {
      WritingMeansWriter(r, i);
      var k, j, t := GivesUpOnEmptyWrite(r, i);
    }
    if k: nat, j: nat, t: nat :| j < i && EmptyWrite(r, k, j, t) {
      EmptyWriteGivesUp(r, k, j, t, i);
      GaveUpMeansNobody(r, i);
    }
  }

  // --------------------------------------------------------- waiting for the poller

  /** The writer has given way to the poller, or is about to. */
  ghost predicate Parked(s: State) {
    && s.writing
    && forall t :: 0 <= t < |s.threads| && Active(s.threads[t]) ==> s.threads[t].Arm? || s.threads[t].Claim?
  }

  lemma ParkedStep(s: State, e: Event)
    requires Inv(s) && Enabled(s, e) && Parked(s) && !e.Take?
    ensures Parked(Step(s, e))
  {
    hide Held;
    forall t | 0 <= t < |s.threads|
      ensures ThreadOk(s, t)
    {
    }
  }

  lemma AgainParks(s: State, e: Event)
    requires Inv(s) && Enabled(s, e) && e.Go?
    requires s.threads[e.t].Commit? && s.threads[e.t].result.Again?
    ensures Parked(Step(s, e))
  {
    hide Held;
    assert ThreadOk(s, e.t);
    forall t | 0 <= t < |s.threads| && t != e.t
      ensures !Active(s.threads[t])
    {
      assert OneActive(s, e.t, t);
    }
  }

  lemma {:induction false} ParkedSince(r: Run, i: nat, j: nat)
    requires ValidRun(r) && i < j < |r.states|
    requires r.events[i].Go? && r.events[i].t < |r.states[i].threads|
    requires r.states[i].threads[r.events[i].t].Commit? && r.states[i].threads[r.events[i].t].result.Again?
    requires forall m {:trigger r.events[m]} :: i < m < j ==> !r.events[m].Take?
    ensures Parked(r.states[j])
    decreases j
  {
    hide Inv, Parked, Step, Enabled;
    assert Follows(r, j - 1);
    InvRun(r, j - 1);
    if j == i + 1 {
      AgainParks(r.states[i], r.events[i]);
    } else {
      ParkedSince(r, i, j - 1);
      ParkedStep(r.states[j - 1], r.events[j - 1]);
    }
  }

  /** After EAGAIN nothing is sent until a scheduled doWrite is taken up again. */
  lemma EagainWaits(r: Run, i: nat, j: nat)
    requires ValidRun(r) && i < j < |r.events|
    requires r.events[i].Go? && r.events[i].t < |r.states[i].threads|
    requires r.states[i].threads[r.events[i].t].Commit? && r.states[i].threads[r.events[i].t].result.Again?
    requires r.events[j].Go? && r.events[j].t < |r.states[j].threads| && r.states[j].threads[r.events[j].t].Send?
    ensures exists m :: i < m < j && r.events[m].Take?
  {
    hide Inv;
    if forall m {:trigger r.events[m]} :: i < m < j ==> !r.events[m].Take? {
      ParkedSince(r, i, j);
    }
  }

  function Polls(events: seq<Event>): nat {
    if events == [] then 0 else Polls(events[..|events| - 1]) + if events[|events| - 1].Poll? then 1 else 0
  }

  function Takes(events: seq<Event>): nat {
    if events == [] then 0 else Takes(events[..|events| - 1]) + if events[|events| - 1].Take? then 1 else 0
  }

  function Claims(threads: seq<PC>): nat {
    if threads == [] then 0 else (if threads[0].Claim? then 1 else 0) + Claims(threads[1..])
  }

  lemma {:induction false} ClaimsUpdate(threads: seq<PC>, t: nat, pc: PC)
    requires t < |threads|
    ensures Claims(threads[t := pc]) ==
            Claims(threads) - (if threads[t].Claim? then 1 else 0) + (if pc.Claim? then 1 else 0)
  {
    if t > 0 {
      ClaimsUpdate(threads[1..], t - 1, pc);
      assert threads[t := pc][1..] == threads[1..][t - 1 := pc];
    } else {
      assert threads[t := pc][1..] == threads[1..];
    }
  }

  lemma {:induction false} ClaimsNone(threads: seq<PC>)
    requires forall t :: 0 <= t < |threads| ==> !threads[t].Claim?
    ensures Claims(threads) == 0
  {
    if threads != [] {
      ClaimsNone(threads[1..]);
    }
  }

  /** Poll events that have not led to a doWrite yet. */
  ghost function Unspent(s: State): int {
    s.claimed + s.scheduled + Claims(s.threads) + if s.canWrite then 1 else 0
  }

  function One(b: bool): nat { if b then 1 else 0 }

  /** What a thread's step does to the poll events not spent. */
  ghost predicate Tally(s: State, t: nat, s': State) {
    && t < |s.threads| == |s'.threads|
    && s'.threads == s.threads[t := s'.threads[t]] && s'.claimed == s.claimed
    && (!s.threads[t].Arm? ==> s'.canWrite == s.canWrite)
    && s'.scheduled + One(s'.threads[t].Claim?) + One(s'.canWrite) ==
       s.scheduled + One(s.threads[t].Claim?) + One(s.canWrite)
  }

  lemma PutTally(s: State, s0: State, t: nat, pc: PC)
    requires t < |s.threads| && s0.threads == s.threads && s0.claimed == s.claimed
    requires !s.threads[t].Arm? ==> s0.canWrite == s.canWrite
    requires s0.scheduled + One(pc.Claim?) + One(s0.canWrite) ==
             s.scheduled + One(s.threads[t].Claim?) + One(s.canWrite)
    ensures Tally(s, t, Put(s0, t, pc))
  {
  }

  lemma SettleTally(s: State, t: nat, size: nat, r: SocketResult, front: nat)
    requires t < |s.threads| && s.threads[t] == Commit(size, r)
    ensures Tally(s, t, Settle(s, t, size, r, front))
  {
    hide Tally, Put;
    match r
    case Again => PutTally(s, s.(refs := s.refs + 1), t, Arm);
    case Failed => PutTally(s, s.(gaveUp := true), t, Release);
    case Wrote(n) =>
      var s1 := s.(content := if n <= |s.content| then s.content[n..] else [], front := front);
      if n == 0 {
        PutTally(s, s.(gaveUp := true), t, Release);
      } else {
        PutTally(s, s1.(writing := false), t, Release);
        PutTally(s, s1, t, Snap(false));
      }
  }

  lemma DropTally(s: State)
    ensures Drop(s).threads == s.threads && Drop(s).claimed == s.claimed
    ensures Drop(s).scheduled == s.scheduled && Drop(s).canWrite == s.canWrite
  {
  }

  lemma StartTally(s: State, t: nat, result: SocketResult, front: nat)
    requires t < |s.threads|
    requires s.threads[t].Test? || s.threads[t].Acquire? || s.threads[t].Release? || s.threads[t].Idle?
    ensures Tally(s, t, StepGo(s, t, result, front))
  {
    hide Tally, Settle, Put, Drop;
    match s.threads[t]
    case Test =>
      PutTally(s, s, t, Idle);
      PutTally(s, s.(writing := true), t, Acquire);
    case Acquire => PutTally(s, s.(refs := s.refs + 1), t, Snap(true));
    case Idle | Release =>
      DropTally(s);
      PutTally(s, Drop(s), t, Idle);
  }

  lemma ArmTally(s: State, t: nat, result: SocketResult, front: nat)
    requires t < |s.threads| && (s.threads[t].Arm? || s.threads[t].Claim?)
    ensures Tally(s, t, StepGo(s, t, result, front))
  {
    hide Tally, Settle, Put, Drop;
    match s.threads[t]
    case Arm =>
      if s.canWrite {
        PutTally(s, s.(canWrite := false), t, Claim);
      } else {
        PutTally(s, s.(waiting := true), t, Release);
      }
    case Claim => PutTally(s, s.(scheduled := s.scheduled + 1), t, Release);
  }

  lemma GoTally(s: State, t: nat, result: SocketResult, front: nat)
    requires t < |s.threads|
    ensures Tally(s, t, StepGo(s, t, result, front))
  {
    hide Tally, Settle, Put, Drop;
    match s.threads[t]
    case Snap(_) => PutTally(s, s, t, Send(s.front));
    case Send(size) =>
      var s1 := if result.Wrote? && result.n <= |s.content| then s.(sent := s.sent + s.content[..result.n]) else s;
      PutTally(s, s1, t, Commit(size, result));
    case Commit(size, r) => SettleTally(s, t, size, r, front);
    case Arm | Claim => hide StepGo; ArmTally(s, t, result, front);
    case Test | Acquire | Release | Idle => hide StepGo; StartTally(s, t, result, front);
  }

  lemma UnspentStep(s: State, e: Event)
    requires Inv(s) && Enabled(s, e)
    ensures Unspent(Step(s, e)) <= Unspent(s) + (if e.Poll? then 1 else 0) - (if e.Take? then 1 else 0)
  {
    hide Held, Inv, Claims, StepGo;
    match e
    case Call(t) => ClaimsUpdate(s.threads, t, Test);
    case Take(t) => ClaimsUpdate(s.threads, t, Snap(false));
    case Go(t, result, front) =>
      GoTally(s, t, result, front);
      ClaimsUpdate(s.threads, t, StepGo(s, t, result, front).threads[t]);
    case _ =>
  }

  /** The writer is resumed at most once for every event of the poller, but for those it
      may have had in hand at the start. */
  lemma {:induction false} ResumedByPolls(r: Run, i: nat)
    requires ValidRun(r) && i < |r.states|
    ensures Takes(r.events[..i]) + Unspent(r.states[i]) <= Polls(r.events[..i]) + Unspent(r.states[0])
    ensures Takes(r.events[..i]) <= Polls(r.events[..i]) + 1
    decreases i
  {
    hide Inv, Step, Enabled;
    ClaimsNone(r.states[0].threads);
    if i > 0 {
      ResumedByPolls(r, i - 1);
      InvRun(r, i - 1);
      assert Follows(r, i - 1);
      UnspentStep(r.states[i - 1], r.events[i - 1]);
      assert r.events[..i][..i - 1] == r.events[..i - 1];
    }
  }

  lemma CanWriteStays(s: State, e: Event)
    requires Inv(s) && Enabled(s, e) && s.canWrite
    requires e.Go? ==> !s.threads[e.t].Arm?
    ensures Step(s, e).canWrite
  {
    hide Held, Inv, StepGo;
    if e.Go? {
      GoTally(s, e.t, e.result, e.front);
    } else if e.Poll? {
      NotBoth(s);
    }
  }

  lemma NotBoth(s: State)
    requires Inv(s)
    ensures !(s.canWrite && s.waiting)
  {
  }

  /** An event of the poller that nobody waits for is kept for the writer: the next time
      it gives way, however late, it is scheduled at once. */
  lemma {:induction false} EventKept(r: Run, i: nat, j: nat)
    requires ValidRun(r) && i < j < |r.states| && r.events[i].Poll? && !r.states[i].waiting
    requires forall m {:trigger r.events[m]} ::
               i < m < j && r.events[m].Go? && r.events[m].t < |r.states[m].threads| ==>
               !r.states[m].threads[r.events[m].t].Arm?
    ensures r.states[j].canWrite
    ensures j < |r.events| && r.events[j].Go? && r.events[j].t < |r.states[j].threads| &&
            r.states[j].threads[r.events[j].t].Arm? ==>
              r.events[j].t < |r.states[j + 1].threads| && r.states[j + 1].threads[r.events[j].t].Claim?
    decreases j
  {
    hide Inv;
    assert Follows(r, j - 1);
    InvRun(r, j - 1);
    if j > i + 1 {
      EventKept(r, i, j - 1);
      CanWriteStays(r.states[j - 1], r.events[j - 1]);
    }
    if j < |r.events| {
      assert Follows(r, j);
    }
  }

  /** The bytes a thread offers to the socket are all that were readable when it looked. */
  lemma {:induction false} OffersAll(r: Run, i: nat, t: nat) returns (k: nat)
    requires ValidRun(r) && i < |r.states| && t < |r.states[i].threads| && r.states[i].threads[t].Send?
    ensures k < i && t < |r.states[k].threads| && r.events[k].Go? && r.events[k].t == t
    ensures r.states[k].threads[t].Snap? && r.states[k].front == r.states[i].threads[t].size
    ensures r.states[i].front >= r.states[i].threads[t].size
    decreases i
  {
    hide Inv, StepGo, Enabled;
    assert i > 0;
    assert Follows(r, i - 1);
    InvRun(r, i);
    InvRun(r, i - 1);
    var s, e := r.states[i - 1], r.events[i - 1];
    assert ThreadOk(r.states[i], t) by { SendKnows(r.states[i], t); }
    SameThreads(s, e);
    if e.Go? {
      MovesOne(s, e);
      GoGoes(s, e.t, e.result, e.front);
    }
    if e.Go? && e.t == t {
      k := i - 1;
    } else {
      k := OffersAll(r, i - 1, t);
    }
  }

  lemma MovesOne(s: State, e: Event)
    requires Enabled(s, e) && e.Go?
    ensures e.t < |s.threads|
  {
  }

  lemma SendKnows(s: State, t: nat)
    requires Inv(s) && t < |s.threads|
    ensures ThreadOk(s, t)
  {
  }

  /** The connection is deleted exactly when nobody uses it any more. */
  lemma DeletedExactlyWhen(r: Run, i: nat)
    requires ValidRun(r) && i < |r.states|
    ensures var s := r.states[i];
            s.deleted <==>
              !s.reading && Pending(s) == 0 && forall t :: 0 <= t < |s.threads| ==> Holds(s.threads[t]) == 0
  {
    InvRun(r, i);
    if forall t :: 0 <= t < |r.states[i].threads| ==> Holds(r.states[i].threads[t]) == 0 {
      HeldNone(r.states[i].threads);
    }
    forall t | 0 <= t < |r.states[i].threads|
      ensures Holds(r.states[i].threads[t]) <= Held(r.states[i].threads)
    {
      HeldAtLeast(r.states[i].threads, t);
    }
  }

  function Last(r: Run): State
    requires r.states != []
  {
    r.states[|r.states| - 1]
  }

  ghost predicate NoErrors(r: Run) {
    forall i {:trigger r.events[i]} :: 0 <= i < |r.events| && r.events[i].Go? ==> r.events[i].result.Wrote?
  }

  lemma OneMore(r: Run, e: Event) returns (r': Run)
    requires ValidRun(r) && NoErrors(r) && Enabled(Last(r), e) && (e.Go? ==> e.result.Wrote?)
    ensures ValidRun(r') && NoErrors(r') && Last(r') == Step(Last(r), e)
  {
    hide Step, Enabled, Init;
    r' := Run(r.states + [Step(Last(r), e)], r.events + [e]);
    forall i | 0 <= i < |r'.events|
      ensures Follows(r', i)
    {
      if i < |r.events| {
        assert Follows(r, i);
      }
    }
  }

  /** One go of a thread whose socket takes n bytes and whose buffer then shows f. */
  function Turn(t: nat, n: nat, f: nat): Event { Go(t, Wrote(n), f) }

  /** Two threads on a fresh connection. */
  const Fresh := State([], 0, false, 1, false, [Idle, Idle], false, false, 0, 0, true, [], [], false)

  /** Two threads call startWrite; the first sends the bytes of both, the second finds
      nothing, and from then on the flag stands without a writer: what is appended
      later stays unsent though no error occurred. */
  lemma StuckWriter() returns (r: Run)
    ensures ValidRun(r) && NoErrors(r) && Last(r).content == "c" && Last(r).writing
    ensures NoneActive(Last(r)) && Pending(Last(r)) == 0
  {
    hide ValidRun, NoErrors, StepGo;
    r := BothStart();
    r := FirstSends(r);
    r := SecondFindsNothing(r);
    r := OneMore(r, Produce("c", 1));
  }

  lemma BothStart() returns (r: Run)
    ensures ValidRun(r) && NoErrors(r)
    ensures Last(r) == Fresh.(content := "a", front := 1, appended := "a", writing := true, threads := [Acquire, Test])
  {
    r := Run([Fresh], []);
    r := OneMore(r, Produce("a", 1));
    r := OneMore(r, Call(0));
    r := OneMore(r, Call(1));
    r := OneMore(r, Turn(0, 0, 0));
  }

  lemma FirstSends(r: Run) returns (r': Run)
    requires ValidRun(r) && NoErrors(r)
    requires Last(r) == Fresh.(content := "a", front := 1, appended := "a", writing := true, threads := [Acquire, Test])
    ensures ValidRun(r') && NoErrors(r')
    ensures Last(r') == Fresh.(appended := "a", sent := "a", threads := [Idle, Test])
  {
    r' := OneMore(r, Turn(0, 0, 0));
    r' := OneMore(r', Turn(0, 0, 0));
    r' := OneMore(r', Turn(0, 1, 0));
    r' := OneMore(r', Turn(0, 0, 0));
    r' := OneMore(r', Turn(0, 0, 0));
  }

  lemma SecondFindsNothing(r: Run) returns (r': Run)
    requires ValidRun(r) && NoErrors(r)
    requires Last(r) == Fresh.(appended := "a", sent := "a", threads := [Idle, Test])
    ensures ValidRun(r') && NoErrors(r')
    ensures Last(r') == Fresh.(appended := "a", sent := "a", writing := true, gaveUp := true)
  {
    r' := OneMore(r, Turn(1, 0, 0));
    r' := OneMore(r', Turn(1, 0, 0));
    r' := OneMore(r', Turn(1, 0, 0));
    r' := OneMore(r', Turn(1, 0, 0));
    r' := OneMore(r', Turn(1, 0, 0));
    r' := OneMore(r', Turn(1, 0, 0));
  }
}
