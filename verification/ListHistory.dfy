/**
  Linearizability of the lock-free list: in every run, the calls can be put in
  one order, each at a step between its call and its return, so that executing
  them one at a time on a map gives every call the result it returned.
 */
module ListHistory {
  import opened ListMachine
  import opened ListShape
  import opened ListInvariant

  // ------------------------------------------------------ the sequential map

  function SpecMap(op: Op, m: map<int, int>): map<int, int> {
    match op.kind
    case Insert => if op.key in m then m else m[op.key := op.value]
    case Remove => m - {op.key}
    case Lookup => m
  }

  function SpecResult(op: Op, m: map<int, int>): Result {
    match op.kind
    case Insert => if op.key in m then Failed else Done
    case Remove => if op.key in m then Done else Failed
    case Lookup => if op.key in m then Found(m[op.key]) else Failed
  }

  // ------------------------------------------------------- calls within a run

  /** The abstract map before step m. */
  ghost function MapAt(r: Run, m: nat): map<int, int>
    requires m < |r.states|
  {
    Abs(r.states[m].heap)
  }

  /** The step at which the call that thread t is in, at moment n, was made. */
  ghost function CallOf(r: Run, t: nat, n: nat): nat
    requires n <= |r.events|
  {
    if n == 0 then 0
    else if r.events[n - 1].Call? && r.events[n - 1].t == t then n - 1
    else CallOf(r, t, n - 1)
  }

  /** Step m is a step of thread t after its call at c and before moment n. */
  ghost predicate Own(r: Run, t: nat, c: nat, m: nat, n: nat) {
    c < m < n <= |r.events| && r.events[m].t == t
  }

  ghost predicate Still(r: Run, m: nat)
    requires |r.states| == |r.events| + 1
  {
    m < |r.events| ==> MapAt(r, m + 1) == MapAt(r, m)
  }

  ghost predicate AllStill(r: Run, t: nat, c: nat, n: nat)
    requires |r.states| == |r.events| + 1
  {
    forall m :: Own(r, t, c, m, n) ==> Still(r, m)
  }

  /** At some own step since the call, k was absent. */
  ghost predicate SawAbsent(r: Run, t: nat, c: nat, n: nat, k: int)
    requires |r.states| == |r.events| + 1
  {
    exists m :: Own(r, t, c, m, n) && k !in MapAt(r, m)
  }

  /** At some own step since the call, k was bound to v. */
  ghost predicate SawPresent(r: Run, t: nat, c: nat, n: nat, k: int, v: int)
    requires |r.states| == |r.events| + 1
  {
    exists m :: Own(r, t, c, m, n) && k in MapAt(r, m) && MapAt(r, m)[k] == v
  }

  /** At own step m the call does to the map, and reports, what the sequential call would. */
  ghost predicate Takes(r: Run, m: nat, op: Op, res: Result)
    requires |r.states| == |r.events| + 1
  {
    m < |r.events| && MapAt(r, m + 1) == SpecMap(op, MapAt(r, m)) && res == SpecResult(op, MapAt(r, m))
  }

  ghost predicate Point(r: Run, t: nat, c: nat, n: nat, op: Op, res: Result, m: nat)
    requires |r.states| == |r.events| + 1
  {
    && Own(r, t, c, m, n) && Takes(r, m, op, res)
    && forall m' :: Own(r, t, c, m', n) && m' != m ==> Still(r, m')
  }

  /** The call took effect at exactly one of its own steps. */
  ghost predicate Settled(r: Run, t: nat, c: nat, n: nat, op: Op, res: Result)
    requires |r.states| == |r.events| + 1
  {
    exists m :: Point(r, t, c, n, op, res, m)
  }

  // ------------------------------------------- what a thread knows at each point

  /** What the thread has seen since its call, at the points where it relies on it. */
  ghost predicate Known(r: Run, t: nat, c: nat, n: nat, th: Thread, h: Heap)
    requires |r.states| == |r.events| + 1
  {
    match th.pc
    case ReadKey | Check2 =>
      && th.cur in h && SawPresent(r, t, c, n, h[th.cur].key, h[th.cur].value)
      && (th.next == NULL && h[th.cur].key < th.op.key ==> SawAbsent(r, t, c, n, th.op.key))
    case Swap1 | Swap2 => th.next == NULL ==> SawAbsent(r, t, c, n, th.op.key)
    case ReadVal | DelNew => th.cur in h && SawPresent(r, t, c, n, th.op.key, h[th.cur].value)
    case Retire | Scan | Sweep => th.after == Resume && th.next == NULL ==> SawAbsent(r, t, c, n, th.op.key)
    case _ => true
  }

  /** The record th is accounted for at moment n of a call made at step c. */
  ghost predicate Accounted(r: Run, t: nat, c: nat, n: nat, th: Thread, h: Heap)
    requires |r.states| == |r.events| + 1
  {
    if th.result == Pending
    then AllStill(r, t, c, n) && Known(r, t, c, n, th, h)
    else Settled(r, t, c, n, th.op, th.result)
  }

  ghost predicate Evidence(r: Run, t: nat, n: nat)
    requires |r.states| == |r.events| + 1 && n <= |r.events| && t < |r.states[n].threads|
  {
    var th := r.states[n].threads[t];
    var c := CallOf(r, t, n);
    th.pc != Idle ==>
      c < n && r.events[c] == Call(t, th.op) && Accounted(r, t, c, n, th, r.states[n].heap)
  }

  // ---------------------------------------------------------- single-step facts

  /** Only the insertion CAS and the marking CAS change the map. */
  lemma MapSteps(cfg: Config, s: State, e: Event)
    requires Inv(cfg, s) && Enabled(cfg, s, e)
    ensures var th := s.threads[e.t];
            || Abs(Step(cfg, s, e).heap) == Abs(s.heap)
            || (e.Go? && th.pc == CasInsert && CasHolds(s, th))
            || (e.Go? && th.pc == CasMark && MarkHolds(s, th))
  {
    if e.Call? {
      CallOk(cfg, s, e.t, e.op);
    } else if Writes(s.threads[e.t].pc) {
      match s.threads[e.t].pc
      case Help | CasUnlink =>
        if CasHolds(s, s.threads[e.t]) { UnlinkYes(cfg, s, e.t); } else { CasNo(cfg, s, e.t); }
      case LinkNew => LinkNewOk(cfg, s, e.t);
      case CasInsert => if !CasHolds(s, s.threads[e.t]) { CasNo(cfg, s, e.t); }
      case _ => CasMarkOk(cfg, s, e.t);
    } else {
      QuietOk(cfg, s, e);
    }
  }

  /** Reading an unmarked `next` of a published node: the node's key is in the map,
      and if there is no successor, nothing larger is. */
  lemma ReadNextSees(cfg: Config, s: State, t: nat)
    requires Inv(cfg, s) && t < |s.threads| && s.threads[t].pc == ReadNext
    ensures var th := s.threads[t];
            th.cur in s.heap && (!s.heap[th.cur].mark ==>
              && s.heap[th.cur].key in Abs(s.heap) && Abs(s.heap)[s.heap[th.cur].key] == s.heap[th.cur].value
              && (s.heap[th.cur].next == NULL && s.heap[th.cur].key < th.op.key ==> th.op.key !in Abs(s.heap)))
  {
    var th, h, l := s.threads[t], s.heap, Linked(s.heap);
    assert ThreadOk(cfg, h, l, th);
    if !h[th.cur].mark {
      AbsOf(h, l);
      if h[th.cur].next == NULL && h[th.cur].key < th.op.key {
        GapIsAbsent(h, l, th.cur, th.op.key);
      }
    }
  }

  /** Reading NULL from head_: the map is empty of every key. */
  lemma ReadStartSees(cfg: Config, s: State, t: nat)
    requires Inv(cfg, s) && t < |s.threads| && s.threads[t].pc == ReadStart
    requires Local1(cfg, s, s.threads[t]).cur == NULL
    ensures s.threads[t].op.key !in Abs(s.heap)
  {
    assert ThreadOk(cfg, s.heap, Linked(s.heap), s.threads[t]);
    GapIsAbsent(s.heap, Linked(s.heap), HEAD, s.threads[t].op.key);
  }

  /** The second test of *prev, with cur beyond the key: the key is absent. */
  lemma Check2Sees(cfg: Config, s: State, t: nat)
    requires Inv(cfg, s) && t < |s.threads| && s.threads[t].pc == Check2
    requires CasHolds(s, s.threads[t]) && s.threads[t].curKey > s.threads[t].op.key
    ensures s.threads[t].op.key !in Abs(s.heap)
  {
    var th := s.threads[t];
    assert ThreadOk(cfg, s.heap, Linked(s.heap), th);
    CasCell(cfg, s, t);
    assert Succ(s.heap, Linked(s.heap), th.prev.cell);
    GapIsAbsent(s.heap, Linked(s.heap), th.prev.cell, th.op.key);
  }

  /** Unlinking the last node of the list: nothing lies beyond *prev. */
  lemma HelpSees(cfg: Config, s: State, t: nat)
    requires Inv(cfg, s) && t < |s.threads| && s.threads[t].pc == Help
    requires CasHolds(s, s.threads[t]) && s.threads[t].next == NULL
    ensures s.threads[t].op.key !in Abs(s.heap)
  {
    var th, h, l := s.threads[t], s.heap, Linked(s.heap);
    assert ThreadOk(cfg, h, l, th);
    CasCell(cfg, s, t);
    UnlinkYes(cfg, s, t);
    var p := th.prev.cell;
    UnlinkNode(h, l, p, th.cur);
    UnlinkNodeAbs(h, l, p, th.cur);
    GapIsAbsent(SetNext(h, p, NULL), l - {th.cur}, p, th.op.key);
  }

  // ------------------------------------------------------ evidence is kept

  lemma OwnGrows(r: Run, t: nat, c: nat, n: nat)
    requires n < |r.events|
    ensures forall m: nat {:trigger Own(r, t, c, m, n + 1)} ::
              Own(r, t, c, m, n + 1) <==> Own(r, t, c, m, n) || (m == n && c < n && r.events[n].t == t)
  {
    forall m: nat
      ensures Own(r, t, c, m, n + 1) <==> Own(r, t, c, m, n) || (m == n && c < n && r.events[n].t == t)
    {
    }
  }

  lemma AbsentGrows(r: Run, t: nat, c: nat, n: nat, k: int)
    requires |r.states| == |r.events| + 1 && n < |r.events|
    requires SawAbsent(r, t, c, n, k) || (c < n && r.events[n].t == t && k !in MapAt(r, n))
    ensures SawAbsent(r, t, c, n + 1, k)
  {
    if SawAbsent(r, t, c, n, k) {
      var m :| Own(r, t, c, m, n) && k !in MapAt(r, m);
      assert Own(r, t, c, m, n + 1);
    } else {
      assert Own(r, t, c, n, n + 1);
    }
  }

  lemma PresentGrows(r: Run, t: nat, c: nat, n: nat, k: int, v: int)
    requires |r.states| == |r.events| + 1 && n < |r.events|
    requires SawPresent(r, t, c, n, k, v) || (c < n && r.events[n].t == t && k in MapAt(r, n) && MapAt(r, n)[k] == v)
    ensures SawPresent(r, t, c, n + 1, k, v)
  {
    if SawPresent(r, t, c, n, k, v) {
      var m :| Own(r, t, c, m, n) && k in MapAt(r, m) && MapAt(r, m)[k] == v;
      assert Own(r, t, c, m, n + 1);
    } else {
      assert Own(r, t, c, n, n + 1);
    }
  }

  /** A settled call stays settled while its further steps leave the map alone. */
  lemma SettledGrows(r: Run, t: nat, c: nat, n: nat, op: Op, res: Result)
    requires |r.states| == |r.events| + 1 && n < |r.events|
    requires Settled(r, t, c, n, op, res) && (r.events[n].t == t ==> Still(r, n))
    ensures Settled(r, t, c, n + 1, op, res)
  {
    var m :| Point(r, t, c, n, op, res, m);
    OwnGrows(r, t, c, n);
    assert Point(r, t, c, n + 1, op, res, m);
  }

  /** A call all of whose steps left the map alone settles at a step where it saw its result. */
  lemma SettleQuiet(r: Run, t: nat, c: nat, n: nat, op: Op, res: Result, m: nat)
    requires |r.states| == |r.events| + 1 && n <= |r.events|
    requires AllStill(r, t, c, n) && Own(r, t, c, m, n)
    requires SpecMap(op, MapAt(r, m)) == MapAt(r, m) && res == SpecResult(op, MapAt(r, m))
    ensures Settled(r, t, c, n, op, res)
  {
    assert Still(r, m);
    assert Point(r, t, c, n, op, res, m);
  }

  lemma SettleAbsent(r: Run, t: nat, c: nat, n: nat, op: Op)
    requires |r.states| == |r.events| + 1 && n <= |r.events|
    requires AllStill(r, t, c, n) && SawAbsent(r, t, c, n, op.key) && op.kind != Insert
    ensures Settled(r, t, c, n, op, Failed)
  {
    var m :| Own(r, t, c, m, n) && op.key !in MapAt(r, m);
    assert SpecMap(op, MapAt(r, m)) == MapAt(r, m);
    SettleQuiet(r, t, c, n, op, Failed, m);
  }

  lemma SettlePresent(r: Run, t: nat, c: nat, n: nat, op: Op, v: int)
    requires |r.states| == |r.events| + 1 && n <= |r.events|
    requires AllStill(r, t, c, n) && SawPresent(r, t, c, n, op.key, v) && op.kind != Remove
    ensures Settled(r, t, c, n, op, if op.kind == Insert then Failed else Found(v))
  {
    var m :| Own(r, t, c, m, n) && op.key in MapAt(r, m) && MapAt(r, m)[op.key] == v;
    SettleQuiet(r, t, c, n, op, if op.kind == Insert then Failed else Found(v), m);
  }

  /** A successful insertion or marking CAS settles its call on the spot. */
  lemma SettleNow(r: Run, t: nat, c: nat, n: nat, op: Op)
    requires |r.states| == |r.events| + 1 && n < |r.events|
    requires AllStill(r, t, c, n) && c < n && r.events[n].t == t && Takes(r, n, op, Done)
    ensures Settled(r, t, c, n + 1, op, Done)
  {
    OwnGrows(r, t, c, n);
    assert Point(r, t, c, n + 1, op, Done, n);
  }

  // -------------------------------------------------- one step of a thread in a call

  /** What the induction over the run supplies at moment n. */
  ghost predicate Ready(cfg: Config, r: Run, t: nat, n: nat) {
    && Follows(cfg, r, n) && Inv(cfg, r.states[n])
    && r.events[n].t == t && t < |r.states[n].threads| && !r.events[n].Call?
    && Evidence(r, t, n)
  }

  lemma StepThreads(cfg: Config, s: State, e: Event)
    requires Enabled(cfg, s, e)
    ensures |Step(cfg, s, e).threads| == |s.threads|
  {
  }

  lemma CallKept(cfg: Config, r: Run, t: nat, n: nat)
    requires Ready(cfg, r, t, n)
    ensures CallOf(r, t, n + 1) == CallOf(r, t, n)
    ensures r.states[n].threads[t].pc != Idle
    ensures r.states[n + 1] == Step(cfg, r.states[n], r.events[n])
    ensures |r.states[n + 1].threads| == |r.states[n].threads|
  {
    hide Linked, Abs, Inv, Evidence, Step;
    StepThreads(cfg, r.states[n], r.events[n]);
  }

  /** Steps after the call has settled. */
  lemma AfterSettled(cfg: Config, r: Run, t: nat, n: nat)
    requires Ready(cfg, r, t, n) && r.states[n].threads[t].result != Pending
    ensures t < |r.states[n + 1].threads| && Evidence(r, t, n + 1)
  {
    hide Linked, Abs, Step;
    CallKept(cfg, r, t, n);
    var s, th := r.states[n], r.states[n].threads[t];
    assert ThreadOk(cfg, s.heap, Linked(s.heap), th);
    MapSteps(cfg, s, r.events[n]);
    SettledGrows(r, t, CallOf(r, t, n), n, th.op, th.result);
    SettledKeeps(cfg, s, r.events[n]);
  }

  lemma SettledKeeps(cfg: Config, s: State, e: Event)
    requires Inv(cfg, s) && Enabled(cfg, s, e) && !e.Call? && s.threads[e.t].result != Pending
    ensures var th, th' := s.threads[e.t], Step(cfg, s, e).threads[e.t];
            th'.op == th.op && th'.result == th.result
  {
    hide Linked, Abs, HeapOk, Inv, StepGo;
    if e.Go? {
      SettledPlaces(cfg, s, e.t);
      SettledGo(cfg, s, e.t);
    }
  }

  /** The only calls that go on after their result is settled are removals. */
  predicate SettledPlace(th: Thread) {
    th.result != Pending ==>
      th.pc == Return || th.pc == Idle || (th.op.kind == Remove && th.result == Done && th.pc != CasMark)
  }

  lemma SettledPlaces(cfg: Config, s: State, t: nat)
    requires Inv(cfg, s) && t < |s.threads|
    ensures SettledPlace(s.threads[t])
    ensures s.threads[t].op.kind == Remove && s.threads[t].pc != Idle ==>
              s.threads[t].pc !in {ReadVal, DelNew, LinkNew, CasInsert}
  {
    hide Linked, Abs, HeapOk;
    assert ThreadOk(cfg, s.heap, Linked(s.heap), s.threads[t]);
  }

  lemma SettledGo(cfg: Config, s: State, t: nat)
    requires t < |s.threads| && s.threads[t].pc != Idle && s.threads[t].result != Pending
    requires SettledPlace(s.threads[t])
    requires s.threads[t].op.kind == Remove && s.threads[t].pc != Idle ==>
               s.threads[t].pc !in {ReadVal, DelNew, LinkNew, CasInsert}
    ensures var th, th' := s.threads[t], StepGo(cfg, s, t).threads[t];
            th'.op == th.op && th'.result == th.result
  {
  }

  // ------------------------------------------------ steps of a call still undecided

  /** A pending call whose step leaves the map alone. */
  ghost predicate Undecided(cfg: Config, r: Run, t: nat, n: nat) {
    && Ready(cfg, r, t, n) && r.states[n].threads[t].result == Pending
    && Still(r, n)
  }

  lemma StillOn(cfg: Config, r: Run, t: nat, n: nat)
    requires Undecided(cfg, r, t, n)
    ensures AllStill(r, t, CallOf(r, t, n), n + 1)
  {
    CallKept(cfg, r, t, n);
    OwnGrows(r, t, CallOf(r, t, n), n);
  }

  lemma NotFoundAccounted(r: Run, t: nat, c: nat, n: nat, th: Thread, h: Heap)
    requires |r.states| == |r.events| + 1 && n <= |r.events|
    requires AllStill(r, t, c, n) && th.result == Pending && SawAbsent(r, t, c, n, th.op.key)
    ensures Accounted(r, t, c, n, NotFound(th), h)
  {
    if th.op.kind != Insert {
      SettleAbsent(r, t, c, n, th.op);
    }
  }

  lemma LoopAccounted(r: Run, t: nat, c: nat, n: nat, th: Thread, cur: Ptr, h: Heap)
    requires |r.states| == |r.events| + 1 && n <= |r.events|
    requires AllStill(r, t, c, n) && th.result == Pending
    requires cur == NULL ==> SawAbsent(r, t, c, n, th.op.key)
    ensures Accounted(r, t, c, n, Loop(th, cur), h)
  {
    if cur == NULL {
      NotFoundAccounted(r, t, c, n, th.(cur := cur), h);
    }
  }

  lemma PendingStart(cfg: Config, r: Run, t: nat, n: nat)
    requires Undecided(cfg, r, t, n) && r.states[n].threads[t].pc == ReadStart
    ensures Accounted(r, t, CallOf(r, t, n), n + 1, Local1(cfg, r.states[n], r.states[n].threads[t]), r.states[n].heap)
  {
    var s, c := r.states[n], CallOf(r, t, n);
    var th := s.threads[t];
    StillOn(cfg, r, t, n);
    var cur := Load(s.heap, th, if th.op.start == NULL then At(HEAD) else Local).0;
    var prev := if th.op.start == NULL then At(HEAD) else Local;
    assert Local1(cfg, s, th) == Loop(th.(prev := prev), cur);
    if cur == NULL {
      ReadStartSees(cfg, s, t);
      AbsentGrows(r, t, c, n, th.op.key);
    }
    LoopAccounted(r, t, c, n + 1, th.(prev := prev), cur, s.heap);
  }

  lemma PendingRead(cfg: Config, r: Run, t: nat, n: nat)
    requires Undecided(cfg, r, t, n) && r.states[n].threads[t].pc in {SetHp, Check1, ReadNext, ReadKey}
    ensures Accounted(r, t, CallOf(r, t, n), n + 1, Local1(cfg, r.states[n], r.states[n].threads[t]), r.states[n].heap)
  {
    var s, c := r.states[n], CallOf(r, t, n);
    var th := s.threads[t];
    StillOn(cfg, r, t, n);
    if th.pc == ReadNext {
      ReadNextSees(cfg, s, t);
    }
    if th.pc == ReadKey || (th.pc == ReadNext && !s.heap[th.cur].mark) {
      PresentGrows(r, t, c, n, s.heap[th.cur].key, s.heap[th.cur].value);
      if Local1(cfg, s, th).next == NULL && s.heap[th.cur].key < th.op.key {
        AbsentGrows(r, t, c, n, th.op.key);
      }
    }
  }

  lemma PendingCheck2(cfg: Config, r: Run, t: nat, n: nat)
    requires Undecided(cfg, r, t, n) && r.states[n].threads[t].pc == Check2
    ensures Accounted(r, t, CallOf(r, t, n), n + 1, Local1(cfg, r.states[n], r.states[n].threads[t]), r.states[n].heap)
  {
    hide Linked, Abs, HeapOk, Own, Step;
    var s, c := r.states[n], CallOf(r, t, n);
    var th := s.threads[t];
    StillOn(cfg, r, t, n);
    assert ThreadOk(cfg, s.heap, Linked(s.heap), th);
    if CasHolds(s, th) {
      if th.curKey > th.op.key {
        Check2Sees(cfg, s, t);
        AbsentGrows(r, t, c, n, th.op.key);
        NotFoundAccounted(r, t, c, n + 1, th, s.heap);
      } else if th.curKey == th.op.key {
        PresentGrows(r, t, c, n, th.op.key, s.heap[th.cur].value);
      } else if th.next == NULL {
        AbsentGrows(r, t, c, n, th.op.key);
      }
    }
  }

  lemma PendingSwap(cfg: Config, r: Run, t: nat, n: nat)
    requires Undecided(cfg, r, t, n) && r.states[n].threads[t].pc in {Swap1, Swap2}
    ensures Accounted(r, t, CallOf(r, t, n), n + 1, Local1(cfg, r.states[n], r.states[n].threads[t]), r.states[n].heap)
  {
    var s, c := r.states[n], CallOf(r, t, n);
    var th := s.threads[t];
    StillOn(cfg, r, t, n);
    if th.next == NULL {
      AbsentGrows(r, t, c, n, th.op.key);
    }
    if th.pc == Swap2 {
      LoopAccounted(r, t, c, n + 1, th.(hp1 := th.temp), th.next, s.heap);
    } else if cfg.atomicSwap {
      LoopAccounted(r, t, c, n + 1, th.(temp := th.hp0, hp0 := th.hp1, hp1 := th.hp0), th.next, s.heap);
    }
  }

  lemma PendingReadVal(cfg: Config, r: Run, t: nat, n: nat)
    requires Undecided(cfg, r, t, n) && r.states[n].threads[t].pc == ReadVal
    ensures Accounted(r, t, CallOf(r, t, n), n + 1, Local1(cfg, r.states[n], r.states[n].threads[t]), r.states[n].heap)
  {
    hide Linked, Abs, HeapOk, Step;
    var s, c := r.states[n], CallOf(r, t, n);
    var th := s.threads[t];
    StillOn(cfg, r, t, n);
    assert ThreadOk(cfg, s.heap, Linked(s.heap), th);
    PresentGrows(r, t, c, n, th.op.key, s.heap[th.cur].value);
    SettlePresent(r, t, c, n + 1, th.op, s.heap[th.cur].value);
  }

  lemma PendingDelNew(cfg: Config, r: Run, t: nat, n: nat)
    requires Undecided(cfg, r, t, n) && r.states[n].threads[t].pc == DelNew
    ensures Settled(r, t, CallOf(r, t, n), n + 1, r.states[n].threads[t].op, Failed)
  {
    hide Linked, Abs, HeapOk, Step;
    var s, c := r.states[n], CallOf(r, t, n);
    var th := s.threads[t];
    StillOn(cfg, r, t, n);
    assert ThreadOk(cfg, s.heap, Linked(s.heap), th);
    PresentGrows(r, t, c, n, th.op.key, s.heap[th.cur].value);
    SettlePresent(r, t, c, n + 1, th.op, s.heap[th.cur].value);
  }

  lemma PendingHelp(cfg: Config, r: Run, t: nat, n: nat)
    requires Undecided(cfg, r, t, n) && r.states[n].threads[t].pc == Help
    ensures Accounted(r, t, CallOf(r, t, n), n + 1, r.states[n + 1].threads[t], r.states[n + 1].heap)
  {
    var s, c := r.states[n], CallOf(r, t, n);
    var th := s.threads[t];
    StillOn(cfg, r, t, n);
    CallKept(cfg, r, t, n);
    if CasHolds(s, th) && th.next == NULL {
      HelpSees(cfg, s, t);
      AbsentGrows(r, t, c, n, th.op.key);
    }
  }

  /** The moves of retireNode either stay inside it or return to the traversal. */
  ghost predicate RetireMove(th: Thread, th': Thread) {
    || (th'.pc in {Scan, Sweep} && th'.op == th.op && th'.after == th.after && th'.next == th.next &&
        th'.result == th.result)
    || th' == AfterRetire(th) || th' == AfterRetire(th.(retired := th.retired + {th.cur}))
  }

  lemma RetireMoves(cfg: Config, s: State, e: Event)
    requires Enabled(cfg, s, e) && !e.Call? && s.threads[e.t].pc in {Retire, Scan, Sweep}
    ensures Step(cfg, s, e).heap == s.heap && RetireMove(s.threads[e.t], Step(cfg, s, e).threads[e.t])
  {
  }

  lemma RetireAccounted(r: Run, t: nat, c: nat, n: nat, th: Thread, th': Thread, h: Heap)
    requires |r.states| == |r.events| + 1 && n <= |r.events|
    requires AllStill(r, t, c, n) && th.result == Pending && th.after == Resume && RetireMove(th, th')
    requires th.next == NULL ==> SawAbsent(r, t, c, n, th.op.key)
    ensures Accounted(r, t, c, n, th', h)
  {
    LoopAccounted(r, t, c, n, th, th.next, h);
    LoopAccounted(r, t, c, n, th.(retired := th.retired + {th.cur}), th.next, h);
  }

  lemma ResultIsOk(cfg: Config, s: State, t: nat)
    requires Inv(cfg, s) && t < |s.threads| && s.threads[t].pc != Idle
    ensures ResultOk(s.threads[t])
    ensures s.threads[t].pc in {Retire, Scan, Sweep} && s.threads[t].after == Finish ==> s.threads[t].op.kind == Remove
  {
    assert ThreadOk(cfg, s.heap, Linked(s.heap), s.threads[t]);
  }

  lemma RetireKnows(cfg: Config, r: Run, t: nat, n: nat)
    requires Undecided(cfg, r, t, n) && r.states[n].threads[t].pc in {Retire, Scan, Sweep}
    ensures var th := r.states[n].threads[t];
            th.after == Resume && (th.next == NULL ==> SawAbsent(r, t, CallOf(r, t, n), n + 1, th.op.key))
  {
    hide Linked, Abs, HeapOk, Step;
    var th := r.states[n].threads[t];
    ResultIsOk(cfg, r.states[n], t);
    if th.next == NULL {
      AbsentGrows(r, t, CallOf(r, t, n), n, th.op.key);
    }
  }

  lemma PendingRetire(cfg: Config, r: Run, t: nat, n: nat)
    requires Undecided(cfg, r, t, n) && r.states[n].threads[t].pc in {Retire, Scan, Sweep}
    ensures var s' := Step(cfg, r.states[n], r.events[n]);
            Accounted(r, t, CallOf(r, t, n), n + 1, s'.threads[t], s'.heap)
  {
    hide Linked, Abs, HeapOk, CallOf, Evidence;
    var s' := Step(cfg, r.states[n], r.events[n]);
    StillOn(cfg, r, t, n);
    RetireKnows(cfg, r, t, n);
    RetireMoves(cfg, r.states[n], r.events[n]);
    RetireAccounted(r, t, CallOf(r, t, n), n + 1, r.states[n].threads[t], s'.threads[t], s'.heap);
  }

  lemma PendingLinkNew(cfg: Config, r: Run, t: nat, n: nat)
    requires Undecided(cfg, r, t, n) && r.states[n].threads[t].pc == LinkNew
    ensures Accounted(r, t, CallOf(r, t, n), n + 1, r.states[n + 1].threads[t], r.states[n + 1].heap)
  {
    StillOn(cfg, r, t, n);
    CallKept(cfg, r, t, n);
  }

  lemma PendingCasInsert(cfg: Config, r: Run, t: nat, n: nat)
    requires Ready(cfg, r, t, n) && r.states[n].threads[t].pc == CasInsert
    ensures Accounted(r, t, CallOf(r, t, n), n + 1, r.states[n + 1].threads[t], r.states[n + 1].heap)
  {
    CallKept(cfg, r, t, n);
    var s, th := r.states[n], r.states[n].threads[t];
    assert ThreadOk(cfg, s.heap, Linked(s.heap), th);
    if CasHolds(s, th) {
      CasInsertYes(cfg, s, t);
      SettleNow(r, t, CallOf(r, t, n), n, th.op);
    } else {
      CasNo(cfg, s, t);
      StillOn(cfg, r, t, n);
    }
  }

  lemma PendingCasMark(cfg: Config, r: Run, t: nat, n: nat)
    requires Ready(cfg, r, t, n) && r.states[n].threads[t].pc == CasMark
    ensures Accounted(r, t, CallOf(r, t, n), n + 1, r.states[n + 1].threads[t], r.states[n + 1].heap)
  {
    CallKept(cfg, r, t, n);
    var s, th := r.states[n], r.states[n].threads[t];
    assert ThreadOk(cfg, s.heap, Linked(s.heap), th);
    CasMarkOk(cfg, s, t);
    if MarkHolds(s, th) {
      SettleNow(r, t, CallOf(r, t, n), n, th.op);
    } else {
      StillOn(cfg, r, t, n);
    }
  }

  // --------------------------------------------------------- the whole induction

  lemma PendingOp(cfg: Config, s: State, e: Event)
    requires Enabled(cfg, s, e) && !e.Call? && s.threads[e.t].pc != Return
    ensures Step(cfg, s, e).threads[e.t].op == s.threads[e.t].op && Step(cfg, s, e).threads[e.t].pc != Idle
  {
    hide Linked, Abs, HeapOk;
  }

  lemma PendingStep(cfg: Config, r: Run, t: nat, n: nat)
    requires Ready(cfg, r, t, n) && r.states[n].threads[t].result == Pending
    ensures t < |r.states[n + 1].threads| && Evidence(r, t, n + 1)
  {
    CallKept(cfg, r, t, n);
    var s, th := r.states[n], r.states[n].threads[t];
    assert th.pc != Return && th.pc != CasUnlink by {
      assert ThreadOk(cfg, s.heap, Linked(s.heap), th);
    }
    PendingOp(cfg, s, r.events[n]);
    MapSteps(cfg, s, r.events[n]);
    assert Accounted(r, t, CallOf(r, t, n), n + 1, r.states[n + 1].threads[t], r.states[n + 1].heap) by {
      match th.pc
      case ReadStart => PendingStart(cfg, r, t, n);
      case SetHp | Check1 | ReadNext | ReadKey => PendingRead(cfg, r, t, n);
      case Check2 => PendingCheck2(cfg, r, t, n);
      case Swap1 | Swap2 => PendingSwap(cfg, r, t, n);
      case ReadVal => PendingReadVal(cfg, r, t, n);
      case DelNew => PendingDelNew(cfg, r, t, n);
      case Help => PendingHelp(cfg, r, t, n);
      case Retire | Scan | Sweep => PendingRetire(cfg, r, t, n);
      case LinkNew => PendingLinkNew(cfg, r, t, n);
      case CasInsert => PendingCasInsert(cfg, r, t, n);
      case CasMark => PendingCasMark(cfg, r, t, n);
      case _ =>
    }
  }

  /** A step of another thread changes nothing for this one. */
  lemma OtherStep(cfg: Config, r: Run, t: nat, n: nat)
    requires Follows(cfg, r, n) && Inv(cfg, r.states[n]) && t < |r.states[n].threads|
    requires r.events[n].t != t && Evidence(r, t, n)
    ensures t < |r.states[n + 1].threads| && Evidence(r, t, n + 1)
  {
    var s, c := r.states[n], CallOf(r, t, n);
    var th := s.threads[t];
    var e := r.events[n];
    assert r.states[n + 1] == Step(cfg, s, e);
    assert r.states[n + 1].threads[t] == th && CallOf(r, t, n + 1) == c;
    if th.pc != Idle {
      OwnGrows(r, t, c, n);
      if th.result == Pending {
        KnownKept(cfg, r, t, n);
      } else {
        SettledGrows(r, t, c, n, th.op, th.result);
      }
    }
  }

  lemma KnownKept(cfg: Config, r: Run, t: nat, n: nat)
    requires Follows(cfg, r, n) && Inv(cfg, r.states[n]) && t < |r.states[n].threads|
    requires r.events[n].t != t && r.states[n].threads[t].pc != Idle
    requires Known(r, t, CallOf(r, t, n), n, r.states[n].threads[t], r.states[n].heap)
    ensures Known(r, t, CallOf(r, t, n), n + 1, r.states[n].threads[t], r.states[n + 1].heap)
  {
    var s, c := r.states[n], CallOf(r, t, n);
    var th := s.threads[t];
    CellsKept(cfg, s, r.events[n]);
    if SawAbsent(r, t, c, n, th.op.key) {
      AbsentGrows(r, t, c, n, th.op.key);
    }
    if th.pc in {ReadKey, Check2} {
      PresentGrows(r, t, c, n, s.heap[th.cur].key, s.heap[th.cur].value);
    } else if th.pc in {ReadVal, DelNew} {
      PresentGrows(r, t, c, n, th.op.key, s.heap[th.cur].value);
    }
  }

  /** No step changes the key or value of a cell, or removes one. */
  lemma CellsKept(cfg: Config, s: State, e: Event)
    requires Inv(cfg, s) && Enabled(cfg, s, e)
    ensures forall p :: p in s.heap ==>
              p in Step(cfg, s, e).heap && Step(cfg, s, e).heap[p].key == s.heap[p].key
              && Step(cfg, s, e).heap[p].value == s.heap[p].value
  {
  }

  lemma OwnStep(cfg: Config, r: Run, t: nat, n: nat)
    requires Follows(cfg, r, n) && Inv(cfg, r.states[n]) && t < |r.states[n].threads|
    requires r.events[n].t == t && Evidence(r, t, n)
    ensures t < |r.states[n + 1].threads| && Evidence(r, t, n + 1)
  {
    if r.events[n].Call? {
      assert r.states[n + 1] == StepCall(r.states[n], t, r.events[n].op);
    } else if r.states[n].threads[t].result == Pending {
      PendingStep(cfg, r, t, n);
    } else {
      AfterSettled(cfg, r, t, n);
    }
  }

  lemma {:induction false} EvidenceRun(cfg: Config, r: Run, t: nat, n: nat)
    requires ValidRun(cfg, r) && n <= |r.events| && t < cfg.threads
    ensures |r.states[n].threads| == cfg.threads && Evidence(r, t, n)
    decreases n
  {
    if n == 0 {
      assert r.states[0].threads[t].pc == Idle;
    } else {
      EvidenceRun(cfg, r, t, n - 1);
      InvRun(cfg, r, n - 1);
      assert Follows(cfg, r, n - 1);
      if r.events[n - 1].t == t {
        OwnStep(cfg, r, t, n - 1);
      } else {
        OtherStep(cfg, r, t, n - 1);
      }
      StepThreads(cfg, r.states[n - 1], r.events[n - 1]);
    }
  }

  // -------------------------------------------------------------- linearizability

  ghost predicate IsCall(r: Run, c: nat) {
    c < |r.events| && r.events[c].Call?
  }

  /** Step n hands a result back to the caller of the call made at step c. */
  ghost predicate Returns(r: Run, n: nat, c: nat) {
    && n < |r.events| < |r.states| && r.events[n].t < |r.states[n].threads|
    && r.events[n].Go? && r.states[n].threads[r.events[n].t].pc == Return
    && c == CallOf(r, r.events[n].t, n)
  }

  ghost function ResultAt(r: Run, n: nat, t: nat): Result
    requires n < |r.states| && t < |r.states[n].threads|
  {
    r.states[n].threads[t].result
  }

  /** Step m is the point of a call. */
  ghost predicate IsPoint(lp: map<nat, nat>, m: nat) {
    exists c :: c in lp && lp[c] == m
  }

  ghost function CallAt(lp: map<nat, nat>, m: nat): (c: nat)
    requires IsPoint(lp, m)
    ensures c in lp && lp[c] == m
  {
    var c :| c in lp && lp[c] == m;
    c
  }

  /** Execute, one at a time and in the order of their points, the calls whose
      points lie before n, on an empty map. */
  ghost function Replay(r: Run, lp: map<nat, nat>, n: nat): map<int, int> {
    if n == 0 then map[]
    else if IsPoint(lp, n - 1) && IsCall(r, CallAt(lp, n - 1)) then
      SpecMap(r.events[CallAt(lp, n - 1)].op, Replay(r, lp, n - 1))
    else Replay(r, lp, n - 1)
  }

  /** `lp` gives each call that took effect a step of its own, after the call, by
      the calling thread, and before that thread's return or next call; every call
      that returned is there, with the result the sequential execution gives it. */
  ghost predicate Linearizes(r: Run, lp: map<nat, nat>) {
    && (forall c :: c in lp ==>
          IsCall(r, c) && c < lp[c] < |r.events| && r.events[lp[c]].t == r.events[c].t
          && CallOf(r, r.events[c].t, lp[c]) == c)
    && (forall c, d :: c in lp && d in lp && lp[c] == lp[d] ==> c == d)
    && (forall n: nat, c: nat :: Returns(r, n, c) ==>
          && c in lp && lp[c] < n && IsCall(r, c)
          && ResultAt(r, n, r.events[n].t) == SpecResult(r.events[c].op, Replay(r, lp, lp[c])))
  }

  /** At moment n thread t is about to return. */
  ghost predicate Leaves(r: Run, t: nat, n: nat) {
    && n < |r.events| < |r.states| && t < |r.states[n].threads|
    && r.events[n].t == t && r.states[n].threads[t].pc == Return
  }

  /** The moment at which the call that t is in at n returns, or the end of the run. */
  ghost function EndOf(r: Run, t: nat, n: nat): nat
    requires n <= |r.events|
    decreases |r.events| - n
  {
    if n == |r.events| || Leaves(r, t, n) then n else EndOf(r, t, n + 1)
  }

  lemma {:induction false} EndPast(r: Run, t: nat, a: nat, k: nat)
    requires a <= k < |r.events| && EndOf(r, t, a) >= k && !Leaves(r, t, k)
    ensures EndOf(r, t, a) >= k + 1
    decreases k - a
  {
    if a < k {
      EndPast(r, t, a + 1, k);
    } else {
      EndBounds(r, t, k + 1);
    }
  }

  lemma {:induction false} EndBounds(r: Run, t: nat, a: nat)
    requires a <= |r.events|
    ensures a <= EndOf(r, t, a) <= |r.events|
    ensures EndOf(r, t, a) < |r.events| ==> Leaves(r, t, EndOf(r, t, a))
    ensures forall n :: a <= n < EndOf(r, t, a) ==> !Leaves(r, t, n)
    decreases |r.events| - a
  {
    if a < |r.events| && !Leaves(r, t, a) {
      EndBounds(r, t, a + 1);
    }
  }

  /** Moving one step on within a call. */
  lemma StaysInCall(cfg: Config, r: Run, t: nat, n: nat)
    requires Follows(cfg, r, n) && t < |r.states[n].threads|
    requires r.states[n].threads[t].pc != Idle && !Leaves(r, t, n)
    ensures t < |r.states[n + 1].threads| && r.states[n + 1].threads[t].pc != Idle
    ensures CallOf(r, t, n + 1) == CallOf(r, t, n)
  {
    StepThreads(cfg, r.states[n], r.events[n]);
    if r.events[n].t == t {
      PendingOp(cfg, r.states[n], r.events[n]);
    }
  }

  /** From its call to its return a thread is in that one call. */
  lemma {:induction false} WithinCall(cfg: Config, r: Run, c: nat, n: nat)
    requires ValidRun(cfg, r) && IsCall(r, c) && c < n <= EndOf(r, r.events[c].t, c + 1)
    ensures n <= |r.events| && |r.states[n].threads| == cfg.threads && r.events[c].t < cfg.threads
    ensures r.states[n].threads[r.events[c].t].pc != Idle && CallOf(r, r.events[c].t, n) == c
    decreases n
  {
    hide Linked, Abs, Evidence, Inv, EndOf;
    var t := r.events[c].t;
    EndBounds(r, t, c + 1);
    assert Follows(cfg, r, c);
    EvidenceRun(cfg, r, t, c) by { InvRun(cfg, r, c); }
    if n == c + 1 {
      StepThreads(cfg, r.states[c], r.events[c]);
    } else {
      WithinCall(cfg, r, c, n - 1);
      assert Follows(cfg, r, n - 1);
      StaysInCall(cfg, r, t, n - 1);
      StepThreads(cfg, r.states[n - 1], r.events[n - 1]);
    }
  }

  /** A thread that is not idle is between a call and that call's end. */
  lemma {:induction false} CallReaches(cfg: Config, r: Run, t: nat, m: nat)
    requires ValidRun(cfg, r) && m <= |r.events| && t < cfg.threads
    requires |r.states[m].threads| == cfg.threads && r.states[m].threads[t].pc != Idle
    ensures var c := CallOf(r, t, m);
            c < m && IsCall(r, c) && r.events[c].t == t && EndOf(r, t, c + 1) >= m
    decreases m
  {
    hide Step, Enabled;
    hide Accounted, Inv, Linked, Abs;
    if m > 0 {
      assert Follows(cfg, r, m - 1);
      EvidenceRun(cfg, r, t, m - 1);
      if r.events[m - 1].Call? && r.events[m - 1].t == t {
        EndBounds(r, t, m);
      } else {
        BeforeStep(cfg, r.states[m - 1], r.events[m - 1], t);
        CallReaches(cfg, r, t, m - 1);
        EndPast(r, t, CallOf(r, t, m - 1) + 1, m - 1);
      }
    }
  }

  lemma BeforeStep(cfg: Config, s: State, e: Event, t: nat)
    requires Enabled(cfg, s, e) && t < |s.threads| && !(e.Call? && e.t == t)
    requires Step(cfg, s, e).threads[t].pc != Idle
    ensures s.threads[t].pc != Idle && (e.t == t ==> s.threads[t].pc != Return)
  {
  }

  // The linearization points.

  ghost predicate HasPoint(r: Run, c: nat) {
    && |r.states| == |r.events| + 1 && IsCall(r, c)
    && var t := r.events[c].t;
       var n := EndOf(r, t, c + 1);
       && n < |r.states| && t < |r.states[n].threads|
       && r.states[n].threads[t].result != Pending
       && Settled(r, t, c, n, r.events[c].op, r.states[n].threads[t].result)
  }

  ghost function PointOf(r: Run, c: nat): (m: nat)
    requires HasPoint(r, c)
    ensures var t := r.events[c].t;
            var n := EndOf(r, t, c + 1);
            Point(r, t, c, n, r.events[c].op, r.states[n].threads[t].result, m)
  {
    var t := r.events[c].t;
    var n := EndOf(r, t, c + 1);
    var m :| Point(r, t, c, n, r.events[c].op, r.states[n].threads[t].result, m);
    m
  }

  ghost function Points(r: Run): map<nat, nat> {
    map c: nat | 0 <= c < |r.events| && HasPoint(r, c) :: PointOf(r, c)
  }

  lemma InPoints(r: Run, c: nat)
    requires c in Points(r)
    ensures HasPoint(r, c) && Points(r)[c] == PointOf(r, c)
  {
  }

  lemma PointTakes(r: Run, t: nat, c: nat, n: nat, op: Op, res: Result, m: nat)
    requires |r.states| == |r.events| + 1 && Point(r, t, c, n, op, res, m)
    ensures c < m < n <= |r.events| && r.events[m].t == t
    ensures MapAt(r, m + 1) == SpecMap(op, MapAt(r, m)) && res == SpecResult(op, MapAt(r, m))
  {
  }

  lemma PointFacts(r: Run, c: nat)
    requires c in Points(r)
    ensures |r.states| == |r.events| + 1 && IsCall(r, c)
    ensures var m, t := Points(r)[c], r.events[c].t;
            && c < m < |r.events| && m < EndOf(r, t, c + 1) && r.events[m].t == t
            && MapAt(r, m + 1) == SpecMap(r.events[c].op, MapAt(r, m))
  {
    hide Abs, Linked, Point, SpecMap, SpecResult;
    InPoints(r, c);
    var t := r.events[c].t;
    var n := EndOf(r, t, c + 1);
    PointTakes(r, t, c, n, r.events[c].op, r.states[n].threads[t].result, PointOf(r, c));
  }

  /** A call's point lies within the call. */
  lemma PointWithin(cfg: Config, r: Run, c: nat)
    requires ValidRun(cfg, r) && c in Points(r)
    ensures IsCall(r, c) && c < Points(r)[c] < |r.events| && r.events[Points(r)[c]].t == r.events[c].t
    ensures CallOf(r, r.events[c].t, Points(r)[c]) == c
  {
    PointFacts(r, c);
    WithinCall(cfg, r, c, Points(r)[c]);
  }

  /** A step that is no call's point leaves the map alone. */
  lemma NoPointStill(cfg: Config, r: Run, m: nat)
    requires ValidRun(cfg, r) && m < |r.events|
    requires forall c :: c in Points(r) ==> Points(r)[c] != m
    ensures Still(r, m)
  {
    hide Linked, Abs, Step, HeapOk, CallOf, Inv;
    var e, s := r.events[m], r.states[m];
    assert Follows(cfg, r, m);
    InvRun(cfg, r, m);
    if e.Call? || s.threads[e.t].pc == Return {
      MapSteps(cfg, s, e);
    } else {
      EvidenceRun(cfg, r, 0, m) by { EnoughThreads(cfg, r, m); }
      CallReaches(cfg, r, e.t, m);
      var c := CallOf(r, e.t, m);
      EndPast(r, e.t, c + 1, m);
      StillWithin(cfg, r, c, m);
    }
  }

  /** Of a thread's own steps in a call, each one leaves the map alone, or all but the
      call's point do. */
  lemma EvidenceStill(r: Run, t: nat, c: nat, n: nat, m: nat)
    requires |r.states| == |r.events| + 1 && n <= |r.events| && t < |r.states[n].threads|
    requires r.states[n].threads[t].pc != Idle && Evidence(r, t, n) && CallOf(r, t, n) == c && Own(r, t, c, m, n)
    ensures var th := r.states[n].threads[t];
            && r.events[c] == Call(t, th.op)
            && (if th.result == Pending then Still(r, m) else Settled(r, t, c, n, th.op, th.result))
  {
    hide Known, Still, Settled, CallOf;
  }

  lemma AllButPoint(r: Run, c: nat, m: nat)
    requires HasPoint(r, c) && m != PointOf(r, c)
    requires Own(r, r.events[c].t, c, m, EndOf(r, r.events[c].t, c + 1))
    ensures Still(r, m)
  {
    hide EndOf, Still, Takes;
  }

  /** Within a call, a step of its thread that is not its point leaves the map alone. */
  lemma StillWithin(cfg: Config, r: Run, c: nat, m: nat)
    requires ValidRun(cfg, r) && IsCall(r, c) && c < m < EndOf(r, r.events[c].t, c + 1)
    requires m < |r.events| && r.events[m].t == r.events[c].t
    requires c in Points(r) ==> Points(r)[c] != m
    ensures Still(r, m)
  {
    hide Linked, Abs, Step, HeapOk, CallOf, Inv, Evidence, Still, Settled, Enabled, EndOf;
    var t := r.events[c].t;
    var n := EndOf(r, t, c + 1);
    EndBounds(r, t, c + 1);
    WithinCall(cfg, r, c, n);
    EvidenceRun(cfg, r, t, n);
    EvidenceStill(r, t, c, n, m);
    if r.states[n].threads[t].result != Pending {
      assert HasPoint(r, c);
      AllButPoint(r, c, m);
    }
  }

  lemma EnoughThreads(cfg: Config, r: Run, m: nat)
    requires ValidRun(cfg, r) && m < |r.events| && Inv(cfg, r.states[m])
    ensures 0 < cfg.threads
  {
    assert Follows(cfg, r, m);
  }

  /** Two calls never share a point. */
  lemma PointsDiffer(cfg: Config, r: Run, c: nat, d: nat)
    requires ValidRun(cfg, r) && c in Points(r) && d in Points(r) && Points(r)[c] == Points(r)[d]
    ensures c == d
  {
    PointWithin(cfg, r, c);
    PointWithin(cfg, r, d);
  }

  /** At its point each call does to the map what the sequential call does. */
  ghost predicate PointsTake(r: Run, lp: map<nat, nat>)
    requires |r.states| == |r.events| + 1
  {
    forall c :: c in lp ==>
      IsCall(r, c) && lp[c] < |r.events| && MapAt(r, lp[c] + 1) == SpecMap(r.events[c].op, MapAt(r, lp[c]))
  }

  /** Between the points nothing happens to the map. */
  ghost predicate OthersStill(r: Run, lp: map<nat, nat>)
    requires |r.states| == |r.events| + 1
  {
    forall m: nat {:trigger IsPoint(lp, m)} :: m < |r.events| && !IsPoint(lp, m) ==> MapAt(r, m + 1) == MapAt(r, m)
  }

  /** Then the abstract map is, at every moment, the outcome of the sequential execution. */
  lemma {:induction false} ReplayIsMap(r: Run, lp: map<nat, nat>, n: nat)
    requires |r.states| == |r.events| + 1 && n <= |r.events| && PointsTake(r, lp) && OthersStill(r, lp)
    requires MapAt(r, 0) == map[]
    ensures Replay(r, lp, n) == MapAt(r, n)
    decreases n
  {
    hide Abs;
    if n > 0 {
      ReplayIsMap(r, lp, n - 1);
      if IsPoint(lp, n - 1) {
        var c := CallAt(lp, n - 1);
        assert MapAt(r, lp[c] + 1) == SpecMap(r.events[c].op, MapAt(r, lp[c]));
      }
    }
  }

  lemma PointsArePoints(cfg: Config, r: Run)
    requires ValidRun(cfg, r)
    ensures PointsTake(r, Points(r)) && OthersStill(r, Points(r))
  {
    forall c | c in Points(r)
      ensures IsCall(r, c) && Points(r)[c] < |r.events|
      ensures MapAt(r, Points(r)[c] + 1) == SpecMap(r.events[c].op, MapAt(r, Points(r)[c]))
    {
      PointFacts(r, c);
    }
    forall m: nat | m < |r.events| && !IsPoint(Points(r), m)
      ensures MapAt(r, m + 1) == MapAt(r, m)
    {
      NoPointStill(cfg, r, m);
    }
  }

  /** A thread about to return has a settled result. */
  lemma ReturnSettled(cfg: Config, r: Run, t: nat, n: nat)
    requires |r.states| == |r.events| + 1 && n <= |r.events| && Inv(cfg, r.states[n])
    requires t < |r.states[n].threads| && r.states[n].threads[t].pc == Return && Evidence(r, t, n)
    ensures var c, res := CallOf(r, t, n), r.states[n].threads[t].result;
            c < n && res != Pending && r.events[c].Call? && Settled(r, t, c, n, r.events[c].op, res)
  {
    hide Linked, Abs, Inv, CallOf, Settled;
    ResultIsOk(cfg, r.states[n], t);
  }

  /** A return is the end of the call it answers, and that call has a point. */
  lemma ReturnEnds(cfg: Config, r: Run, n: nat, c: nat)
    requires ValidRun(cfg, r) && Returns(r, n, c)
    ensures HasPoint(r, c) && r.events[c].t == r.events[n].t && EndOf(r, r.events[n].t, c + 1) == n
  {
    hide Linked, Abs, Step, Inv, Evidence, EndOf, CallOf, Settled;
    var t := r.events[n].t;
    assert Follows(cfg, r, n);
    InvRun(cfg, r, n);
    EvidenceRun(cfg, r, t, n) by { EnoughThreads(cfg, r, n); }
    CallReaches(cfg, r, t, n);
    EndBounds(r, t, c + 1);
    assert Leaves(r, t, n);
    ReturnSettled(cfg, r, t, n);
  }

  /** A call that returned has a point before its return, where its result is right. */
  lemma ReturnHasPoint(cfg: Config, r: Run, n: nat, c: nat)
    requires ValidRun(cfg, r) && Returns(r, n, c)
    ensures c in Points(r) && Points(r)[c] < n && IsCall(r, c)
    ensures ResultAt(r, n, r.events[n].t) == SpecResult(r.events[c].op, MapAt(r, Points(r)[c]))
  {
    hide Linked, Abs, Step, Inv, Enabled, CallOf, EndOf, Point;
    ReturnEnds(cfg, r, n, c);
    var t := r.events[n].t;
    PointTakes(r, t, c, n, r.events[c].op, ResultAt(r, n, t), PointOf(r, c));
  }

  /** Every run of any number of threads is linearizable, and the reachable unmarked
      nodes are at every moment what the linearized calls before it produce. */
  lemma Linearizability(cfg: Config, r: Run)
    requires ValidRun(cfg, r)
    ensures exists lp ::
              Linearizes(r, lp) && forall n: nat :: n <= |r.events| ==> Abs(r.states[n].heap) == Replay(r, lp, n)
  {
    var lp := Points(r);
    PointsArePoints(cfg, r);
    InvInit(cfg, r.states[0]);
    forall c | c in lp
      ensures IsCall(r, c) && c < lp[c] < |r.events| && r.events[lp[c]].t == r.events[c].t &&
              CallOf(r, r.events[c].t, lp[c]) == c
    {
      PointWithin(cfg, r, c);
    }
    forall c, d | c in lp && d in lp && lp[c] == lp[d]
      ensures c == d
    {
      PointsDiffer(cfg, r, c, d);
    }
    forall n: nat, c: nat | Returns(r, n, c)
      ensures c in lp && lp[c] < n && IsCall(r, c)
      ensures ResultAt(r, n, r.events[n].t) == SpecResult(r.events[c].op, Replay(r, lp, lp[c]))
    {
      ReturnHasPoint(cfg, r, n, c);
      ReplayIsMap(r, lp, lp[c]);
    }
    forall n: nat | n <= |r.events|
      ensures Abs(r.states[n].heap) == Replay(r, lp, n)
    {
      ReplayIsMap(r, lp, n);
    }
    assert Linearizes(r, lp);
  }
}
