/**
  What a walk through the list looks at: every answer rests on a second look at *prev,
  and a call with a start node never goes back before it.
 */
module ListWalk {
  import opened ListInvariant
  import opened ListMachine
  import opened ListReclamation
  import opened ListShape

  // ------------------------------------------------------------- looking twice

  /** The thread has settled on cur as the node that has the key, or the first beyond it. */
  predicate Decided(th: Thread) {
    th.pc in {ReadVal, DelNew, CasMark, CasUnlink} || (th.pc in {LinkNew, CasInsert} && th.cur != NULL)
  }

  /** At step w thread t, knowing cur's key, finds cur still behind *prev. */
  ghost predicate Rechecks(r: Run, w: nat, t: nat, prev: Loc, cur: Ptr) {
    && w < |r.events| < |r.states| && t < |r.states[w].threads| && r.events[w] == Go(t)
    && r.states[w].threads[t].pc == Check2
    && r.states[w].threads[t].prev == prev && r.states[w].threads[t].cur == cur
    && CasHolds(r.states[w], r.states[w].threads[t])
  }

  lemma DecidedFrom(cfg: Config, s: State, e: Event)
    requires Enabled(cfg, s, e) && Decided(Step(cfg, s, e).threads[e.t])
    ensures var th, th' := s.threads[e.t], Step(cfg, s, e).threads[e.t];
            && th'.prev == th.prev && th'.cur == th.cur && th.pc !in {Help, CasInsert, CasUnlink}
            && (Decided(th) || (e.Go? && th.pc == Check2 && CasHolds(s, th)))
  {
    hide StepGo, Legal;
    if e.Go? {
      if s.threads[e.t].pc in {Retire, Scan, Sweep} {
        RetireUndecided(cfg, s, e.t);
      } else {
        DecidedGo(cfg, s, e.t);
      }
    }
  }

  lemma RetireUndecided(cfg: Config, s: State, t: nat)
    requires t < |s.threads| && s.threads[t].pc in {Retire, Scan, Sweep}
    ensures !Decided(StepGo(cfg, s, t).threads[t])
  {
  }

  lemma DecidedGo(cfg: Config, s: State, t: nat)
    requires t < |s.threads| && s.threads[t].pc !in {Idle, Retire, Scan, Sweep}
    requires Decided(StepGo(cfg, s, t).threads[t])
    ensures var th, th' := s.threads[t], StepGo(cfg, s, t).threads[t];
            && th'.prev == th.prev && th'.cur == th.cur && th.pc !in {Help, CasInsert, CasUnlink}
            && (Decided(th) || (th.pc == Check2 && CasHolds(s, th)))
  {
    hide CasHolds, Load, Local1, StepScan, StepRetire, AfterRetire;
    if !Writes(s.threads[t].pc) && s.threads[t].pc != DelNew {
      DecidedLocal(cfg, s, s.threads[t]);
    }
  }

  lemma DecidedLocal(cfg: Config, s: State, th: Thread)
    requires th.pc !in {Idle, Retire, Scan, Sweep, DelNew} && !Writes(th.pc) && Decided(Local1(cfg, s, th))
    ensures var th' := Local1(cfg, s, th);
            && th'.prev == th.prev && th'.cur == th.cur
            && (Decided(th) || (th.pc == Check2 && CasHolds(s, th)))
  {
    hide CasHolds, Load;
  }

  lemma {:induction false} DecidedSince(cfg: Config, r: Run, i: nat, t: nat) returns (w: nat)
    requires ValidRun(cfg, r) && i < |r.states| && t < |r.states[i].threads| && Decided(r.states[i].threads[t])
    ensures w < i && Rechecks(r, w, t, r.states[i].threads[t].prev, r.states[i].threads[t].cur)
    ensures NoCasSince(r, w, i, t, false)
    decreases i
  {
    hide Step, Enabled, CasHolds, Decided;
    assert i > 0 by { NobodyDecided(cfg, r, i, t); }
    assert Follows(cfg, r, i - 1);
    var s, e := r.states[i - 1], r.events[i - 1];
    CustodyFrame(cfg, s, e);
    if e.t == t {
      DecidedFrom(cfg, s, e);
      if !Decided(s.threads[t]) {
        w := i - 1;
        return;
      }
    }
    w := DecidedSince(cfg, r, i - 1, t);
  }

  lemma NobodyDecided(cfg: Config, r: Run, i: nat, t: nat)
    requires ValidRun(cfg, r) && i < |r.states| && t < |r.states[i].threads| && Decided(r.states[i].threads[t])
    ensures i > 0
  {
  }

  /** No call finds its key, marks or inserts before a node unless it saw that node
      behind *prev again after reading its key, and since then tried no
      compare-and-swap on *prev. */
  lemma LooksTwice(cfg: Config, r: Run, i: nat, t: nat)
    requires ValidRun(cfg, r) && i < |r.states| && t < |r.states[i].threads| && Decided(r.states[i].threads[t])
    ensures var th := r.states[i].threads[t];
            exists w: nat :: w < i && Rechecks(r, w, t, th.prev, th.cur) && NoCasSince(r, w, i, t, false)
  {
    hide Rechecks, NoCasSince;
    var w := DecidedSince(cfg, r, i, t);
  }

  // ---------------------------------------------------------- from the start node on

  /** The walk stands at its start node or beyond. */
  ghost predicate FromStart(h: Heap, th: Thread) {
    th.op.start != NULL && th.pc !in {Idle, ReadStart, Return} ==>
      && th.op.start in h
      && (th.prev.Local? || (th.prev.cell != HEAD && th.prev.cell in h && h[th.prev.cell].key >= h[th.op.start].key))
  }

  ghost predicate AllFromStart(s: State) {
    forall t {:trigger s.threads[t]} :: 0 <= t < |s.threads| ==> FromStart(s.heap, s.threads[t])
  }

  lemma KeysStay(cfg: Config, s: State, e: Event)
    requires Inv(cfg, s) && Enabled(cfg, s, e)
    ensures forall n :: n in s.heap ==> n in Step(cfg, s, e).heap && Step(cfg, s, e).heap[n].key == s.heap[n].key
  {
    hide Linked, HeapOk, Inv, Enabled, Step;
    StepGrows(cfg, s, e);
  }

  lemma PrevLocal(cfg: Config, s: State, th: Thread)
    requires th.pc !in {Idle, ReadStart, Retire, Scan, Sweep, DelNew, Return} && !Writes(th.pc)
    ensures var th' := Local1(cfg, s, th);
            && th'.op == th.op && th'.pc != Idle
            && (th'.prev == th.prev || (th.pc == Check2 && CasHolds(s, th) && th'.prev == At(th.cur)))
  {
    hide CasHolds, Load;
  }

  lemma PrevRetire(cfg: Config, s: State, e: Event)
    requires Enabled(cfg, s, e) && !e.Call? && s.threads[e.t].pc in {Retire, Scan, Sweep}
    ensures var th, th' := s.threads[e.t], Step(cfg, s, e).threads[e.t];
            th'.op == th.op && th'.pc != Idle && th'.prev == th.prev
  {
  }

  /** The only step that moves *prev on goes to a node that lies behind it. */
  lemma PrevMoves(cfg: Config, s: State, e: Event)
    requires Enabled(cfg, s, e) && !e.Call? && s.threads[e.t].pc !in {ReadStart, Return}
    ensures var th, th' := s.threads[e.t], Step(cfg, s, e).threads[e.t];
            && th'.op == th.op && th'.pc != Idle
            && (th'.prev == th.prev || (th.pc == Check2 && CasHolds(s, th) && th'.prev == At(th.cur)))
  {
    hide CasHolds, Load, Legal, Local1, StepScan, StepRetire, AfterRetire, StepDrop;
    var pc := s.threads[e.t].pc;
    if pc in {Retire, Scan, Sweep} {
      PrevRetire(cfg, s, e);
    } else if !Writes(pc) && pc != DelNew {
      PrevLocal(cfg, s, s.threads[e.t]);
    }
  }

  lemma FromStartOwn(cfg: Config, s: State, e: Event)
    requires Inv(cfg, s) && Enabled(cfg, s, e) && FromStart(s.heap, s.threads[e.t])
    ensures FromStart(Step(cfg, s, e).heap, Step(cfg, s, e).threads[e.t])
  {
    hide Linked, HeapOk, Step;
    var th, s' := s.threads[e.t], Step(cfg, s, e);
    CustodyFrame(cfg, s, e);
    KeysStay(cfg, s, e);
    if e.Call? || th.pc in {ReadStart, Return} {
      FromTheStart(cfg, s, e);
    } else {
      PrevMoves(cfg, s, e);
      assert ThreadOk(cfg, s.heap, Linked(s.heap), th);
      if th.op.start != NULL && s'.threads[e.t].prev != th.prev {
        BehindPrev(cfg, s, e.t);
      }
    }
  }

  lemma FromTheStart(cfg: Config, s: State, e: Event)
    requires Inv(cfg, s) && Enabled(cfg, s, e) && (e.Call? || s.threads[e.t].pc in {ReadStart, Return})
    ensures FromStart(Step(cfg, s, e).heap, Step(cfg, s, e).threads[e.t])
  {
    hide Linked, HeapOk;
    assert ThreadOk(cfg, s.heap, Linked(s.heap), s.threads[e.t]);
  }

  lemma BehindPrev(cfg: Config, s: State, t: nat)
    requires Inv(cfg, s) && t < |s.threads| && s.threads[t].pc == Check2 && CasHolds(s, s.threads[t])
    requires s.threads[t].op.start != NULL && FromStart(s.heap, s.threads[t])
    ensures var th := s.threads[t];
            th.cur != HEAD && th.cur in s.heap && s.heap[th.cur].key >= s.heap[th.op.start].key
  {
    var th, l := s.threads[t], Linked(s.heap);
    assert ThreadOk(cfg, s.heap, l, th);
    if th.prev.At? {
      CasCell(cfg, s, t);
      assert Succ(s.heap, l, th.prev.cell);
    }
  }

  lemma FromStartStep(cfg: Config, s: State, e: Event)
    requires Inv(cfg, s) && Enabled(cfg, s, e) && AllFromStart(s)
    ensures AllFromStart(Step(cfg, s, e))
  {
    hide Linked, Inv, Enabled, Step;
    EnabledThread(cfg, s, e);
    var s' := Step(cfg, s, e);
    CustodyFrame(cfg, s, e);
    KeysStay(cfg, s, e);
    FromStartOwn(cfg, s, e);
    forall t | 0 <= t < |s'.threads|
      ensures FromStart(s'.heap, s'.threads[t])
    {
      if t != e.t {
        assert s'.threads[t] == s.threads[t];
      }
    }
  }

  lemma {:induction false} FromStartRun(cfg: Config, r: Run, i: nat)
    requires ValidRun(cfg, r) && i < |r.states|
    ensures AllFromStart(r.states[i])
    decreases i
  {
    hide Inv, Step, Enabled;
    if i > 0 {
      FromStartRun(cfg, r, i - 1);
      InvRun(cfg, r, i - 1);
      assert Follows(cfg, r, i - 1);
      FromStartStep(cfg, r.states[i - 1], r.events[i - 1]);
    }
  }

  /** A call with a start node looks at no cell before it: *prev is the caller's own
      variable, or the next field of a node whose key is at least the start node's. */
  lemma StartSaves(cfg: Config, r: Run, i: nat, t: nat)
    requires ValidRun(cfg, r) && i < |r.states| && t < |r.states[i].threads|
    ensures var s := r.states[i]; var th := s.threads[t];
            th.op.start != NULL && th.pc !in {Idle, ReadStart, Return} && th.prev.At? ==>
              && th.prev.cell != HEAD && th.prev.cell in s.heap && th.op.start in s.heap
              && s.heap[th.prev.cell].key >= s.heap[th.op.start].key
  {
    FromStartRun(cfg, r, i);
  }

  // ------------------------------------------------------------------ hazard slots

  /** The slots are written by the walk alone, when it comes to a node and when it moves
      on: what a call has put there stays when the call returns. */
  lemma SlotsStand(cfg: Config, r: Run, i: nat, u: nat)
    requires ValidRun(cfg, r) && i < |r.events| && u < |r.states[i].threads|
    requires r.events[i] == Go(u) ==> r.states[i].threads[u].pc !in {SetHp, Swap1, Swap2}
    ensures u < |r.states[i + 1].threads|
    ensures var th, th' := r.states[i].threads[u], r.states[i + 1].threads[u];
            th'.hp0 == th.hp0 && th'.hp1 == th.hp1
  {
    hide Linked, Abs, Load, CasHolds, Legal;
    assert Follows(cfg, r, i);
    CustodyFrame(cfg, r.states[i], r.events[i]);
  }
}
